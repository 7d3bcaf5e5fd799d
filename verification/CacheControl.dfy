/** Cache-Control: no-transform on a response (section 5.2.2.6 of RFC 9111), found in one quote-aware pass. */
module CacheControl {
  import opened Basics
  import opened AcceptEncoding
  import opened AcceptEncodingLaws
  import opened AcceptEncodingWalk

  /** "no-transform" */
  const NO_TRANSFORM: Bytes := [110, 111, 45, 116, 114, 97, 110, 115, 102, 111, 114, 109]

  lemma Spelled()
    ensures Spells(NO_TRANSFORM, "no-transform")
  {
  }

  predicate CutsName(b: byte) {
    b == SEMI || b == EQUALS
  }

  /** To the first ';' or '=' outside quotes, or else to the end of the directive: a scan of its own. */
  function SkipDirectiveName(t: Bytes): (r: Bytes)
    ensures |r| <= |t|
    decreases |t|
  {
    if t == [] || t[0] == COMMA || CutsName(t[0]) then t
    else if t[0] == DQUOTE then SkipDirectiveName(SkipQuoted(t))
    else SkipDirectiveName(t[1..])
  }

  /** The name of the directive at the front of `t`. */
  function DirectiveName(t: Bytes): Bytes {
    TrimWsRight(t[..|t| - |SkipDirectiveName(t)|])
  }

  /** Some directive of the field value is named no-transform, argument or not. */
  predicate Forbids(v: Bytes)
    decreases |v|
  {
    if v == [] then false
    else
      var t := SkipWs(v);
      var rest := SkipElement(t);
      SameName(DirectiveName(t), NO_TRANSFORM) || (rest != [] && Forbids(rest[1..]))
  }

  // ----- the single pass -----

  /** One scan finds both ends that two scans would: of the directive, and of its name. */
  method DirectiveEnd(s: Bytes, p: nat) returns (end: nat, nameEnd: nat)
    requires p <= |s|
    ensures p <= nameEnd <= end <= |s|
    ensures s[end..] == SkipElement(s[p..]) && s[nameEnd..] == SkipDirectiveName(s[p..])
    ensures end < |s| ==> s[end] == COMMA
  {
    hide SkipElement, SkipDirectiveName, SkipQuoted;
    var cutSeen := false;
    end, nameEnd := p, p;
    while end < |s| && s[end] != COMMA
      invariant p <= end <= |s| && SkipElement(s[end..]) == SkipElement(s[p..])
      invariant cutSeen ==> p <= nameEnd <= end && s[nameEnd..] == SkipDirectiveName(s[p..])
      invariant !cutSeen ==> SkipDirectiveName(s[end..]) == SkipDirectiveName(s[p..])
      decreases |s| - end
    {
      OneStep(s, end);
      if s[end] == DQUOTE {
        end := SkipQuotedAt(s, end);
      } else {
        if !cutSeen && CutsName(s[end]) {
          nameEnd := end;
          cutSeen := true;
        }
        end := end + 1;
      }
    }
    NoStep(s, end);
    if !cutSeen {
      nameEnd := end;
    }
  }

  /** One step of both scans. */
  lemma OneStep(s: Bytes, i: nat)
    requires i < |s| && s[i] != COMMA
    ensures SkipElement(s[i..]) == SkipElement(if s[i] == DQUOTE then SkipQuoted(s[i..]) else s[i + 1..])
    ensures SkipDirectiveName(s[i..]) ==
              if CutsName(s[i]) then s[i..]
              else SkipDirectiveName(if s[i] == DQUOTE then SkipQuoted(s[i..]) else s[i + 1..])
  {
    assert s[i..][1..] == s[i + 1..];
  }

  lemma NoStep(s: Bytes, i: nat)
    requires i <= |s| && (i < |s| ==> s[i] == COMMA)
    ensures SkipElement(s[i..]) == s[i..] == SkipDirectiveName(s[i..])
  {
  }

  /** The directive at `start`: its trimmed name ends at `stop`, itself at `end`. */
  method DirectiveAt(s: Bytes, start: nat) returns (stop: nat, end: nat)
    requires start <= |s|
    ensures start <= stop <= end <= |s|
    ensures s[start..stop] == DirectiveName(s[start..]) && s[end..] == SkipElement(s[start..])
  {
    hide DirectiveName, SkipDirectiveName, SkipElement;
    var nameEnd: nat;
    end, nameEnd := DirectiveEnd(s, start);
    stop := nameEnd;
    while stop > start && IsWs(s[stop - 1])
      invariant start <= stop <= nameEnd && forall i :: stop <= i < nameEnd ==> IsWs(s[i])
    {
      stop := stop - 1;
    }
    NameIs(s, start, stop, nameEnd);
  }

  /** The value walk, directive by directive. */
  method NoTransform(s: Bytes) returns (found: bool)
    ensures found == Forbids(s)
  {
    hide SameName, SkipWs, SkipElement, DirectiveName;
    var p := 0;
    assert s[0..] == s;
    while p < |s|
      invariant p <= |s| && Forbids(s) == Forbids(s[p..])
      decreases |s| - p
    {
      var start := SkipWsAt(s, p);
      var stop, end := DirectiveAt(s, start);
      if SameName(s[start..stop], NO_TRANSFORM) {
        return true;
      }
      p := end;
      if p < |s| {
        assert s[p..][1..] == s[p + 1..];
        p := p + 1;
      }
    }
    found := false;
  }

  lemma NameIs(s: Bytes, start: nat, end: nat, nameEnd: nat)
    requires start <= end <= nameEnd <= |s| && s[nameEnd..] == SkipDirectiveName(s[start..])
    requires end > start ==> !IsWs(s[end - 1])
    requires forall i :: end <= i < nameEnd ==> IsWs(s[i])
    ensures DirectiveName(s[start..]) == s[start..end]
  {
    hide SkipDirectiveName, TrimWsRight;
    Slices(s, start, nameEnd, |s|);
    assert DirectiveName(s[start..]) == TrimWsRight(s[start..][..nameEnd - start]);
    TrimsTo(s, start, end, nameEnd);
  }

  lemma TrimsTo(s: Bytes, start: nat, end: nat, nameEnd: nat)
    requires start <= end <= nameEnd <= |s| && (end > start ==> !IsWs(s[end - 1]))
    requires forall i :: end <= i < nameEnd ==> IsWs(s[i])
    ensures TrimWsRight(s[start..nameEnd]) == s[start..end]
  {
    hide TrimWsRight;
    var raw := s[start..nameEnd];
    assert forall i :: 0 <= i < |raw| ==> raw[i] == s[start + i];
    TrimIs(raw, end - start);
    assert raw[..end - start] == s[start..end];
  }

  // ----- what it means -----

  lemma {:induction false} NameExt(t: Bytes, u: Bytes)
    requires State(t, true, u)
    ensures SkipDirectiveName(Ext(t, true, u)) == Ext(SkipDirectiveName(t), true, u)
    decreases |t|
  {
    ExtHead(t, true, u);
    if t == [] || t[0] == COMMA || CutsName(t[0]) {
    } else if t[0] == DQUOTE {
      QuotedExt(t, true, u);
      NameExt(SkipQuoted(t), u);
    } else {
      ExtTail(t, true, u);
      NameExt(t[1..], u);
    }
  }

  /** A list value is the union of the lists it is joined from, as long as the first closes its quotes: so
      several Cache-Control lines mean what one joined line would. */
  lemma {:induction false} JoinedForbids(a: Bytes, u: Bytes)
    requires Closed(a)
    ensures Forbids(a + ([COMMA] + u)) <==> Forbids(a) || Forbids(u)
    decreases |a|
  {
    hide SameName;
    var x := a + ([COMMA] + u);
    var t := SkipWs(a);
    assert x == Ext(a, true, u);
    WsExt(a, true, u);
    ElementExt(t, true, u);
    NameExt(t, u);
    var name := t[..|t| - |SkipDirectiveName(t)|];
    var y := Ext(t, true, u);
    assert y[..|y| - |SkipDirectiveName(y)|] == name;
    var rest := SkipElement(t);
    ExtHead(rest, true, u);
    if rest == [] {
      assert SkipElement(y)[1..] == u;
    } else {
      assert rest[0] == COMMA by { StopsAtComma(t); }
      ExtTail(rest, true, u);
      assert SkipElement(y)[1..] == rest[1..] + ([COMMA] + u);
      JoinedForbids(rest[1..], u);
    }
    if a == [] {
      EmptyForbidsNothing();
    }
  }

  lemma {:induction false} StopsAtComma(t: Bytes)
    ensures SkipElement(t) != [] ==> SkipElement(t)[0] == COMMA
    decreases |t|
  {
    if t == [] || t[0] == COMMA {
    } else if t[0] == DQUOTE {
      StopsAtComma(SkipQuoted(t));
    } else {
      StopsAtComma(t[1..]);
    }
  }

  lemma EmptyForbidsNothing()
    ensures !SameName(DirectiveName([]), NO_TRANSFORM)
  {
    assert |DirectiveName([])| == 0;
  }

  /** The directive counts with an argument too, quoted or not: what follows the name is not looked at. */
  lemma ArgumentIsIgnored(name: Bytes, b: byte, argument: Bytes)
    requires SameName(name, NO_TRANSFORM) && CutsName(b)
    ensures Forbids(name) && Forbids(name + [b] + argument)
  {
    PlainName(name);
    NameAlone(name, []);
    assert name + [] == name;
    NameAlone(name, [b] + argument);
    assert name + ([b] + argument) == name + [b] + argument;
  }

  lemma PlainName(name: Bytes)
    requires SameName(name, NO_TRANSFORM)
    ensures forall i :: 0 <= i < |name| ==>
              name[i] != COMMA && name[i] != DQUOTE && !CutsName(name[i]) && !IsWs(name[i])
  {
    forall i | 0 <= i < |name|
      ensures name[i] != COMMA && name[i] != DQUOTE && !CutsName(name[i]) && !IsWs(name[i])
    {
      assert Lower(name[i]) == Lower(NO_TRANSFORM[i]);
    }
  }

  lemma NameAlone(name: Bytes, tail: Bytes)
    requires SameName(name, NO_TRANSFORM) && (tail == [] || CutsName(tail[0]))
    requires forall i :: 0 <= i < |name| ==>
               name[i] != COMMA && name[i] != DQUOTE && !CutsName(name[i]) && !IsWs(name[i])
    ensures Forbids(name + tail)
  {
    hide SkipElement;
    var v := name + tail;
    assert |name| == 12;
    assert SkipWs(v) == v;
    NameOf(name, tail);
  }

  lemma {:induction false} ScanName(name: Bytes, tail: Bytes)
    requires tail == [] || CutsName(tail[0])
    requires forall i :: 0 <= i < |name| ==> name[i] != COMMA && name[i] != DQUOTE && !CutsName(name[i])
    ensures SkipDirectiveName(name + tail) == tail
  {
    if name == [] {
      assert name + tail == tail;
    } else {
      assert (name + tail)[1..] == name[1..] + tail;
      ScanName(name[1..], tail);
    }
  }

  /** A quoted argument is no directive, whatever it spells. */
  lemma QuotedIsNoDirective(name: Bytes, inner: Bytes)
    requires !SameName(name, NO_TRANSFORM) && DQUOTE !in inner && BACKSLASH !in inner
    requires name != [] && forall i :: 0 <= i < |name| ==>
               name[i] != COMMA && name[i] != DQUOTE && !CutsName(name[i]) && !IsWs(name[i])
    ensures !Forbids(name + [EQUALS, DQUOTE] + inner + [DQUOTE])
  {
    hide SameName, SkipElement;
    var tail := [EQUALS, DQUOTE] + inner + [DQUOTE];
    var v := name + tail;
    assert v == name + [EQUALS, DQUOTE] + inner + [DQUOTE];
    assert SkipWs(v) == v;
    NameOf(name, tail);
    QuotedTail(inner);
    ScanElement(name, tail);
  }

  lemma NameOf(name: Bytes, tail: Bytes)
    requires tail == [] || CutsName(tail[0])
    requires name != [] && forall i :: 0 <= i < |name| ==>
               name[i] != COMMA && name[i] != DQUOTE && !CutsName(name[i]) && !IsWs(name[i])
    ensures DirectiveName(name + tail) == name
  {
    var v := name + tail;
    ScanName(name, tail);
    assert v[..|v| - |tail|] == name;
    TrimIs(name, |name|);
    assert name[..|name|] == name;
  }

  lemma QuotedTail(inner: Bytes)
    requires DQUOTE !in inner && BACKSLASH !in inner
    ensures SkipElement([EQUALS, DQUOTE] + inner + [DQUOTE]) == []
  {
    hide Unquote;
    var tail := [EQUALS, DQUOTE] + inner + [DQUOTE];
    ScanQuoted(inner);
    assert tail[1..] == [DQUOTE] + inner + [DQUOTE];
    assert tail[1..][1..] == inner + [DQUOTE];
    assert SkipElement(tail[1..]) == [];
  }

  lemma {:induction false} ScanQuoted(inner: Bytes)
    requires DQUOTE !in inner && BACKSLASH !in inner
    ensures Unquote(inner + [DQUOTE]) == []
  {
    if inner != [] {
      assert (inner + [DQUOTE])[1..] == inner[1..] + [DQUOTE];
      ScanQuoted(inner[1..]);
    }
  }

  lemma {:induction false} ScanElement(name: Bytes, tail: Bytes)
    requires forall i :: 0 <= i < |name| ==> name[i] != COMMA && name[i] != DQUOTE
    ensures SkipElement(name + tail) == SkipElement(tail)
  {
    if name == [] {
      assert name + tail == tail;
    } else {
      assert (name + tail)[1..] == name[1..] + tail;
      ScanElement(name[1..], tail);
    }
  }

  // ----- the directives, written out (sections 5.2 of RFC 9111 and 5.6.4 of RFC 9110) -----

  datatype Char = Char(octet: byte) | Pair(octet: byte)

  /** An argument is octets and quoted-strings. */
  datatype Piece = Octet(octet: byte) | QuotedString(chars: seq<Char>)

  predicate AllPlain(chars: seq<Char>) {
    forall c :: c in chars && c.Char? ==> c.octet != DQUOTE && c.octet != BACKSLASH
  }

  function CharsText(chars: seq<Char>): Bytes {
    if chars == [] then []
    else (if chars[0].Pair? then [BACKSLASH, chars[0].octet] else [chars[0].octet]) + CharsText(chars[1..])
  }

  predicate AllPieces(pieces: seq<Piece>) {
    forall p :: p in pieces ==> if p.Octet? then p.octet != DQUOTE && p.octet != COMMA else AllPlain(p.chars)
  }

  function PiecesText(pieces: seq<Piece>): Bytes {
    if pieces == [] then []
    else
      var p := pieces[0];
      (if p.Octet? then [p.octet] else [DQUOTE] + (CharsText(p.chars) + [DQUOTE])) + PiecesText(pieces[1..])
  }

  /** A directive: its name with the white space around it, and from its '=' or ';' on an argument. */
  datatype Directive = Directive(before: Bytes, name: Bytes, after: Bytes, argument: seq<Piece>) {
    predicate Valid() {
      && AllWs(before) && AllWs(after) && (name == [] ==> after == []) && AllPieces(argument)
      && (argument != [] ==> argument[0].Octet? && (argument[0].octet == SEMI || argument[0].octet == EQUALS))
      && (name != [] ==> !IsWs(name[0]) && !IsWs(name[|name| - 1]))
      && COMMA !in name && DQUOTE !in name && SEMI !in name && EQUALS !in name
    }

    function Text(): Bytes {
      before + ((name + after) + PiecesText(argument))
    }
  }

  predicate AllDirectives(ds: seq<Directive>) {
    forall d :: d in ds ==> d.Valid()
  }

  function Print(ds: seq<Directive>): Bytes
    requires ds != []
  {
    if |ds| == 1 then ds[0].Text() else ds[0].Text() + ([COMMA] + Print(ds[1..]))
  }

  lemma {:induction false} CharsClose(chars: seq<Char>, tail: Bytes)
    requires AllPlain(chars)
    ensures Terminated(CharsText(chars) + ([DQUOTE] + tail)) && Unquote(CharsText(chars) + ([DQUOTE] + tail)) == tail
  {
    var t := CharsText(chars) + ([DQUOTE] + tail);
    if chars != [] {
      var rest := CharsText(chars[1..]) + ([DQUOTE] + tail);
      CharsClose(chars[1..], tail);
      assert chars[0] in chars;
      assert t == (if chars[0].Pair? then [BACKSLASH, chars[0].octet] else [chars[0].octet]) + rest;
      assert if chars[0].Pair? then t[2..] == rest else t[1..] == rest;
    } else {
      assert t[1..] == tail;
    }
  }

  /** An argument ends its directive, and leaves no quoted-string open. */
  lemma {:induction false} PiecesEnd(pieces: seq<Piece>)
    requires AllPieces(pieces)
    ensures SkipElement(PiecesText(pieces)) == [] && Closed(PiecesText(pieces))
  {
    hide Unquote, Terminated;
    if pieces != [] {
      var p, t, rest := pieces[0], PiecesText(pieces), PiecesText(pieces[1..]);
      assert p in pieces;
      PiecesEnd(pieces[1..]);
      if p.Octet? {
        assert t[1..] == rest;
      } else {
        CharsClose(p.chars, rest);
        assert t[1..] == CharsText(p.chars) + ([DQUOTE] + rest);
      }
    }
  }

  lemma {:induction false} PlainCloses(s: Bytes, tail: Bytes)
    requires DQUOTE !in s
    ensures Closed(s + tail) == Closed(tail)
  {
    if s == [] {
      assert s + tail == tail;
    } else {
      assert (s + tail)[1..] == s[1..] + tail;
      PlainCloses(s[1..], tail);
    }
  }

  lemma DirectiveReads(d: Directive)
    requires d.Valid()
    ensures var t := SkipWs(d.Text()); SkipElement(t) == [] && DirectiveName(t) == d.name && Closed(d.Text())
  {
    hide SkipWs, SkipElement, SkipDirectiveName, TrimWsRight, Closed, PiecesText, AllPieces;
    var named, tail := d.name + d.after, PiecesText(d.argument);
    TailCuts(d);
    WsOver(d.before, named + tail);
    ScanName(named, tail);
    ScanElement(named, tail);
    PiecesEnd(d.argument);
    assert (named + tail)[..|named|] == named;
    TrimIs(named, |d.name|);
    assert named[..|d.name|] == d.name;
    PlainCloses(d.before, named + tail);
    PlainCloses(named, tail);
  }

  lemma TailCuts(d: Directive)
    requires d.Valid()
    ensures var tail := PiecesText(d.argument); tail == [] || CutsName(tail[0])
  {
  }

  /** A field value forbids the transformation if and only if one of its directives has the name, in any case, alone
      or with any argument: whatever stands inside an argument, quoted or not, is no directive. */
  lemma {:induction false} ListForbids(ds: seq<Directive>)
    requires ds != [] && AllDirectives(ds)
    ensures Forbids(Print(ds)) <==> exists d :: d in ds && SameName(d.name, NO_TRANSFORM)
  {
    hide Forbids, SameName, Closed, Directive.Text, Directive.Valid;
    var d := ds[0];
    assert d in ds;
    DirectiveForbids(d);
    if |ds| > 1 {
      ListForbids(ds[1..]);
      JoinedForbids(d.Text(), Print(ds[1..]));
      assert ds == [d] + ds[1..];
    }
  }

  lemma DirectiveForbids(d: Directive)
    requires d.Valid()
    ensures Closed(d.Text()) && (Forbids(d.Text()) <==> SameName(d.name, NO_TRANSFORM))
  {
    hide SkipElement, DirectiveName, Closed;
    DirectiveReads(d);
    if d.Text() == [] {
      assert d.name == [];
    }
  }
}
