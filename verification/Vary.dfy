/** The Vary helpers: which tokens a response already names, and what they push. */
module Vary {
  import opened AcceptEncoding
  import opened Basics

  /** "Vary". */
  const VARY: Bytes := [86, 97, 114, 121]
  /** "Available-Dictionary". */
  const AVAILABLE_DICTIONARY: Bytes := [65, 118, 97, 105, 108, 97, 98, 108, 101, 45, 68, 105, 99, 116, 105, 111, 110, 97, 114, 121]
  /** "Sec-Fetch-Site". */
  const SEC_FETCH_SITE: Bytes := [83, 101, 99, 45, 70, 101, 116, 99, 104, 45, 83, 105, 116, 101]
  const BOTH: Bytes := AVAILABLE_DICTIONARY + ([COMMA, SP] + SEC_FETCH_SITE)

  lemma Spelled()
    ensures Spells(VARY, "Vary") && Spells(AVAILABLE_DICTIONARY, "Available-Dictionary")
    ensures Spells(SEC_FETCH_SITE, "Sec-Fetch-Site") && Spells(BOTH, "Available-Dictionary, Sec-Fetch-Site")
  {
  }

  /** `hash` 0 marks a header removed from the response. */
  datatype Header = Header(hash: nat, key: Bytes, value: Bytes)

  // ----- what a Vary field names (section 12.5.5 of RFC 9110) -----

  /** Index of the first comma, or the length. */
  function Comma(s: Bytes): (k: nat)
    ensures k <= |s| && (k < |s| ==> s[k] == COMMA) && forall i :: 0 <= i < k ==> s[i] != COMMA
  {
    if s == [] || s[0] == COMMA then 0 else 1 + Comma(s[1..])
  }

  /** The comma-separated list `v` has the member `token`, in any case and with any OWS around it. */
  predicate Lists(v: Bytes, token: Bytes)
    decreases |v|
  {
    var k := Comma(v);
    SameName(TrimWsRight(SkipWs(v[..k])), token) || (k < |v| && Lists(v[k + 1..], token))
  }

  predicate IsVary(h: Header) {
    h.hash != 0 && SameName(h.key, VARY)
  }

  /** Some active Vary line of the response names `token`. */
  predicate Named(headers: seq<Header>, token: Bytes) {
    exists i :: 0 <= i < |headers| && NamesAt(headers[i], token)
  }

  predicate NamesAt(h: Header, token: Bytes) {
    IsVary(h) && Lists(h.value, token)
  }

  // ----- the scan of one value -----

  lemma CommaUnique(s: Bytes, k: nat)
    requires k <= |s| && (k < |s| ==> s[k] == COMMA) && forall i :: 0 <= i < k ==> s[i] != COMMA
    ensures Comma(s) == k
  {
    var c := Comma(s);
    assert c < |s| ==> s[c] == COMMA;
  }

  /** Leading OWS and empty members change nothing. */
  lemma SkipOne(v: Bytes, token: Bytes)
    requires v != [] && (IsWs(v[0]) || v[0] == COMMA) && token != []
    ensures Lists(v, token) == Lists(v[1..], token)
  {
    if v[0] == COMMA {
      CommaUnique(v, 0);
      assert v[..0] == [];
    } else {
      var k := Comma(v);
      CommaUnique(v[1..], k - 1);
      assert v[..k][1..] == v[1..][..k - 1];
      if k < |v| {
        assert v[1..][k..] == v[k + 1..];
      }
    }
  }

  /** The member that starts here, and the rest from its comma on. */
  lemma TakeMember(v: Bytes, k: nat, token: Bytes)
    requires v != [] && !IsWs(v[0]) && v[0] != COMMA && k == Comma(v) && token != []
    ensures Lists(v, token) <==> SameName(TrimWsRight(v[..k]), token) || Lists(v[k..], token)
  {
    assert SkipWs(v[..k]) == v[..k];
    if k < |v| {
      SkipOne(v[k..], token);
      assert v[k..][1..] == v[k + 1..];
    } else {
      NothingListed(token);
    }
  }

  lemma NothingListed(token: Bytes)
    requires token != []
    ensures !Lists([], token)
  {
  }

  /** Which of the tokens have been seen. */
  ghost predicate Seen(tokens: seq<Bytes>, before: seq<bool>, v: Bytes, has: seq<bool>, rest: Bytes) {
    && |before| == |has| == |tokens|
    && forall t :: 0 <= t < |tokens| ==> ((before[t] || Lists(v, tokens[t])) <==> (has[t] || Lists(rest, tokens[t])))
  }

  ghost predicate Tokens(tokens: seq<Bytes>) {
    forall t :: 0 <= t < |tokens| ==> tokens[t] != []
  }

  predicate All(has: seq<bool>) {
    forall t :: 0 <= t < |has| ==> has[t]
  }

  /** The member at `start` lies in `start .. stop`, its comma or the end of the value at `tokEnd`. */
  method ReadMember(v: Bytes, start: nat, tokens: seq<Bytes>) returns (stop: nat, tokEnd: nat)
    requires start < |v| && !IsWs(v[start]) && v[start] != COMMA && Tokens(tokens)
    ensures start <= stop <= tokEnd <= |v| && start < tokEnd
    ensures forall t :: 0 <= t < |tokens| ==>
              (Lists(v[start..], tokens[t]) <==> SameName(v[start..stop], tokens[t]) || Lists(v[tokEnd..], tokens[t]))
  {
    var p := start;
    while p < |v| && v[p] != COMMA
      invariant start <= p <= |v| && forall i :: start <= i < p ==> v[i] != COMMA
    {
      p := p + 1;
    }
    tokEnd := p;
    while p > start && IsWs(v[p - 1])
      invariant start <= p <= tokEnd && forall i :: p <= i < tokEnd ==> IsWs(v[i])
    {
      p := p - 1;
    }
    stop := p;
    MemberIs(v, start, stop, tokEnd, tokens);
  }

  lemma MemberIs(v: Bytes, start: nat, stop: nat, tokEnd: nat, tokens: seq<Bytes>)
    requires start <= stop <= tokEnd <= |v| && start < tokEnd && !IsWs(v[start]) && Tokens(tokens)
    requires forall i :: start <= i < tokEnd ==> v[i] != COMMA
    requires tokEnd < |v| ==> v[tokEnd] == COMMA
    requires stop > start ==> !IsWs(v[stop - 1])
    requires forall i :: stop <= i < tokEnd ==> IsWs(v[i])
    ensures forall t :: 0 <= t < |tokens| ==>
              (Lists(v[start..], tokens[t]) <==> SameName(v[start..stop], tokens[t]) || Lists(v[tokEnd..], tokens[t]))
  {
    var rest := v[start..];
    CommaUnique(rest, tokEnd - start);
    TrimIs(rest[..tokEnd - start], stop - start);
    assert rest[..tokEnd - start][..stop - start] == v[start..stop];
    assert rest[tokEnd - start..] == v[tokEnd..];
    forall t | 0 <= t < |tokens|
      ensures Lists(rest, tokens[t]) <==> SameName(v[start..stop], tokens[t]) || Lists(v[tokEnd..], tokens[t])
    {
      TakeMember(rest, tokEnd - start, tokens[t]);
    }
  }

  /** One Vary value, left early once every token is found. */
  method ScanValue(v: Bytes, tokens: seq<Bytes>, before: seq<bool>) returns (has: seq<bool>)
    requires |before| == |tokens| && Tokens(tokens)
    ensures |has| == |tokens|
    ensures forall t :: 0 <= t < |tokens| ==> (has[t] <==> before[t] || Lists(v, tokens[t]))
  {
    hide Lists, SameName;
    has := before;
    var p := 0;
    assert v[0..] == v;
    while p < |v|
      invariant p <= |v| && Seen(tokens, before, v, has, v[p..])
    {
      p := SkipTo(v, p, tokens);
      if p == |v| {
        break;
      }
      var stop, tokEnd := ReadMember(v, p, tokens);
      has := Match(v[p..stop], tokens, has);
      if All(has) {
        return;
      }
      p := tokEnd;
    }
    assert v[p..] == [];
    forall t | 0 <= t < |tokens|
      ensures !Lists([], tokens[t])
    {
      NothingListed(tokens[t]);
    }
  }

  method SkipTo(v: Bytes, from: nat, tokens: seq<Bytes>) returns (p: nat)
    requires from <= |v| && Tokens(tokens)
    ensures from <= p <= |v| && (p < |v| ==> !IsWs(v[p]) && v[p] != COMMA)
    ensures forall t :: 0 <= t < |tokens| ==> Lists(v[from..], tokens[t]) == Lists(v[p..], tokens[t])
  {
    p := from;
    while p < |v| && (IsWs(v[p]) || v[p] == COMMA)
      invariant from <= p <= |v|
      invariant forall t :: 0 <= t < |tokens| ==> Lists(v[from..], tokens[t]) == Lists(v[p..], tokens[t])
    {
      assert v[p..][1..] == v[p + 1..];
      forall t | 0 <= t < |tokens|
        ensures Lists(v[p..], tokens[t]) == Lists(v[p + 1..], tokens[t])
      {
        SkipOne(v[p..], tokens[t]);
      }
      p := p + 1;
    }
  }

  /** Compare one member with every token not found yet. */
  method Match(member: Bytes, tokens: seq<Bytes>, before: seq<bool>) returns (has: seq<bool>)
    requires |before| == |tokens|
    ensures |has| == |tokens|
    ensures forall t :: 0 <= t < |tokens| ==> (has[t] <==> before[t] || SameName(member, tokens[t]))
  {
    has := before;
    for t := 0 to |tokens|
      invariant |has| == |tokens|
      invariant forall k :: 0 <= k < t ==> (has[k] <==> before[k] || SameName(member, tokens[k]))
      invariant forall k :: t <= k < |tokens| ==> has[k] == before[k]
    {
      if !has[t] && SameName(member, tokens[t]) {
        has := has[t := true];
      }
    }
  }

  /** One walk for any number of tokens finds exactly what a walk for each of them would. */
  method FindTokens(headers: seq<Header>, tokens: seq<Bytes>) returns (has: seq<bool>)
    requires Tokens(tokens)
    ensures |has| == |tokens| && forall t :: 0 <= t < |tokens| ==> (has[t] <==> Named(headers, tokens[t]))
  {
    hide Lists, IsVary;
    has := seq(|tokens|, _ => false);
    for i := 0 to |headers|
      invariant |has| == |tokens|
      invariant forall t :: 0 <= t < |tokens| ==> (has[t] <==> Named(headers[..i], tokens[t]))
    {
      forall t | 0 <= t < |tokens|
        ensures Named(headers[..i + 1], tokens[t]) <==> Named(headers[..i], tokens[t]) || NamesAt(headers[i], tokens[t])
      {
      }
      if IsVary(headers[i]) {
        ghost var before := has;
        has := ScanValue(headers[i].value, tokens, has);
        if |tokens| > 0 && All(has) {
          NamedPrefix(headers, i + 1, tokens);
          return;
        }
      }
    }
    assert headers[..|headers|] == headers;
  }

  lemma NamedPrefix(headers: seq<Header>, i: nat, tokens: seq<Bytes>)
    requires i <= |headers| && forall t :: 0 <= t < |tokens| ==> Named(headers[..i], tokens[t])
    ensures forall t :: 0 <= t < |tokens| ==> Named(headers, tokens[t])
  {
    forall t | 0 <= t < |tokens|
      ensures Named(headers, tokens[t])
    {
      var k :| 0 <= k < i && NamesAt(headers[..i][k], tokens[t]);
      assert NamesAt(headers[k], tokens[t]);
    }
  }

  // ----- what the helpers push -----

  /** The response under construction; `room` is how many more headers can be allocated. */
  datatype Out = Out(headers: seq<Header>, gzipVary: bool, room: nat)

  function Pushed(o: Out, value: Bytes): (Out, Rc) {
    if o.room == 0 then (o, ERROR)
    else (o.(headers := o.headers + [Header(1, VARY, value)], room := o.room - 1), OK)
  }

  /** Accept-Encoding is named by nginx itself when gzip_vary is on, else by a line of our own, once. */
  ghost function NameEncoding(o: Out, gzipVaryOn: bool): (Out, Rc) {
    var p := o.(gzipVary := true);
    if gzipVaryOn || Named(o.headers, ACCEPT_ENCODING) then (p, OK) else Pushed(p, ACCEPT_ENCODING)
  }

  ghost function NameDictionary(o: Out): (Out, Rc) {
    var ad, site := Named(o.headers, AVAILABLE_DICTIONARY), Named(o.headers, SEC_FETCH_SITE);
    if ad && site then (o, OK)
    else if ad then Pushed(o, SEC_FETCH_SITE)
    else if site then Pushed(o, AVAILABLE_DICTIONARY)
    else Pushed(o, BOTH)
  }

  /** The two helpers one after the other, the second only when it is wanted and the first succeeded. */
  ghost function NamePair(o: Out, gzipVaryOn: bool, wantDcz: bool): (Out, Rc) {
    var (p, rc) := NameEncoding(o, gzipVaryOn);
    if rc != OK || !wantDcz then (p, rc) else NameDictionary(p)
  }

  class Response {
    var out: Out
    const gzipVaryOn: bool        // the core module's directive, off when it has no configuration here

    constructor (out: Out, gzipVaryOn: bool)
      ensures this.out == out && this.gzipVaryOn == gzipVaryOn
    {
      this.out, this.gzipVaryOn := out, gzipVaryOn;
    }

    method PushHeader(key: Bytes, value: Bytes) returns (rc: Rc)
      modifies this
      ensures out.gzipVary == old(out).gzipVary
      ensures rc == if old(out).room == 0 then ERROR else OK
      ensures rc == ERROR ==> out == old(out)
      ensures rc == OK ==> out.headers == old(out).headers + [Header(1, key, value)] && out.room + 1 == old(out).room
    {
      if out.room == 0 {
        return ERROR;
      }
      out := out.(headers := out.headers + [Header(1, key, value)], room := out.room - 1);
      rc := OK;
    }

    method PushDictionary(hasDictionary: bool, hasSite: bool) returns (rc: Rc)
      requires hasDictionary == Named(out.headers, AVAILABLE_DICTIONARY)
      requires hasSite == Named(out.headers, SEC_FETCH_SITE)
      modifies this
      ensures (out, rc) == NameDictionary(old(out))
    {
      if hasDictionary && hasSite {
        rc := OK;
      } else if hasDictionary {
        rc := PushHeader(VARY, SEC_FETCH_SITE);
      } else if hasSite {
        rc := PushHeader(VARY, AVAILABLE_DICTIONARY);
      } else {
        rc := PushHeader(VARY, BOTH);
      }
    }

    method VaryDcz() returns (rc: Rc)
      modifies this
      ensures (out, rc) == NameDictionary(old(out))
    {
      var has := FindTokens(out.headers, [AVAILABLE_DICTIONARY, SEC_FETCH_SITE]);
      rc := PushDictionary(has[0], has[1]);
    }

    method VaryAcceptEncoding() returns (rc: Rc)
      modifies this
      ensures (out, rc) == NameEncoding(old(out), gzipVaryOn)
    {
      out := out.(gzipVary := true);
      if gzipVaryOn {
        return OK;
      }
      var has := FindTokens(out.headers, [ACCEPT_ENCODING]);
      if has[0] {
        return OK;
      }
      rc := PushHeader(VARY, ACCEPT_ENCODING);
    }

    /** One walk for the three tokens, and yet the same headers, flag and result as the two helpers in turn. */
    method VaryAeDcz(wantDcz: bool) returns (rc: Rc)
      modifies this
      ensures (out, rc) == NamePair(old(out), gzipVaryOn, wantDcz)
    {
      hide Named;
      ghost var start := out;
      out := out.(gzipVary := true);
      var needAe := !gzipVaryOn;
      if !needAe && !wantDcz {
        return OK;
      }
      var hasAe, hasDictionary, hasSite := true, false, false;
      if needAe {
        var has := FindTokens(out.headers, if wantDcz then [ACCEPT_ENCODING, AVAILABLE_DICTIONARY, SEC_FETCH_SITE]
                                           else [ACCEPT_ENCODING]);
        hasAe := has[0];
        if wantDcz {
          hasDictionary, hasSite := has[1], has[2];
        }
      } else {
        var has := FindTokens(out.headers, [AVAILABLE_DICTIONARY, SEC_FETCH_SITE]);
        hasDictionary, hasSite := has[0], has[1];
      }
      if needAe && !hasAe {
        EncodingLineNames(out.headers, AVAILABLE_DICTIONARY);
        EncodingLineNames(out.headers, SEC_FETCH_SITE);
        rc := PushHeader(VARY, ACCEPT_ENCODING);
        if rc != OK {
          return;
        }
      }
      if !wantDcz {
        return OK;
      }
      rc := PushDictionary(hasDictionary, hasSite);
    }
  }

  /** A pushed line names what it was pushed for, and nothing else. */
  lemma LineNames(headers: seq<Header>, value: Bytes, token: Bytes)
    ensures Named(headers + [Header(1, VARY, value)], token) <==> Named(headers, token) || Lists(value, token)
  {
    var all := headers + [Header(1, VARY, value)];
    assert all[..|headers| + 1] == all && all[..|headers|] == headers;
    assert IsVary(all[|headers|]);
  }

  /** A value without commas or outer blanks is its own only member. */
  lemma OneMember(v: Bytes, token: Bytes)
    requires Clean(v)
    ensures Lists(v, token) <==> SameName(v, token)
  {
    CommaUnique(v, |v|);
    assert v[..|v|] == v;
    TrimIs(v, |v|);
  }

  lemma EncodingLineNames(headers: seq<Header>, token: Bytes)
    ensures Named(headers + [Header(1, VARY, ACCEPT_ENCODING)], token)
            <==> Named(headers, token) || SameName(ACCEPT_ENCODING, token)
  {
    hide Named, Lists, SameName, Clean;
    TokensAreClean();
    LineNames(headers, ACCEPT_ENCODING, token);
    OneMember(ACCEPT_ENCODING, token);
  }

  lemma DictionaryLineNames(headers: seq<Header>, token: Bytes)
    requires token != []
    ensures Named(headers + [Header(1, VARY, AVAILABLE_DICTIONARY)], token)
            <==> Named(headers, token) || SameName(AVAILABLE_DICTIONARY, token)
    ensures Named(headers + [Header(1, VARY, SEC_FETCH_SITE)], token)
            <==> Named(headers, token) || SameName(SEC_FETCH_SITE, token)
    ensures Named(headers + [Header(1, VARY, BOTH)], token)
            <==> Named(headers, token) || SameName(AVAILABLE_DICTIONARY, token) || SameName(SEC_FETCH_SITE, token)
  {
    hide Named, Lists, SameName, Clean;
    TokensAreClean();
    LineNames(headers, AVAILABLE_DICTIONARY, token);
    OneMember(AVAILABLE_DICTIONARY, token);
    LineNames(headers, SEC_FETCH_SITE, token);
    OneMember(SEC_FETCH_SITE, token);
    LineNames(headers, BOTH, token);
    BothMembers(token);
  }

  ghost predicate Clean(v: Bytes) {
    v != [] && !IsWs(v[0]) && !IsWs(v[|v| - 1]) && forall i :: 0 <= i < |v| ==> v[i] != COMMA
  }

  lemma TwoMembers(a: Bytes, b: Bytes, token: Bytes)
    requires Clean(a) && Clean(b) && token != []
    ensures Lists(a + ([COMMA, SP] + b), token) <==> SameName(a, token) || SameName(b, token)
  {
    hide SameName;
    var v := a + ([COMMA, SP] + b);
    CommaUnique(v, |a|);
    assert v[..|a|] == a;
    assert SkipWs(a) == a;
    TrimIs(a, |a|);
    assert a[..|a|] == a;
    assert v[|a| + 1..] == [SP] + b;
    SkipOne([SP] + b, token);
    assert ([SP] + b)[1..] == b;
    OneMember(b, token);
  }

  lemma TokensAreClean()
    ensures Clean(ACCEPT_ENCODING) && Clean(AVAILABLE_DICTIONARY) && Clean(SEC_FETCH_SITE)
  {
  }

  lemma BothMembers(token: Bytes)
    requires token != []
    ensures Lists(BOTH, token) <==> SameName(AVAILABLE_DICTIONARY, token) || SameName(SEC_FETCH_SITE, token)
  {
    hide Lists, SameName, Clean;
    assert BOTH == AVAILABLE_DICTIONARY + ([COMMA, SP] + SEC_FETCH_SITE);
    TokensAreClean();
    TwoMembers(AVAILABLE_DICTIONARY, SEC_FETCH_SITE, token);
  }

  // ----- the same, written out -----

  /** One member of a list, empty or not, and the white space around it. */
  datatype Member = Member(before: Bytes, name: Bytes, after: Bytes) {
    predicate Valid() {
      AllWs(before) && AllWs(after) && COMMA !in name && (name != [] ==> !IsWs(name[0]) && !IsWs(name[|name| - 1]))
    }

    function Text(): Bytes {
      before + name + after
    }
  }

  predicate AllValid(members: seq<Member>) {
    forall m :: m in members ==> m.Valid()
  }

  /** The members with a comma between any two. */
  function Print(members: seq<Member>): Bytes
    requires members != []
  {
    members[0].Text() + if |members| == 1 then [] else [COMMA] + Print(members[1..])
  }

  /** A list names what one of its members spells, in any case and with any OWS around it, and nothing else. */
  lemma {:induction false} ListNamesItsMembers(members: seq<Member>, token: Bytes)
    requires members != [] && AllValid(members)
    ensures Lists(Print(members), token) <==> exists m :: m in members && SameName(m.name, token)
  {
    hide Lists, SameName, Member.Text;
    var m := members[0];
    assert m in members;
    if |members| == 1 {
      FirstMember(m, [], token);
      assert m.Text() + [] == m.Text();
    } else {
      var rest := Print(members[1..]);
      FirstMember(m, [COMMA] + rest, token);
      assert ([COMMA] + rest)[1..] == rest;
      ListNamesItsMembers(members[1..], token);
      assert members == [m] + members[1..];
    }
  }

  lemma FirstMember(m: Member, tail: Bytes, token: Bytes)
    requires m.Valid() && (tail != [] ==> tail[0] == COMMA)
    ensures Lists(m.Text() + tail, token) <==> SameName(m.name, token) || (tail != [] && Lists(tail[1..], token))
  {
    hide SameName, Member.Text, Comma, SkipWs, TrimWsRight;
    var v := m.Text() + tail;
    MemberEnds(m, tail);
    assert v[..|m.Text()|] == m.Text();
    assert tail != [] ==> v[|m.Text()| + 1..] == tail[1..];
  }

  lemma MemberEnds(m: Member, tail: Bytes)
    requires m.Valid() && (tail != [] ==> tail[0] == COMMA)
    ensures Comma(m.Text() + tail) == |m.Text()| && TrimWsRight(SkipWs(m.Text())) == m.name
  {
    hide Comma, SkipWs, TrimWsRight;
    Strip(m.before, m.name, m.after);
    CommaUnique(m.Text() + tail, |m.Text()|);
  }

  /** Every value is such a list. */
  lemma {:induction false} EveryValueIsAList(v: Bytes) returns (members: seq<Member>)
    ensures members != [] && AllValid(members) && Print(members) == v
    decreases |v|
  {
    var k := Comma(v);
    var m := MemberOf(v[..k]);
    members := [m];
    if k < |v| {
      var others := EveryValueIsAList(v[k + 1..]);
      members := [m] + others;
      assert members[1..] == others;
      assert v == v[..k] + ([COMMA] + v[k + 1..]);
    }
  }

  lemma MemberOf(s: Bytes) returns (m: Member)
    requires COMMA !in s
    ensures m.Valid() && m.Text() == s
  {
    var r := SkipWs(s);
    WsTaken(s);
    var name := TrimWsRight(r);
    m := Member(s[..|s| - |r|], name, r[|name|..]);
    assert forall b :: b in name ==> b in s;
  }

  lemma {:induction false} WsTaken(s: Bytes)
    ensures var r := SkipWs(s); AllWs(s[..|s| - |r|]) && s[|s| - |r|..] == r && (r != [] ==> !IsWs(r[0]))
  {
    if s != [] && IsWs(s[0]) {
      WsTaken(s[1..]);
      var n := |s| - |SkipWs(s)|;
      assert s[..n] == [s[0]] + s[1..][..n - 1];
    }
  }

  /** What a Vary line is, letter by letter; a header removed from the response is none. */
  lemma VaryLine(h: Header)
    ensures IsVary(h) <==>
              h.hash != 0 && |h.key| == 4
              && (h.key[0] == 'V' as int || h.key[0] == 'v' as int) && (h.key[1] == 'A' as int || h.key[1] == 'a' as int)
              && (h.key[2] == 'R' as int || h.key[2] == 'r' as int) && (h.key[3] == 'Y' as int || h.key[3] == 'y' as int)
  {
  }

  // ----- what a cache is told -----

  /** What a helper adds to the fields named: exactly the dimensions it is about, and nothing is lost. */
  lemma EncodingNames(o: Out, gzipVaryOn: bool, token: Bytes)
    requires token != []
    ensures var (p, rc) := NameEncoding(o, gzipVaryOn);
            && o.headers <= p.headers && |p.headers| <= |o.headers| + 1
            && (rc == OK ==> p.gzipVary && (gzipVaryOn || Named(p.headers, ACCEPT_ENCODING)))
            && (rc != OK ==> p.headers == o.headers)
            && (Named(o.headers, token) ==> Named(p.headers, token))
            && (Named(p.headers, token) && !Named(o.headers, token) ==> !gzipVaryOn && SameName(ACCEPT_ENCODING, token))
  {
    hide Named, SameName;
    EncodingLineNames(o.headers, token);
    EncodingLineNames(o.headers, ACCEPT_ENCODING);
    SameSelf(ACCEPT_ENCODING);
  }

  lemma SameSelf(s: Bytes)
    ensures SameName(s, s)
  {
  }

  lemma DictionaryNames(o: Out, token: Bytes)
    requires token != []
    ensures var (p, rc) := NameDictionary(o);
            && o.headers <= p.headers && |p.headers| <= |o.headers| + 1
            && (rc == OK ==> Named(p.headers, AVAILABLE_DICTIONARY) && Named(p.headers, SEC_FETCH_SITE))
            && (rc != OK ==> p.headers == o.headers)
            && (Named(o.headers, token) ==> Named(p.headers, token))
            && (Named(p.headers, token) && !Named(o.headers, token) ==>
                  SameName(AVAILABLE_DICTIONARY, token) || SameName(SEC_FETCH_SITE, token))
  {
    hide Named, SameName;
    DictionaryLineNames(o.headers, token);
    DictionaryLineNames(o.headers, AVAILABLE_DICTIONARY);
    DictionaryLineNames(o.headers, SEC_FETCH_SITE);
    SameSelf(AVAILABLE_DICTIONARY);
    SameSelf(SEC_FETCH_SITE);
  }

  /** The line pushed lists exactly what was missing. */
  lemma MissingIsPushed(o: Out, gzipVaryOn: bool)
    ensures var p := NameEncoding(o, gzipVaryOn).0;
            p.headers != o.headers ==>
              && !gzipVaryOn && !Named(o.headers, ACCEPT_ENCODING)
              && p.headers == o.headers + [Header(1, VARY, ACCEPT_ENCODING)]
    ensures var p := NameDictionary(o).0;
            p.headers != o.headers ==>
              && var line := p.headers[|o.headers|];
              && p.headers == o.headers + [line] && line.hash == 1 && line.key == VARY
              && (Lists(line.value, AVAILABLE_DICTIONARY) <==> !Named(o.headers, AVAILABLE_DICTIONARY))
              && (Lists(line.value, SEC_FETCH_SITE) <==> !Named(o.headers, SEC_FETCH_SITE))
  {
    hide Named, Lists, SameName, Clean;
    TokensAreClean();
    OneMember(AVAILABLE_DICTIONARY, AVAILABLE_DICTIONARY);
    OneMember(AVAILABLE_DICTIONARY, SEC_FETCH_SITE);
    OneMember(SEC_FETCH_SITE, AVAILABLE_DICTIONARY);
    OneMember(SEC_FETCH_SITE, SEC_FETCH_SITE);
    BothMembers(AVAILABLE_DICTIONARY);
    BothMembers(SEC_FETCH_SITE);
    Distinct();
    SameSelf(AVAILABLE_DICTIONARY);
    SameSelf(SEC_FETCH_SITE);
  }

  lemma Distinct()
    ensures !SameName(AVAILABLE_DICTIONARY, SEC_FETCH_SITE) && !SameName(SEC_FETCH_SITE, AVAILABLE_DICTIONARY)
  {
  }

  /** A helper fails only for want of room for one more header. */
  lemma RoomSuffices(o: Out, gzipVaryOn: bool, wantDcz: bool)
    ensures o.room >= 1 ==> NameEncoding(o, gzipVaryOn).1 == OK && NameDictionary(o).1 == OK
    ensures o.room >= 2 ==> NamePair(o, gzipVaryOn, wantDcz).1 == OK
    ensures NameEncoding(o, gzipVaryOn).0.room + 1 >= o.room && NameDictionary(o).0.room + 1 >= o.room
  {
    hide Named;
  }

  /** After success, any of the helpers called again, in any order, pushes nothing. */
  lemma NothingTwice(o: Out, gzipVaryOn: bool, wantDcz: bool)
    requires NamePair(o, gzipVaryOn, wantDcz).1 == OK
    ensures var p := NamePair(o, gzipVaryOn, wantDcz).0;
            && NameEncoding(p, gzipVaryOn) == (p, OK)
            && (wantDcz ==> NameDictionary(p) == (p, OK))
            && NamePair(p, gzipVaryOn, wantDcz) == (p, OK)
  {
    hide Named, SameName;
    EncodingNames(o, gzipVaryOn, ACCEPT_ENCODING);
    DictionaryNames(NameEncoding(o, gzipVaryOn).0, ACCEPT_ENCODING);
  }

  /** ... and a dictionary line pushed alone is not repeated either, whatever is pushed after it. */
  lemma DictionaryNotTwice(o: Out, gzipVaryOn: bool)
    requires NameDictionary(o).1 == OK
    ensures NameDictionary(NameDictionary(o).0) == (NameDictionary(o).0, OK)
    ensures var q := NameEncoding(NameDictionary(o).0, gzipVaryOn).0; NameDictionary(q) == (q, OK)
  {
    hide Named, SameName;
    DictionaryNames(o, AVAILABLE_DICTIONARY);
    EncodingNames(NameDictionary(o).0, gzipVaryOn, AVAILABLE_DICTIONARY);
    EncodingNames(NameDictionary(o).0, gzipVaryOn, SEC_FETCH_SITE);
  }
}
