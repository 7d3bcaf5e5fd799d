/** The grammar of Accept-Encoding read forwards: what the parser makes of a field value written as sections 12.4.2
    and 12.5.3 of RFC 9110 say. */
module AcceptEncodingGrammar {
  import opened Basics
  import opened AcceptEncoding
  import opened AcceptEncodingJoin

  // ----- qvalue -----

  /** "0" and up to three digits after a dot, or "1" and up to three zeros after a dot. */
  predicate IsQvalue(v: Bytes) {
    && 1 <= |v| <= 5 && (v[0] == ZERO || v[0] == ONE) && (|v| > 1 ==> v[1] == DOT)
    && forall i :: 2 <= i < |v| ==> IsDigit(v[i]) && (v[0] == ONE ==> v[i] == ZERO)
  }

  function DigitAt(v: Bytes, i: nat): int {
    if i < |v| then v[i] - ZERO else 0
  }

  /** The weight a qvalue denotes, in thousandths. */
  function Thousandths(v: Bytes): (q: int)
    requires IsQvalue(v)
    ensures 0 <= q <= 1000
  {
    if v[0] == ONE then 1000 else 100 * DigitAt(v, 2) + 10 * DigitAt(v, 3) + DigitAt(v, 4)
  }

  predicate AllDigits(d: Bytes) {
    forall i :: 0 <= i < |d| ==> IsDigit(d[i])
  }

  /** What so many digits, worth `scale` and less, come to. */
  function Digits(d: Bytes, scale: nat): int {
    if d == [] then 0 else (d[0] - ZERO) * scale + Digits(d[1..], scale / 10)
  }

  /** How many digits fit under a scale. */
  function Places(scale: nat): nat {
    if scale == 0 then 0 else 1 + Places(scale / 10)
  }

  lemma {:induction false} FractionReads(d: Bytes, scale: nat, rest: Bytes)
    requires AllDigits(d) && |d| <= Places(scale) && (rest == [] || !IsDigit(rest[0]))
    ensures Fraction(d + rest, scale) == (Digits(d, scale), rest)
  {
    if d == [] {
      assert d + rest == rest;
    } else {
      assert (d + rest)[1..] == d[1..] + rest;
      FractionReads(d[1..], scale / 10, rest);
    }
  }

  lemma {:induction false} ZerosRead(d: Bytes, n: nat, rest: Bytes)
    requires (forall i :: 0 <= i < |d| ==> d[i] == ZERO) && |d| <= n && (rest == [] || rest[0] != ZERO)
    ensures SkipZeros(d + rest, n) == rest
  {
    if d == [] {
      assert d + rest == rest;
    } else {
      assert (d + rest)[1..] == d[1..] + rest;
      ZerosRead(d[1..], n - 1, rest);
    }
  }

  /** The fraction takes a run of digits, as many as fit. */
  lemma {:induction false} FractionTakes(t: Bytes, scale: nat)
    ensures var n := |t| - |Fraction(t, scale).1|;
            n <= Places(scale) && AllDigits(t[..n]) && Fraction(t, scale).1 == t[n..]
  {
    if scale != 0 && t != [] && IsDigit(t[0]) {
      FractionTakes(t[1..], scale / 10);
      var n := |t| - |Fraction(t, scale).1|;
      assert t[..n] == [t[0]] + t[1..][..n - 1];
    }
  }

  lemma {:induction false} ZerosTake(t: Bytes, n: nat)
    ensures var k := |t| - |SkipZeros(t, n)|;
            k <= n && SkipZeros(t, n) == t[k..] && forall i :: 0 <= i < k ==> t[i] == ZERO
  {
    if n != 0 && t != [] && t[0] == ZERO {
      ZerosTake(t[1..], n - 1);
      var k := |t| - |SkipZeros(t, n)|;
      assert forall i :: 1 <= i < k ==> t[i] == t[1..][i - 1];
    }
  }

  lemma ThreePlaces()
    ensures Places(100) == 3
  {
    assert Places(1) == 1 && Places(10) == 2;
  }

  lemma ThreeDigits(v: Bytes)
    requires IsQvalue(v) && |v| > 1
    ensures Digits(v[2..], 100) == 100 * DigitAt(v, 2) + 10 * DigitAt(v, 3) + DigitAt(v, 4)
  {
    DigitsStep(v, 2, 100);
    if |v| > 2 {
      DigitsStep(v, 3, 10);
      if |v| > 3 {
        DigitsStep(v, 4, 1);
      }
    }
  }

  lemma DigitsStep(v: Bytes, i: nat, scale: nat)
    requires i <= |v|
    ensures Digits(v[i..], scale) ==
              if i == |v| then 0 else DigitAt(v, i) * scale + Digits(v[i + 1..], scale / 10)
  {
    assert i < |v| ==> v[i..][1..] == v[i + 1..];
  }

  /** A qvalue with its end behind it is read as what it denotes. */
  lemma QvalueReads(v: Bytes, rest: Bytes)
    requires IsQvalue(v) && EndsQvalue(rest)
    ensures ReadQvalue(v + rest) == (Thousandths(v), rest)
  {
    var t := v + rest;
    if |v| == 1 {
      assert t[1..] == rest;
      assert rest != [] ==> t[1] == rest[0];
    } else {
      assert t[2..] == v[2..] + rest && t[1] == DOT;
      if v[0] == ZERO {
        ThreePlaces();
        ThreeDigits(v);
        FractionReads(v[2..], 100, rest);
      } else {
        ZerosRead(v[2..], 3, rest);
      }
    }
  }

  /** ... and nothing else is accepted: the reader and the check for the end behind it accept exactly the grammar. */
  lemma QvalueIsGrammar(t: Bytes)
    ensures ReadQvalue(t).0 >= 0 && EndsQvalue(ReadQvalue(t).1) <==>
              exists v, rest :: t == v + rest && IsQvalue(v) && EndsQvalue(rest)
    ensures forall v, rest :: t == v + rest && IsQvalue(v) && EndsQvalue(rest) ==>
              ReadQvalue(t) == (Thousandths(v), rest)
  {
    forall v, rest | t == v + rest && IsQvalue(v) && EndsQvalue(rest)
      ensures ReadQvalue(t) == (Thousandths(v), rest) && Thousandths(v) >= 0
    {
      QvalueReads(v, rest);
      assert IsDigit(ZERO);
    }
    if ReadQvalue(t).0 >= 0 && EndsQvalue(ReadQvalue(t).1) {
      QvalueTaken(t);
    }
  }

  lemma QvalueTaken(t: Bytes)
    requires ReadQvalue(t).0 >= 0
    ensures var rest := ReadQvalue(t).1; IsQvalue(t[..|t| - |rest|]) && t == t[..|t| - |rest|] + rest
  {
    var rest := ReadQvalue(t).1;
    var v := t[..|t| - |rest|];
    if |t| > 1 && t[1] == DOT {
      var tail := t[2..];
      if t[0] == ZERO {
        ThreePlaces();
        FractionTakes(tail, 100);
        assert forall i :: 2 <= i < |v| ==> v[i] == tail[..|tail| - |rest|][i - 2];
      } else {
        ZerosTake(tail, 3);
        assert forall i :: 2 <= i < |v| ==> v[i] == tail[i - 2];
      }
    }
  }

  // ----- the list -----

  /** One list element: a name, and perhaps a weight with the white space around its ';' and either case of "q". */
  datatype Item = Item(name: Bytes, before: Bytes, after: Bytes, upper: bool, weight: Option<Bytes>) {
    predicate Valid() {
      IsName(name) && AllWs(before) && AllWs(after) && (weight.Some? ==> IsQvalue(weight.value))
    }

    function Q(): byte {
      if upper then UPPER_Q else LOWER_Q
    }

    function Text(): Bytes {
      name + if weight.None? then [] else before + ([SEMI] + (after + ([Q(), EQUALS] + weight.value)))
    }

    function Weight(): (q: int)
      requires Valid()
      ensures 0 <= q <= 1000
    {
      if weight.None? then 1000 else Thousandths(weight.value)
    }
  }

  /** White space and commas: what stands between elements, and may stand at both ends. */
  predicate AllSeparators(s: Bytes) {
    forall i :: 0 <= i < |s| ==> IsWs(s[i]) || s[i] == COMMA
  }

  datatype Listed = Listed(separators: Bytes, item: Item)

  /** Elements need a comma between them; empty elements are allowed anywhere. */
  predicate WellFormed(l: seq<Listed>, end: Bytes) {
    && AllSeparators(end)
    && (forall k :: 0 <= k < |l| ==> l[k].item.Valid() && AllSeparators(l[k].separators))
    && (forall k :: 1 <= k < |l| ==> COMMA in l[k].separators)
  }

  function Print(l: seq<Listed>, end: Bytes): Bytes {
    if l == [] then end else l[0].separators + (l[0].item.Text() + Print(l[1..], end))
  }

  /** The weights a list states, the later ones over the earlier. */
  function Stated(l: seq<Listed>, w: Weights, coding: Bytes): Weights
    requires forall k :: 0 <= k < |l| ==> l[k].item.Valid()
  {
    if l == [] then w
    else Stated(l[1..], Record(w, l[0].item.name, true, l[0].item.Weight(), coding), coding)
  }

  lemma {:induction false} SeparatorsOver(s: Bytes, t: Bytes)
    requires AllSeparators(s)
    ensures SkipSeparators(s + t) == SkipSeparators(t)
  {
    if s == [] {
      assert s + t == t;
    } else {
      assert (s + t)[1..] == s[1..] + t;
      SeparatorsOver(s[1..], t);
    }
  }

  /** What follows an element: the end, or white space and then a comma or the end. */
  predicate Follows(t: Bytes) {
    EndsQvalue(t) && (t == [] || t[0] != SEMI) && (SkipWs(t) == [] || SkipWs(t)[0] == COMMA)
  }

  lemma {:induction false} SeparatorsFollow(s: Bytes, t: Bytes)
    requires AllSeparators(s) && (COMMA in s || t == [])
    ensures Follows(s + t)
  {
    if s == [] {
      assert s + t == [];
    } else if IsWs(s[0]) {
      assert (s + t)[1..] == s[1..] + t;
      SeparatorsFollow(s[1..], t);
    }
  }

  lemma {:induction false} WsThenSeparators(t: Bytes)
    ensures SkipSeparators(SkipWs(t)) == SkipSeparators(t)
  {
    if t != [] && IsWs(t[0]) {
      WsThenSeparators(t[1..]);
    }
  }

  /** The weight of one element. */
  lemma WeightReads(p: Item, tail: Bytes)
    requires p.Valid() && p.weight.Some? && Follows(tail)
    ensures var b := [SEMI] + (p.after + ([p.Q(), EQUALS] + (p.weight.value + tail)));
            EvalQvalue(b) == (p.Weight(), SkipWs(tail))
  {
    var v := p.weight.value + tail;
    var a := [p.Q(), EQUALS] + v;
    var b := [SEMI] + (p.after + a);
    assert b[1..] == p.after + a;
    WsOver(p.after, a);
    OneByteName(a);
    assert a[1..][1..] == v && !IsWs(v[0]);
    assert SkipWs(a[1..]) == a[1..] && SkipWs(v) == v;
    QvalueReads(p.weight.value, tail);
    assert ParamName(a) == [p.Q()] && IsQ([p.Q()]) && DQUOTE !in [p.Q()];
    assert p.Weight() >= 0;
    hide ReadQvalue, SkipWs, SkipParamName, ParamName, Thousandths;
    var r := ReadParam(StartParams(b));
    assert r == Params(p.Weight(), true, false, SkipWs(tail), false);
    assert ReadParams(StartParams(b)) == ReadParams(r) == r;
  }

  /** One element and what follows it. */
  lemma ItemReads(p: Item, tail: Bytes, w: Weights, coding: Bytes)
    requires p.Valid() && Follows(tail)
    ensures var e := p.Text() + tail;
            && e != [] && !IsWs(e[0]) && e[0] != COMMA
            && ReadElement(e, w, coding) == (Record(w, p.name, true, p.Weight(), coding), SkipWs(tail))
  {
    var e, end := p.Text() + tail, SkipWs(tail);
    assert e[0] == p.name[0];
    assert SkipElement(end) == end && EndsParam(end) && (end == [] || end[0] != SEMI);
    hide SkipElement, SkipCoding, SkipWs, EvalQvalue, Thousandths, Follows;
    if p.weight.None? {
      PlainText(p, tail);
    } else {
      WeightedText(p, tail);
      WeightReads(p, tail);
    }
  }

  lemma PlainText(p: Item, tail: Bytes)
    requires p.Valid() && p.weight.None? && Follows(tail)
    ensures SkipCoding(p.Text() + tail) == tail && CodingName(p.Text() + tail) == p.name
  {
    assert p.Text() + tail == p.name + tail;
    CodingOver(p.name, tail);
  }

  lemma WeightedText(p: Item, tail: Bytes)
    requires p.Valid() && p.weight.Some?
    ensures var b := [SEMI] + (p.after + ([p.Q(), EQUALS] + (p.weight.value + tail)));
            SkipWs(SkipCoding(p.Text() + tail)) == b && CodingName(p.Text() + tail) == p.name
  {
    var b := [SEMI] + (p.after + ([p.Q(), EQUALS] + (p.weight.value + tail)));
    assert p.Text() + tail == p.name + (p.before + b);
    assert p.before != [] ==> (p.before + b)[0] == p.before[0];
    assert p.before == [] ==> p.before + b == b;
    CodingOver(p.name, p.before + b);
    WsOver(p.before, b);
  }

  /** Every list written as the grammar says is read as the weights it states, whatever the white space, the empty
      elements and the case of "q". */
  lemma {:induction false} ListReads(l: seq<Listed>, end: Bytes, w: Weights, coding: Bytes)
    requires WellFormed(l, end)
    ensures Walk(Print(l, end), w, coding) == Stated(l, w, coding)
  {
    var t := Print(l, end);
    if l == [] {
      SeparatorsOver(end, []);
      assert end + [] == end;
    } else {
      var p, rest := l[0].item, l[1..];
      var tail := Print(rest, end);
      var e := p.Text() + tail;
      assert WellFormed(rest, end);
      PrintFollows(rest, end);
      SeparatorsOver(l[0].separators, e);
      ItemReads(p, tail, w, coding);
      assert SkipSeparators(e) == e;
      WsThenSeparators(tail);
      var w1 := Record(w, p.name, true, p.Weight(), coding);
      SameSeparators(SkipWs(tail), tail, w1, coding);
      hide ReadElement, Record;
      ListReads(rest, end, w1, coding);
    }
  }

  lemma PrintFollows(l: seq<Listed>, end: Bytes)
    requires WellFormed(l, end) && (l != [] ==> COMMA in l[0].separators)
    ensures Follows(Print(l, end))
  {
    if l == [] {
      SeparatorsFollow(end, []);
      assert end + [] == end;
    } else {
      SeparatorsFollow(l[0].separators, l[0].item.Text() + Print(l[1..], end));
    }
  }

  // ----- what a list is worth to one coding -----

  ghost predicate AllValid(l: seq<Listed>) {
    forall k :: 0 <= k < |l| ==> l[k].item.Valid()
  }

  /** The weight of the last element of that name, -1 if there is none. */
  function LastNamed(l: seq<Listed>, coding: Bytes): (q: int)
    requires AllValid(l)
    ensures -1 <= q <= 1000
  {
    if l == [] then -1
    else
      var p := l[|l| - 1].item;
      if SameName(p.name, coding) then p.Weight() else LastNamed(l[..|l| - 1], coding)
  }

  /** The weight of the last "*", -1 if there is none. */
  function LastStar(l: seq<Listed>): (q: int)
    requires AllValid(l)
    ensures -1 <= q <= 1000
  {
    if l == [] then -1
    else
      var p := l[|l| - 1].item;
      if p.name == ['*' as int] then p.Weight() else LastStar(l[..|l| - 1])
  }

  /** What the list says about a coding: its own weight, or else the wildcard's where that may stand in. */
  function Worth(l: seq<Listed>, coding: Bytes, allowWildcard: bool): int
    requires AllValid(l)
  {
    if LastNamed(l, coding) >= 0 then LastNamed(l, coding)
    else if allowWildcard then LastStar(l)
    else -1
  }

  lemma {:induction false} StatedSnoc(l: seq<Listed>, x: Listed, w: Weights, coding: Bytes)
    requires AllValid(l) && x.item.Valid()
    ensures Stated(l + [x], w, coding) == Record(Stated(l, w, coding), x.item.name, true, x.item.Weight(), coding)
  {
    hide Record;
    var all := l + [x];
    if l == [] {
      assert all[1..] == [];
    } else {
      assert all[1..] == l[1..] + [x];
      StatedSnoc(l[1..], x, Record(w, l[0].item.name, true, l[0].item.Weight(), coding), coding);
    }
  }

  lemma {:induction false} StatedIs(l: seq<Listed>, coding: Bytes)
    requires AllValid(l)
    ensures Stated(l, NONE, coding).coding == LastNamed(l, coding)
    ensures Stated(l, NONE, coding).star == if SameName([STAR], coding) then -1 else LastStar(l)
  {
    if l != [] {
      var front, x := l[..|l| - 1], l[|l| - 1];
      assert l == front + [x];
      StatedSnoc(front, x, NONE, coding);
      StatedIs(front, coding);
    }
  }

  /** Asked for "*" itself, there is no separate wildcard. */
  lemma {:induction false} StarIsNamed(l: seq<Listed>, coding: Bytes)
    requires AllValid(l) && SameName([STAR], coding) && LastNamed(l, coding) < 0
    ensures LastStar(l) == -1
  {
    if l != [] {
      StarIsNamed(l[..|l| - 1], coding);
    }
  }

  /** The weight returned for a well-formed list, for every coding and either wildcard setting. */
  lemma ListWeighs(l: seq<Listed>, end: Bytes, coding: Bytes, allowWildcard: bool)
    requires WellFormed(l, end)
    ensures CodingWeight(Print(l, end), coding, allowWildcard) == Worth(l, coding, allowWildcard)
  {
    ListReads(l, end, NONE, coding);
    StatedIs(l, coding);
    if SameName([STAR], coding) && LastNamed(l, coding) < 0 {
      StarIsNamed(l, coding);
    }
  }

  lemma {:induction false} LastOfBoth(a: seq<Listed>, b: seq<Listed>, coding: Bytes)
    requires AllValid(a) && AllValid(b)
    ensures AllValid(a + b)
    ensures LastNamed(a + b, coding) == if LastNamed(b, coding) >= 0 then LastNamed(b, coding) else LastNamed(a, coding)
    ensures LastStar(a + b) == if LastStar(b) >= 0 then LastStar(b) else LastStar(a)
  {
    if b == [] {
      assert a + b == a;
    } else {
      var front, x := b[..|b| - 1], b[|b| - 1];
      assert (a + b)[..|a + b| - 1] == a + front && (a + b)[|a + b| - 1] == x;
      assert x.item.Valid();
      LastOfBoth(a, front, coding);
    }
  }
}
