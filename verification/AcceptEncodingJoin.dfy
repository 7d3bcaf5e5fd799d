/** What joining field lines does to the Accept-Encoding walk: exactly when a line may be followed by others. */
module AcceptEncodingJoin {
  import opened Basics
  import opened AcceptEncoding
  import opened AcceptEncodingLaws

  // ----- the scans that know no quotes, on a longer value -----

  function More(u: Bytes): Bytes {
    [COMMA] + u
  }

  lemma {:induction false} WsMore(t: Bytes, u: Bytes)
    ensures SkipWs(t + More(u)) == SkipWs(t) + More(u)
  {
    if t == [] {
      assert t + More(u) == More(u);
    } else if IsWs(t[0]) {
      assert (t + More(u))[1..] == t[1..] + More(u);
      WsMore(t[1..], u);
    }
  }

  lemma {:induction false} ParamNameMore(t: Bytes, u: Bytes)
    ensures SkipParamName(t + More(u)) == SkipParamName(t) + More(u)
    ensures ParamName(t + More(u)) == ParamName(t)
  {
    if t == [] {
      assert t + More(u) == More(u);
    } else if !EndsParamName(t[0]) {
      assert (t + More(u))[1..] == t[1..] + More(u);
      ParamNameMore(t[1..], u);
    }
  }

  lemma {:induction false} CodingMore(t: Bytes, u: Bytes)
    ensures SkipCoding(t + More(u)) == SkipCoding(t) + More(u)
    ensures CodingName(t + More(u)) == CodingName(t)
  {
    if t == [] {
      assert t + More(u) == More(u);
    } else if !EndsCoding(t[0]) {
      assert (t + More(u))[1..] == t[1..] + More(u);
      CodingMore(t[1..], u);
    }
  }

  lemma {:induction false} FractionMore(t: Bytes, scale: nat, u: Bytes)
    ensures Fraction(t + More(u), scale) == (Fraction(t, scale).0, Fraction(t, scale).1 + More(u))
  {
    if t == [] {
      assert t + More(u) == More(u);
    } else if scale != 0 && IsDigit(t[0]) {
      assert (t + More(u))[1..] == t[1..] + More(u);
      FractionMore(t[1..], scale / 10, u);
    }
  }

  lemma {:induction false} ZerosMore(t: Bytes, n: nat, u: Bytes)
    ensures SkipZeros(t + More(u), n) == SkipZeros(t, n) + More(u)
  {
    if t == [] {
      assert t + More(u) == More(u);
    } else if n != 0 && t[0] == ZERO {
      assert (t + More(u))[1..] == t[1..] + More(u);
      ZerosMore(t[1..], n - 1, u);
    }
  }

  lemma QvalueMore(t: Bytes, u: Bytes)
    ensures ReadQvalue(t + More(u)) == (ReadQvalue(t).0, ReadQvalue(t).1 + More(u))
  {
    hide Fraction, SkipZeros;
    var x := t + More(u);
    if t == [] {
      assert x == More(u);
    } else {
      assert x[1..] == t[1..] + More(u);
      if |t| > 1 {
        assert x[2..] == t[2..] + More(u);
        FractionMore(t[2..], 100, u);
        ZerosMore(t[2..], 3, u);
      }
    }
  }

  lemma EndsMore(t: Bytes, u: Bytes)
    ensures EndsParam(t + More(u)) == EndsParam(t) && EndsQvalue(t + More(u)) == EndsQvalue(t)
    ensures t != [] ==> (t + More(u))[0] == t[0] && (t + More(u))[1..] == t[1..] + More(u)
    ensures t == [] ==> (t + More(u))[0] == COMMA
  {
  }

  lemma FinishMore(w: Params, t: Bytes, u: Bytes)
    ensures FinishParam(w, t + More(u)) == FinishParam(w, t).(rest := FinishParam(w, t).rest + More(u))
  {
    WsMore(t, u);
    EndsMore(SkipWs(t), u);
  }

  // ----- the parameter walk on a longer value -----

  /** The quoted-strings that a parameter value opens are closed within `t`. */
  predicate ValueCloses(t: Bytes)
    decreases |t|
  {
    if t == [] || t[0] == COMMA || t[0] == SEMI then true
    else if t[0] == DQUOTE then Terminated(t[1..]) && ValueCloses(Unquote(t[1..]))
    else ValueCloses(t[1..])
  }

  /** An open quoted-string swallows the comma and goes on in `u`. */
  lemma {:induction false} OpenUnquote(t: Bytes, u: Bytes)
    requires !Terminated(t)
    ensures Unquote(t) == [] && Unquote(t + More(u)) == Unquote(u)
    decreases |t|
  {
    var x := t + More(u);
    if t == [] {
      assert x == More(u) && x[1..] == u;
    } else if t[0] == BACKSLASH && |t| > 1 {
      assert x[2..] == t[2..] + More(u);
      OpenUnquote(t[2..], u);
    } else if t[0] == BACKSLASH {
      assert x[2..] == u;
    } else {
      assert x[1..] == t[1..] + More(u);
      OpenUnquote(t[1..], u);
    }
  }

  lemma {:induction false} ValueMore(t: Bytes, u: Bytes)
    ensures ValueCloses(t) ==> SkipValue(t + More(u)) == SkipValue(t) + More(u)
    ensures !ValueCloses(t) ==> SkipValue(t) == [] && SkipValue(t + More(u)) == SkipValue(Unquote(u))
    decreases |t|
  {
    var x := t + More(u);
    if t == [] {
      assert x == More(u);
    } else if t[0] == COMMA || t[0] == SEMI {
    } else if t[0] == DQUOTE {
      assert x[1..] == t[1..] + More(u);
      if Terminated(t[1..]) {
        UnquoteExt(t[1..], More(u));
        ValueMore(Unquote(t[1..]), u);
      } else {
        OpenUnquote(t[1..], u);
      }
    } else {
      assert x[1..] == t[1..] + More(u);
      ValueMore(t[1..], u);
    }
  }

  /** Where a walk stands at the end of its value: outside quotes, or inside a quoted-string that a parameter value
      opened, with `v` what the parameters before it came to. */
  datatype Tip = Shut | Open(v: Params)

  function NameTip(v: Params, name: Bytes, t: Bytes): Tip {
    var b := SkipWs(t);
    if name != [] && b != [] && b[0] == EQUALS && !IsQ(name) && !ValueCloses(SkipWs(b[1..])) then Open(v) else Shut
  }

  /** A parameter after its name is split off. */
  function Named(w: Params, t: Bytes): Params {
    w.(quoted := w.quoted || DQUOTE in ParamName(t), rest := [])
  }

  function ParamTip(w: Params): (r: Tip)
    requires w.rest != [] && w.rest[0] == SEMI
    ensures r.Open? ==> r.v.q == w.q && r.v.qSeen == w.qSeen && r.v.bad == w.bad
  {
    var t := SkipWs(w.rest[1..]);
    NameTip(Named(w, t), ParamName(t), SkipParamName(t))
  }

  function ParamsTip(w: Params): (r: Tip)
    requires -1 <= w.q <= 1000
    ensures r.Open? ==> -1 <= r.v.q <= 1000
    decreases |w.rest|
  {
    if w.bad || w.rest == [] || w.rest[0] != SEMI then Shut
    else if ParamTip(w).Open? then ParamTip(w)
    else ParamsTip(ReadParam(w))
  }

  /** A walk that stood inside a quoted-string, resumed in what follows the comma. */
  function Resumed(v: Params, u: Bytes): Params
    requires -1 <= v.q <= 1000
  {
    ReadParams(FinishParam(v, SkipValue(Unquote(u))))
  }

  lemma AfterNameMore(v: Params, name: Bytes, t: Bytes, u: Bytes)
    requires -1 <= v.q <= 1000
    ensures var r := AfterName(v, name, t);
            if NameTip(v, name, t).Open?
            then r == FinishParam(v, []) && AfterName(v, name, t + More(u)) == FinishParam(v, SkipValue(Unquote(u)))
            else AfterName(v, name, t + More(u)) == r.(rest := r.rest + More(u))
  {
    hide SkipValue, ReadQvalue, FinishParam, SkipWs, ValueCloses, Unquote, EndsQvalue, EndsParam;
    WsMore(t, u);
    var b := SkipWs(t);
    EndsMore(b, u);
    if b != [] && b[0] == EQUALS {
      WsMore(b[1..], u);
      var value := SkipWs(b[1..]);
      if IsQ(name) {
        QvalueMore(value, u);
        var (q, rest) := ReadQvalue(value);
        EndsMore(rest, u);
        FinishMore(v.(q := q, qSeen := true), rest, u);
      } else {
        ValueMore(value, u);
        FinishMore(v, SkipValue(value), u);
      }
    } else {
      FinishMore(v, b, u);
    }
  }

  lemma ParamMore(w: Params, u: Bytes)
    requires w.rest != [] && w.rest[0] == SEMI && -1 <= w.q <= 1000
    ensures var x := w.(rest := w.rest + More(u));
            && x.rest != [] && x.rest[0] == SEMI
            && match ParamTip(w)
               case Open(v) => ReadParam(w) == FinishParam(v, [])
                               && ReadParam(x) == FinishParam(v, SkipValue(Unquote(u)))
               case Shut => ReadParam(x) == ReadParam(w).(rest := ReadParam(w).rest + More(u))
  {
    hide AfterName, NameTip, SkipWs, SkipParamName, ParamName, FinishParam, SkipValue, Unquote;
    EndsMore(w.rest, u);
    WsMore(w.rest[1..], u);
    var t := SkipWs(w.rest[1..]);
    ParamNameMore(t, u);
    AfterNameMore(Named(w, t), ParamName(t), SkipParamName(t), u);
    assert NameTip(Named(w, t), ParamName(t), SkipParamName(t)).Open? ==>
        NameTip(Named(w, t), ParamName(t), SkipParamName(t)).v == Named(w, t) by {
      TipIs(Named(w, t), ParamName(t), SkipParamName(t));
    }
  }

  lemma TipIs(v: Params, name: Bytes, t: Bytes)
    ensures NameTip(v, name, t).Open? ==> NameTip(v, name, t).v == v
  {
  }

  /** The whole walk: unmoved if it was outside quotes, and otherwise resumed in `u`. */
  lemma {:induction false} ParamsMore(w: Params, u: Bytes)
    requires -1 <= w.q <= 1000
    ensures var x := w.(rest := w.rest + More(u));
            match ParamsTip(w)
            case Open(v) => ReadParams(w) == FinishParam(v, []) && ReadParams(x) == Resumed(v, u)
            case Shut => ReadParams(x) == ReadParams(w).(rest := ReadParams(w).rest + More(u))
    decreases |w.rest|
  {
    EndsMore(w.rest, u);
    if !(w.bad || w.rest == [] || w.rest[0] != SEMI) {
      hide ReadParam, ParamTip;
      ParamMore(w, u);
      if ParamTip(w).Open? {
        NothingAfter(ParamTip(w).v);
      } else {
        ParamsMore(ReadParam(w), u);
      }
    }
  }

  lemma NothingAfter(v: Params)
    requires -1 <= v.q <= 1000
    ensures ReadParams(FinishParam(v, [])) == FinishParam(v, []) == v.(rest := [], bad := false)
  {
  }

  // ----- what the text after a comma can do to an open walk -----

  /** Every open walk of a line meets the same fate: it keeps its weight, it turns malformed, or it reads a weight,
      which is malformed if it had one already. */
  datatype Fate = Kept | Dropped | Weighed(q: int)

  function FateOf(u: Bytes): Fate {
    var r := Resumed(StartParams([]), u);
    if r.bad then Dropped else if r.qSeen then Weighed(r.q) else Kept
  }

  function FateWeight(v: Params, f: Fate): int {
    match f
    case Kept => v.q
    case Dropped => -1
    case Weighed(q) => if v.qSeen then -1 else q
  }

  lemma {:induction false} SameWalk(a: Params, b: Params)
    requires b == a.(quoted := b.quoted) && -1 <= a.q <= 1000
    ensures ReadParams(b) == ReadParams(a).(quoted := ReadParams(b).quoted)
    decreases |a.rest|
  {
    if !(a.bad || a.rest == [] || a.rest[0] != SEMI) {
      SameWalk(ReadParam(a), ReadParam(b));
    }
  }

  lemma {:induction false} SeenStays(w: Params)
    requires -1 <= w.q <= 1000
    ensures w.qSeen ==> ReadParams(w).qSeen
    decreases |w.rest|
  {
    if !(w.bad || w.rest == [] || w.rest[0] != SEMI) {
      SeenStays(ReadParam(w));
    }
  }

  lemma StepAlike(a: Params, b: Params)
    requires a.rest == b.rest && a.bad == b.bad && !a.qSeen && -1 <= a.q <= 1000 && -1 <= b.q <= 1000
    requires a.rest != [] && a.rest[0] == SEMI
    ensures var x, y := ReadParam(a), ReadParam(b);
            && (!x.qSeen ==> y == x.(q := b.q, qSeen := b.qSeen, quoted := y.quoted) && x.q == a.q)
            && (x.qSeen && b.qSeen ==> y.bad)
            && (x.qSeen && !b.qSeen ==> y == x.(quoted := y.quoted))
  {
    hide SkipWs, SkipParamName, ParamName, SkipValue, ReadQvalue;
  }

  /** Two walks over the same text differ only by the weight they start with and by whether it was seen. */
  lemma {:induction false} WalksAlike(a: Params, b: Params)
    requires a.rest == b.rest && a.bad == b.bad && !a.qSeen && -1 <= a.q <= 1000 && -1 <= b.q <= 1000
    ensures var x, y := ReadParams(a), ReadParams(b);
            && (b.qSeen ==> (y.bad <==> x.bad || x.qSeen) && (!y.bad ==> y.q == b.q))
            && (!b.qSeen ==> y.bad == x.bad && (!y.bad ==> y.q == if x.qSeen then x.q else b.q))
    decreases |a.rest|
  {
    if !(a.bad || a.rest == [] || a.rest[0] != SEMI) {
      hide ReadParam;
      StepAlike(a, b);
      var x, y := ReadParam(a), ReadParam(b);
      if !x.qSeen {
        WalksAlike(x, y);
      } else {
        SeenStays(x);
        if !b.qSeen {
          SameWalk(x, y);
        }
      }
    }
  }

  lemma ResumedWeight(v: Params, u: Bytes)
    requires -1 <= v.q <= 1000
    ensures var r := Resumed(v, u); (if r.bad then -1 else r.q) == FateWeight(v, FateOf(u))
  {
    hide ReadParams;
    WalksAlike(FinishParam(StartParams([]), SkipValue(Unquote(u))), FinishParam(v, SkipValue(Unquote(u))));
  }

  // ----- one element on a longer value -----

  function ParamsAt(e: Bytes): Bytes {
    SkipWs(SkipCoding(e))
  }

  function ElementTip(e: Bytes): (r: Tip)
    ensures r.Open? ==> -1 <= r.v.q <= 1000
  {
    var b := ParamsAt(e);
    if b != [] && b[0] == SEMI then ParamsTip(StartParams(b)) else Shut
  }

  /** The weight an element records, -1 for none, when its walk meets the fate `f` if it is open. */
  function ElementWeight(e: Bytes, f: Fate): int {
    var b := ParamsAt(e);
    match ElementTip(e)
    case Open(v) => FateWeight(v, f)
    case Shut => if b != [] && b[0] == SEMI then EvalQvalue(b).0 else 1000
  }

  function RecordWith(e: Bytes, w: Weights, coding: Bytes, f: Fate): Weights {
    Record(w, CodingName(e), EndsParam(ParamsAt(e)), ElementWeight(e, f), coding)
  }

  /** Appending a comma and `u` leaves a shut element alone, and gives an open one the fate that `u` decides. */
  lemma ElementMore(e: Bytes, w: Weights, coding: Bytes, u: Bytes)
    requires e != [] && !IsWs(e[0]) && e[0] != COMMA
    ensures ReadElement(e + More(u), w, coding).0 == RecordWith(e, w, coding, FateOf(u))
    ensures ReadElement(e, w, coding).0 == RecordWith(e, w, coding, Kept)
  {
    hide ReadParams, ParamsTip, SkipWs, SkipCoding, CodingName, FateOf, Resumed;
    CodingMore(e, u);
    WsMore(SkipCoding(e), u);
    var b := ParamsAt(e);
    EndsMore(b, u);
    EndsMore(e, u);
    if b != [] && b[0] == SEMI {
      ParamsMore(StartParams(b), u);
      match ParamsTip(StartParams(b)) {
        case Open(v) =>
          ResumedWeight(v, u);
          NothingAfter(v);
        case Shut =>
      }
    }
  }

  // ----- texts that decide a fate -----

  /** "*;q=0" or "*;q=1". */
  function StarText(x: nat): Bytes
    requires x <= 1
  {
    [STAR] + WeightParam(x)
  }

  /** A text that closes an open quoted-string, goes on with the parameters `mid`, opens a quoted-string of its own
      over them and ends it, and then weighs the wildcard. */
  function Closing(mid: Bytes, x: nat): Bytes
    requires x <= 1
  {
    [DQUOTE] + mid + [DQUOTE, COMMA] + StarText(x)
  }

  /** `;;`, and `;q=0` or `;q=1` with and without a ';' after it. */
  const MALFORMED: Bytes := [SEMI, SEMI]

  function WeightParam(d: nat): Bytes
    requires d <= 1
  {
    [SEMI, LOWER_Q, EQUALS, ZERO + d]
  }

  function Weighing(d: nat): Bytes
    requires d <= 1
  {
    WeightParam(d) + [SEMI]
  }

  lemma StartOf(u: Bytes, tail: Bytes)
    requires u != [] && u[0] == DQUOTE && u[1..] == tail && tail != [] && tail[0] == SEMI
    ensures Resumed(StartParams([]), u) == ReadParams(StartParams(tail))
  {
    hide ReadParams;
    assert Unquote(u) == tail;
    assert SkipValue(tail) == tail;
    assert SkipWs(tail) == tail;
  }

  lemma MalformedDrops(x: nat)
    requires x <= 1
    ensures FateOf(Closing(MALFORMED, x)) == Dropped
  {
    var u := Closing(MALFORMED, x);
    var tail := u[1..];
    assert tail[0] == SEMI && tail[1] == SEMI;
    StartOf(u, tail);
    var t := tail[1..];
    assert SkipWs(t) == t && SkipParamName(t) == t && ParamName(t) == [];
    assert ReadParam(StartParams(tail)).bad;
  }

  lemma WeighingWeighs(d: nat, x: nat)
    requires d <= 1 && x <= 1
    ensures FateOf(Closing(Weighing(d), x)) == Weighed(1000 * d)
  {
    var u := Closing(Weighing(d), x);
    var tail := u[1..];
    StartOf(u, tail);
    var w := ReadParam(StartParams(tail));
    ReadsWeight(tail, d);
    var rest := tail[4..];
    assert rest[0] == SEMI && rest[1] == DQUOTE && rest[2] == COMMA;
    QuoteNameRead(w);
    assert ReadParams(ReadParam(w)) == ReadParam(w);
  }

  /** `;q=0` or `;q=1` in front of a ';'. */
  lemma ReadsWeight(t: Bytes, d: nat)
    requires d <= 1 && |t| > 4 && t[..4] == WeightParam(d) && t[4] == SEMI
    ensures ReadParam(StartParams(t)) == Params(1000 * d, true, false, t[4..], false)
  {
    var a := t[1..];
    assert a[0] == LOWER_Q && a[1] == EQUALS && a[1..] == t[2..] && t[2..][1..] == t[3..];
    assert SkipWs(a) == a;
    OneByteName(a);
    assert SkipWs(t[2..]) == t[2..] && SkipWs(t[3..]) == t[3..];
    var value := t[3..];
    assert value[0] == ZERO + d && value[1] == SEMI && value[1..] == t[4..];
    assert ReadQvalue(value) == (1000 * d, t[4..]);
    assert SkipWs(t[4..]) == t[4..];
  }

  lemma OneByteName(a: Bytes)
    requires |a| > 1 && !EndsParamName(a[0]) && EndsParamName(a[1])
    ensures SkipParamName(a) == a[1..] && ParamName(a) == [a[0]]
  {
    assert SkipParamName(a[1..]) == a[1..];
  }

  /** `;"` in front of a comma: a parameter of that name and no value. */
  lemma QuoteNameRead(w: Params)
    requires |w.rest| > 2 && w.rest[0] == SEMI && w.rest[1] == DQUOTE && w.rest[2] == COMMA && -1 <= w.q <= 1000
    ensures ReadParam(w) == w.(quoted := true, rest := w.rest[2..], bad := false)
  {
    var a := w.rest[1..];
    assert a[0] == DQUOTE && a[1] == COMMA && a[1..] == w.rest[2..];
    assert SkipWs(a) == a;
    OneByteName(a);
    assert SkipWs(w.rest[2..]) == w.rest[2..];
  }

  /** Read on its own, such a text records nothing but the wildcard's weight. */
  lemma ClosingRecords(mid: Bytes, x: nat, w: Weights, coding: Bytes)
    requires x <= 1 && DQUOTE !in mid && BACKSLASH !in mid && !SameName([STAR], coding)
    ensures Walk(Closing(mid, x), w, coding) == w.(star := 1000 * x)
  {
    var u := Closing(mid, x);
    var s := StarText(x);
    assert u == [DQUOTE] + (mid + ([DQUOTE, COMMA] + s));
    assert u[1..] == mid + ([DQUOTE, COMMA] + s);
    UnquoteOver(mid, [COMMA] + s);
    assert [DQUOTE] + ([COMMA] + s) == [DQUOTE, COMMA] + s;
    assert SkipElement(u) == [COMMA] + s;
    assert SkipCoding(u) == u && SkipWs(u) == u;
    assert ReadElement(u, w, coding) == (w, [COMMA] + s);
    assert ([COMMA] + s)[1..] == s;
    assert SkipSeparators([COMMA] + s) == s;
    StarRecords(x, w, coding);
  }

  lemma {:induction false} UnquoteOver(mid: Bytes, tail: Bytes)
    requires DQUOTE !in mid && BACKSLASH !in mid
    ensures Unquote(mid + ([DQUOTE] + tail)) == tail
  {
    if mid == [] {
      assert mid + ([DQUOTE] + tail) == [DQUOTE] + tail;
    } else {
      assert (mid + ([DQUOTE] + tail))[1..] == mid[1..] + ([DQUOTE] + tail);
      UnquoteOver(mid[1..], tail);
    }
  }

  lemma StarRecords(x: nat, w: Weights, coding: Bytes)
    requires x <= 1 && !SameName([STAR], coding)
    ensures Walk(StarText(x), w, coding) == w.(star := 1000 * x)
  {
    NameAndWeight([STAR], x, w, coding);
  }

  /** "name;q=0" or "name;q=1", for any name that is one. */
  lemma NameAndWeight(name: Bytes, x: nat, w: Weights, coding: Bytes)
    requires x <= 1 && IsName(name)
    ensures Walk(name + WeightParam(x), w, coding) == Record(w, name, true, 1000 * x, coding)
  {
    var b := WeightParam(x);
    var e := name + b;
    CodingOver(name, b);
    assert SkipWs(b) == b;
    LastWeight(b, x);
    assert EvalQvalue(b) == (1000 * x, []);
    assert SkipElement([]) == [];
    assert ReadElement(e, w, coding) == (Record(w, name, true, 1000 * x, coding), []);
  }

  lemma LastWeight(b: Bytes, x: nat)
    requires x <= 1 && b == WeightParam(x)
    ensures ReadParams(StartParams(b)) == Params(1000 * x, true, false, [], false)
  {
    var a := b[1..];
    assert a == [LOWER_Q, EQUALS, ZERO + x] && a[1..] == [EQUALS, ZERO + x] && a[1..][1..] == [ZERO + x];
    assert SkipWs(a) == a;
    OneByteName(a);
    assert SkipWs(a[1..]) == a[1..] && SkipWs([ZERO + x]) == [ZERO + x];
    assert ReadQvalue([ZERO + x]) == (1000 * x, []);
    assert ReadParam(StartParams(b)) == Params(1000 * x, true, false, [], false);
  }

  /** A coding's name as an element can spell it. */
  predicate IsName(name: Bytes) {
    name != [] && forall i :: 0 <= i < |name| ==> !EndsCoding(name[i])
  }

  lemma {:induction false} CodingOver(name: Bytes, b: Bytes)
    requires (forall i :: 0 <= i < |name| ==> !EndsCoding(name[i])) && (b == [] || EndsCoding(b[0]))
    ensures SkipCoding(name + b) == b && CodingName(name + b) == name
  {
    if name == [] {
      assert name + b == b;
    } else {
      assert (name + b)[1..] == name[1..] + b;
      CodingOver(name[1..], b);
    }
  }

  /** An open element would record its weight. */
  lemma OpenIsClean(e: Bytes)
    requires ElementTip(e).Open?
    ensures EndsParam(ParamsAt(e)) && ElementTip(e).v.q >= 0
  {
    OpenWeight(StartParams(ParamsAt(e)));
  }

  lemma {:induction false} OpenWeight(w: Params)
    requires 0 <= w.q <= 1000
    ensures ParamsTip(w).Open? ==> ParamsTip(w).v.q >= 0
    decreases |w.rest|
  {
    if !(w.bad || w.rest == [] || w.rest[0] != SEMI) {
      WeightStays(w);
      if ReadParam(w).q >= 0 {
        OpenWeight(ReadParam(w));
      }
    }
  }

  lemma WeightStays(w: Params)
    requires 0 <= w.q <= 1000 && w.rest != [] && w.rest[0] == SEMI
    ensures ReadParam(w).q >= 0
  {
    hide SkipWs, SkipParamName, ParamName, SkipValue, ReadQvalue;
  }

  /** The per-element condition, exactly: whatever follows the comma, whatever was recorded before and whichever the
      coding, what an element records is untouched if and only if its parameter walk ends outside quotes. */
  lemma ShutIsExact(e: Bytes)
    requires e != [] && !IsWs(e[0]) && e[0] != COMMA
    ensures ElementTip(e) == Shut <==>
              forall u: Bytes, w: Weights, coding: Bytes ::
                ReadElement(e + More(u), w, coding).0 == ReadElement(e, w, coding).0
  {
    if ElementTip(e) == Shut {
      forall u: Bytes, w: Weights, coding: Bytes
        ensures ReadElement(e + More(u), w, coding).0 == ReadElement(e, w, coding).0
      {
        ElementMore(e, w, coding, u);
      }
    } else {
      MalformedDrops(0);
      ElementMore(e, NONE, CodingName(e), Closing(MALFORMED, 0));
      OpenIsClean(e);
      assert ReadElement(e + More(Closing(MALFORMED, 0)), NONE, CodingName(e)).0 != ReadElement(e, NONE, CodingName(e)).0;
    }
  }

  // ----- a whole line, followed by more -----

  /** The walk of a line in which every open element meets the fate `f`. */
  function WalkWith(t: Bytes, w: Weights, coding: Bytes, f: Fate): Weights
    decreases |t|
  {
    var e := SkipSeparators(t);
    if e == [] then w else WalkWith(SkipElement(e), RecordWith(e, w, coding, f), coding, f)
  }

  lemma {:induction false} KeptWalk(t: Bytes, w: Weights, coding: Bytes)
    ensures WalkWith(t, w, coding, Kept) == Walk(t, w, coding)
    decreases |t|
  {
    hide RecordWith, ReadElement;
    var e := SkipSeparators(t);
    if e != [] {
      ElementMore(e, w, coding, []);
      ElementEndsAtComma(e, w, coding);
      KeptWalk(SkipElement(e), RecordWith(e, w, coding, Kept), coding);
    }
  }

  /** A closed line is read on its own, but for the fate of its open elements, and what follows it after it. */
  lemma {:induction false} WalkMore(t: Bytes, w: Weights, coding: Bytes, u: Bytes)
    requires Closed(t)
    ensures Walk(t + More(u), w, coding) == Walk(u, WalkWith(t, w, coding, FateOf(u)), coding)
    decreases |t|
  {
    hide RecordWith, ReadElement, FateOf, Closed;
    assert State(t, true, u) && t + More(u) == Ext(t, true, u);
    SeparatorsExt(t, true, u);
    var e := SkipSeparators(t);
    if e == [] {
      SameSeparators(t + More(u), u, w, coding);
    } else {
      var x := e + More(u);
      assert SkipSeparators(t + More(u)) == x && x[0] == e[0];
      ElementMore(e, w, coding, u);
      ElementEndsAtComma(x, w, coding);
      ElementExt(e, true, u);
      assert Ext(e, true, u) == x;
      WalkMore(SkipElement(e), RecordWith(e, w, coding, FateOf(u)), coding, u);
    }
  }

  lemma SameSeparators(a: Bytes, b: Bytes, w: Weights, coding: Bytes)
    requires SkipSeparators(a) == SkipSeparators(b)
    ensures Walk(a, w, coding) == Walk(b, w, coding)
  {
  }

  /** An unclosed line swallows what follows it, if that has no DQUOTE. */
  lemma {:induction false} WalkSwallows(t: Bytes, w: Weights, coding: Bytes, u: Bytes)
    requires !Closed(t) && DQUOTE !in u
    ensures Walk(t + More(u), w, coding) == Walk(t, w, coding)
    decreases |t|
  {
    hide RecordWith, ReadElement, FateOf;
    assert t != [] && State(t, false, u) && t + More(u) == Ext(t, false, u);
    SeparatorsExt(t, false, u);
    var e := SkipSeparators(t);
    var x := e + More(u);
    assert SkipSeparators(t + More(u)) == x && x[0] == e[0];
    NoQuoteKeeps(u);
    ElementMore(e, w, coding, u);
    ElementEndsAtComma(x, w, coding);
    ElementEndsAtComma(e, w, coding);
    ElementExt(e, false, u);
    var rest := SkipElement(e);
    if rest != [] {
      WalkSwallows(rest, RecordWith(e, w, coding, Kept), coding, u);
    }
  }

  lemma NoQuoteKeeps(u: Bytes)
    requires DQUOTE !in u
    ensures FateOf(u) == Kept
  {
    NoQuoteUnquote(u);
    assert SkipValue([]) == [];
  }

  /** Weights seen later override those seen earlier. */
  function Over(w: Weights, later: Weights): Weights {
    Weights(if later.coding >= 0 then later.coding else w.coding, if later.star >= 0 then later.star else w.star)
  }

  lemma {:induction false} WalkWithOver(t: Bytes, w: Weights, coding: Bytes, f: Fate)
    requires -1 <= w.coding && -1 <= w.star
    ensures WalkWith(t, w, coding, f) == Over(w, WalkWith(t, NONE, coding, f))
    ensures -1 <= WalkWith(t, w, coding, f).coding && -1 <= WalkWith(t, w, coding, f).star
    decreases |t|
  {
    hide ElementWeight;
    var e := SkipSeparators(t);
    if e != [] {
      var rest := SkipElement(e);
      WalkWithOver(rest, RecordWith(e, w, coding, f), coding, f);
      WalkWithOver(rest, RecordWith(e, NONE, coding, f), coding, f);
    }
  }

  /** As good as the same: equal weights of the coding, and of the wildcard where that can still decide. */
  predicate SameSeen(a: Weights, b: Weights, allowWildcard: bool) {
    a.coding == b.coding && (allowWildcard && b.coding < 0 ==> a.star == b.star)
  }

  /** No fate of its open elements changes what a line says about a coding. Three fates decide this. */
  predicate Steady(t: Bytes, coding: Bytes, allowWildcard: bool) {
    var here := Walk(t, NONE, coding);
    && SameSeen(WalkWith(t, NONE, coding, Dropped), here, allowWildcard)
    && SameSeen(WalkWith(t, NONE, coding, Weighed(0)), here, allowWildcard)
    && SameSeen(WalkWith(t, NONE, coding, Weighed(1000)), here, allowWildcard)
  }

  /** A weight under the fates Weighed(0), Weighed(1000), Weighed(q) and Dropped: read by an open element that had
      none before, or untouched by all of them. */
  ghost predicate Settled(zero: int, thousand: int, other: int, dropped: int, q: int) {
    (zero == 0 && thousand == 1000 && other == q) || (zero == thousand == other == dropped)
  }

  lemma {:induction false} FatesAgree(t: Bytes, a: Weights, b: Weights, x: Weights, d: Weights, coding: Bytes, q: int)
    requires q >= 0 && Settled(a.coding, b.coding, x.coding, d.coding, q) && Settled(a.star, b.star, x.star, d.star, q)
    ensures var a1, b1 := WalkWith(t, a, coding, Weighed(0)), WalkWith(t, b, coding, Weighed(1000));
            var x1, d1 := WalkWith(t, x, coding, Weighed(q)), WalkWith(t, d, coding, Dropped);
            && Settled(a1.coding, b1.coding, x1.coding, d1.coding, q)
            && Settled(a1.star, b1.star, x1.star, d1.star, q)
    decreases |t|
  {
    hide ElementTip;
    var e := SkipSeparators(t);
    if e != [] {
      FatesAgree(SkipElement(e), RecordWith(e, a, coding, Weighed(0)), RecordWith(e, b, coding, Weighed(1000)),
                 RecordWith(e, x, coding, Weighed(q)), RecordWith(e, d, coding, Dropped), coding, q);
    }
  }

  lemma SteadyAlways(t: Bytes, coding: Bytes, allowWildcard: bool, u: Bytes)
    requires Steady(t, coding, allowWildcard)
    ensures SameSeen(WalkWith(t, NONE, coding, FateOf(u)), Walk(t, NONE, coding), allowWildcard)
  {
    hide WalkWith, Walk, FateOf;
    match FateOf(u)
    case Kept => KeptWalk(t, NONE, coding);
    case Dropped =>
    case Weighed(q) =>
      SeenWeight(u);
      FatesAgree(t, NONE, NONE, NONE, NONE, coding, q);
  }

  lemma SeenWeight(u: Bytes)
    ensures FateOf(u).Weighed? ==> FateOf(u).q >= 0
  {
    var w := FinishParam(StartParams([]), SkipValue(Unquote(u)));
    WeightNotLost(w);
  }

  lemma {:induction false} WeightNotLost(w: Params)
    requires 0 <= w.q <= 1000
    ensures ReadParams(w).q >= 0
    decreases |w.rest|
  {
    if !(w.bad || w.rest == [] || w.rest[0] != SEMI) {
      WeightStays(w);
      WeightNotLost(ReadParam(w));
    }
  }

  // ----- lines all of whose elements are shut -----

  /** Every parameter walk of the line ends outside quotes. */
  predicate AllShut(t: Bytes)
    decreases |t|
  {
    var e := SkipSeparators(t);
    e == [] || (ElementTip(e).Shut? && AllShut(SkipElement(e)))
  }

  lemma {:induction false} ShutSteady(t: Bytes, w: Weights, coding: Bytes, f: Fate)
    requires AllShut(t)
    ensures WalkWith(t, w, coding, f) == Walk(t, w, coding)
    decreases |t|
  {
    hide ElementTip, ReadElement;
    var e := SkipSeparators(t);
    if e != [] {
      ElementMore(e, w, coding, []);
      ElementEndsAtComma(e, w, coding);
      ShutSteady(SkipElement(e), RecordWith(e, w, coding, Kept), coding, f);
    }
  }

  lemma {:induction false} ValueInPhase(t: Bytes)
    ensures Closed(t) ==> ValueCloses(t)
    decreases |t|
  {
    if t == [] || t[0] == COMMA || t[0] == SEMI {
    } else if t[0] == DQUOTE {
      ValueInPhase(Unquote(t[1..]));
    } else {
      ValueInPhase(t[1..]);
    }
  }

  lemma NameInPhase(v: Params, name: Bytes, t: Bytes)
    requires Closed(t)
    ensures NameTip(v, name, t) == Shut
  {
    hide ValueCloses;
    var b := SkipWs(t);
    WsPlain(t);
    PlainLaw(t, b);
    if b != [] && b[0] == EQUALS {
      WsPlain(b[1..]);
      PlainLaw(b[1..], SkipWs(b[1..]));
      ValueInPhase(SkipWs(b[1..]));
    }
  }

  lemma ParamInPhase(w: Params)
    requires w.rest != [] && w.rest[0] == SEMI && -1 <= w.q <= 1000 && Closed(w.rest) && !ReadParam(w).quoted
    ensures ParamTip(w) == Shut
  {
    var s := w.rest[1..];
    assert Closed(s);
    hide Closed, AfterName, NameTip, SkipElement, SkipParamName;
    var t := SkipWs(s);
    WsPlain(s);
    PlainLaw(s, t);
    ParamNamePlain(t);
    PlainLaw(t, SkipParamName(t));
    NameInPhase(Named(w, t), ParamName(t), SkipParamName(t));
  }

  lemma {:induction false} ParamsInPhase(w: Params)
    requires -1 <= w.q <= 1000 && Closed(w.rest) && !ReadParams(w).quoted
    ensures ParamsTip(w) == Shut
    decreases |w.rest|
  {
    if !(w.bad || w.rest == [] || w.rest[0] != SEMI) {
      QuotedStays(ReadParam(w));
      ParamInPhase(w);
      ParamResume(w);
      ParamsInPhase(ReadParam(w));
    }
  }

  /** Without a DQUOTE in a parameter name, the parameter walk and a quote-aware scan agree on what is quoted. */
  lemma {:induction false} ClosedMeansShut(t: Bytes)
    requires Closed(t) && NoQuotedNames(t)
    ensures AllShut(t)
    decreases |t|
  {
    assert State(t, true, []);
    SeparatorsExt(t, true, []);
    var e := SkipSeparators(t);
    if e != [] {
      ElementExt(e, true, []);
      ElementInPhase(e);
      ClosedMeansShut(SkipElement(e));
    }
  }

  lemma ElementInPhase(e: Bytes)
    requires Closed(e) && !ElementQuoted(e)
    ensures ElementTip(e) == Shut
  {
    hide ParamsTip;
    var c := SkipCoding(e);
    CodingPlain(e);
    PlainLaw(e, c);
    WsPlain(c);
    PlainLaw(c, SkipWs(c));
    if ParamsAt(e) != [] && ParamsAt(e)[0] == SEMI {
      ParamsInPhase(StartParams(ParamsAt(e)));
    }
  }

  // ----- texts that record nothing -----

  /** A text that closes an open quoted-string and goes on with the parameters `mid`. */
  function Quiet(mid: Bytes): Bytes {
    [DQUOTE] + mid
  }

  lemma QuietRecords(mid: Bytes, w: Weights, coding: Bytes)
    requires DQUOTE !in mid
    ensures Walk(Quiet(mid), w, coding) == w
  {
    var u := Quiet(mid);
    assert u[1..] == mid;
    NoQuoteUnquote(mid);
    assert SkipElement(u) == SkipElement([]) == [];
    assert SkipCoding(u) == u && SkipWs(u) == u && SkipSeparators(u) == u;
    assert ReadElement(u, w, coding) == (w, []);
    assert Walk([], w, coding) == w;
  }

  lemma QuietDrops()
    ensures FateOf(Quiet(MALFORMED)) == Dropped
  {
    var u := Quiet(MALFORMED);
    assert u[1..] == MALFORMED;
    StartOf(u, MALFORMED);
    var t := MALFORMED[1..];
    assert SkipWs(t) == t && SkipParamName(t) == t && ParamName(t) == [];
    assert ReadParam(StartParams(MALFORMED)).bad;
  }

  lemma QuietWeighs(d: nat)
    requires d <= 1
    ensures FateOf(Quiet(WeightParam(d))) == Weighed(1000 * d)
  {
    var u, mid := Quiet(WeightParam(d)), WeightParam(d);
    assert u[1..] == mid;
    StartOf(u, mid);
    LastWeight(mid, d);
  }
}
