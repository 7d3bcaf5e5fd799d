/**
 Laws of the Accept-Encoding parser: where it resumes after an element, and what its quote-aware scans make of a
 value with a comma and more text behind it.
 */
module AcceptEncodingLaws {
  import opened Basics
  import opened AcceptEncoding

  // ----- quoting -----

  /** The quoted-string opened just before `t` is closed within `t`. */
  predicate Terminated(t: Bytes) {
    if t == [] then false
    else if t[0] == DQUOTE then true
    else if t[0] == BACKSLASH && |t| > 1 then Terminated(t[2..])
    else Terminated(t[1..])
  }

  /** Every quoted-string that a quote-aware scan of `t` opens is closed within `t`. */
  predicate Closed(t: Bytes)
    decreases |t|
  {
    if t == [] then true
    else if t[0] == DQUOTE then Terminated(t[1..]) && Closed(Unquote(t[1..]))
    else Closed(t[1..])
  }

  /** `r` is what is left of `t` after bytes that are neither DQUOTE nor ','. */
  ghost predicate Plain(t: Bytes, r: Bytes) {
    && |r| <= |t| && t[|t| - |r|..] == r
    && forall i :: 0 <= i < |t| - |r| ==> t[i] != DQUOTE && t[i] != COMMA
  }

  lemma {:induction false} PlainLaw(t: Bytes, r: Bytes)
    requires Plain(t, r)
    ensures SkipElement(t) == SkipElement(r) && Closed(t) == Closed(r)
    decreases |t|
  {
    if |t| == |r| {
      assert t == r;
    } else {
      assert t[0] != DQUOTE && t[0] != COMMA;
      assert t[1..][|t[1..]| - |r|..] == r;
      PlainLaw(t[1..], r);
    }
  }

  lemma {:induction false} PlainStep(t: Bytes, r: Bytes)
    requires t != [] && t[0] != DQUOTE && t[0] != COMMA && Plain(t[1..], r)
    ensures Plain(t, r)
  {
    assert Plain(t, t[1..]);
  }

  lemma {:induction false} WsPlain(t: Bytes)
    ensures Plain(t, SkipWs(t))
  {
    if t != [] && IsWs(t[0]) {
      WsPlain(t[1..]);
      PlainStep(t, SkipWs(t));
    }
  }

  lemma {:induction false} ParamNamePlain(t: Bytes)
    requires DQUOTE !in ParamName(t)
    ensures Plain(t, SkipParamName(t))
  {
    if t != [] && !EndsParamName(t[0]) {
      assert ParamName(t) == [t[0]] + ParamName(t[1..]);
      ParamNamePlain(t[1..]);
      PlainStep(t, SkipParamName(t));
    }
  }

  lemma {:induction false} CodingPlain(t: Bytes)
    ensures Plain(t, SkipCoding(t))
  {
    if t != [] && !EndsCoding(t[0]) {
      CodingPlain(t[1..]);
      PlainStep(t, SkipCoding(t));
    }
  }

  lemma {:induction false} FractionPlain(t: Bytes, scale: nat)
    ensures Plain(t, Fraction(t, scale).1)
  {
    if scale != 0 && t != [] && IsDigit(t[0]) {
      FractionPlain(t[1..], scale / 10);
      PlainStep(t, Fraction(t, scale).1);
    }
  }

  lemma {:induction false} ZerosPlain(t: Bytes, n: nat)
    ensures Plain(t, SkipZeros(t, n))
  {
    if n != 0 && t != [] && t[0] == ZERO {
      ZerosPlain(t[1..], n - 1);
      PlainStep(t, SkipZeros(t, n));
    }
  }

  lemma PlainOne(t: Bytes)
    ensures Plain(t, t)
    ensures t != [] && t[0] != DQUOTE && t[0] != COMMA ==> Plain(t, t[1..])
  {
  }

  lemma QvaluePlain(t: Bytes)
    ensures Plain(t, ReadQvalue(t).1)
  {
    PlainOne(t);
    if |t| > 1 && t[1] == DOT && t[0] == ZERO {
      FractionPlain(t[2..], 100);
    } else if |t| > 1 && t[1] == DOT && t[0] == ONE {
      ZerosPlain(t[2..], 3);
    }
    hide Plain, Fraction, SkipZeros;
  }

  /** Stopping early at ';' does not change where the element ends, nor whether its quotes are closed. */
  lemma {:induction false} ValueResume(t: Bytes)
    ensures SkipElement(SkipValue(t)) == SkipElement(t)
    ensures Closed(t) ==> Closed(SkipValue(t))
    decreases |t|
  {
    if t == [] || t[0] == COMMA || t[0] == SEMI {
    } else if t[0] == DQUOTE {
      ValueResume(SkipQuoted(t));
    } else {
      ValueResume(t[1..]);
    }
  }

  // ----- where the parser resumes -----

  lemma ParamValueResume(v: Params, value: Bytes, isQ: bool)
    requires -1 <= v.q <= 1000
    ensures SkipElement(ReadParamValue(v, value, isQ).rest) == SkipElement(value)
    ensures Closed(value) ==> Closed(ReadParamValue(v, value, isQ).rest)
  {
    hide SkipElement, Closed, Plain, SkipWs, SkipValue, ReadQvalue;
    var next := if isQ then ReadQvalue(value).1 else SkipValue(value);
    WsPlain(next);
    PlainLaw(next, SkipWs(next));
    if isQ {
      QvaluePlain(value);
      PlainLaw(value, next);
    } else {
      ValueResume(value);
    }
  }

  lemma AfterNameResume(v: Params, name: Bytes, t: Bytes)
    requires -1 <= v.q <= 1000
    ensures SkipElement(AfterName(v, name, t).rest) == SkipElement(t)
    ensures Closed(t) ==> Closed(AfterName(v, name, t).rest)
  {
    hide SkipElement, Closed, Plain, ReadParamValue, SkipWs;
    var b := SkipWs(t);
    WsPlain(t);
    PlainLaw(t, b);
    if b != [] && b[0] == EQUALS {
      PlainOne(b);
      PlainLaw(b, b[1..]);
      var value := SkipWs(b[1..]);
      WsPlain(b[1..]);
      PlainLaw(b[1..], value);
      ParamValueResume(v, value, IsQ(name));
    } else {
      WsPlain(b);
      PlainLaw(b, SkipWs(b));
    }
  }

  lemma ParamResume(w: Params)
    requires w.rest != [] && w.rest[0] == SEMI && -1 <= w.q <= 1000
    requires !ReadParam(w).quoted
    ensures SkipElement(ReadParam(w).rest) == SkipElement(w.rest)
    ensures Closed(w.rest) ==> Closed(ReadParam(w).rest)
  {
    assert Closed(w.rest) == Closed(w.rest[1..]);
    var s := w.rest[1..];
    assert SkipElement(w.rest) == SkipElement(s);
    hide AfterName, Closed, SkipElement, SkipWs, SkipParamName;
    var t := SkipWs(s);
    WsPlain(s);
    PlainLaw(s, t);
    ParamNamePlain(t);
    PlainLaw(t, SkipParamName(t));
    AfterNameResume(w.(quoted := w.quoted || DQUOTE in ParamName(t), rest := []), ParamName(t), SkipParamName(t));
  }

  lemma {:induction false} QuotedStays(w: Params)
    requires -1 <= w.q <= 1000
    ensures w.quoted ==> ReadParams(w).quoted
    decreases |w.rest|
  {
    if !(w.bad || w.rest == [] || w.rest[0] != SEMI) {
      QuotedStays(ReadParam(w));
    }
  }

  lemma {:induction false} ParamsResume(w: Params)
    requires -1 <= w.q <= 1000 && !ReadParams(w).quoted
    ensures SkipElement(ReadParams(w).rest) == SkipElement(w.rest)
    decreases |w.rest|
  {
    if !(w.bad || w.rest == [] || w.rest[0] != SEMI) {
      QuotedStays(ReadParam(w));
      ParamResume(w);
      ParamsResume(ReadParam(w));
    }
  }

  lemma {:induction false} ParamsEnd(w: Params)
    requires -1 <= w.q <= 1000 && (EndsParam(w.rest) || w.bad)
    ensures ReadParams(w).bad || ReadParams(w).rest == [] || ReadParams(w).rest[0] == COMMA
    decreases |w.rest|
  {
    if !(w.bad || w.rest == [] || w.rest[0] != SEMI) {
      ParamsEnd(ReadParam(w));
    }
  }

  /** The caller's skip after a parameter list ends exactly where a quote-aware skip from its ';' would, for
      every input, malformed weights and DQUOTEs in parameter names included; and after a well-formed list
      without such a name there is nothing left to skip. */
  lemma ResumeIsExact(t: Bytes)
    requires t != [] && t[0] == SEMI
    ensures SkipElement(EvalQvalue(t).1) == SkipElement(t)
    ensures EvalQvalue(t).0 >= 0 && !ReadParams(StartParams(t)).quoted ==> EvalQvalue(t).1 == SkipElement(t)
  {
    var w := StartParams(t);
    if !ReadParams(w).quoted {
      ParamsResume(w);
      ParamsEnd(w);
    }
  }

  /** So the elements the parser sees are exactly the pieces between top-level commas. */
  lemma ElementEndsAtComma(e: Bytes, w: Weights, coding: Bytes)
    requires e != [] && !IsWs(e[0]) && e[0] != COMMA
    ensures ReadElement(e, w, coding).1 == SkipElement(e)
  {
    var c := SkipCoding(e);
    var b := SkipWs(c);
    CodingPlain(e);
    PlainLaw(e, c);
    WsPlain(c);
    PlainLaw(c, b);
    if b != [] && b[0] == SEMI {
      ResumeIsExact(b);
    }
  }

  /** Every weight is -1 or a number of milli-units up to 1000. */
  ghost predicate InRange(w: Weights) {
    -1 <= w.coding <= 1000 && -1 <= w.star <= 1000
  }

  lemma {:induction false} WeightsInRange(t: Bytes, w: Weights, coding: Bytes)
    requires InRange(w)
    ensures InRange(Walk(t, w, coding))
    decreases |t|
  {
    var e := SkipSeparators(t);
    if e != [] {
      var (w1, rest) := ReadElement(e, w, coding);
      WeightsInRange(rest, w1, coding);
    }
  }

  // ----- a value followed by a comma and more -----

  /** What is left of a scan when `,` and `u` are appended to its input. An unclosed quoted-string swallows
      them, so long as `u` has no DQUOTE. */
  function Ext(r: Bytes, closed: bool, u: Bytes): Bytes {
    if !closed && r == [] then [] else r + ([COMMA] + u)
  }

  ghost predicate State(r: Bytes, closed: bool, u: Bytes) {
    (Closed(r) == closed || (!closed && r == [])) && (closed || DQUOTE !in u)
  }

  lemma ExtHead(r: Bytes, closed: bool, u: Bytes)
    ensures r != [] ==> Ext(r, closed, u) != [] && Ext(r, closed, u)[0] == r[0]
                        && Ext(r, closed, u)[1..] == r[1..] + ([COMMA] + u)
    ensures r == [] && closed ==> Ext(r, closed, u)[0] == COMMA
    ensures EndsParam(Ext(r, closed, u)) == EndsParam(r) && EndsQvalue(Ext(r, closed, u)) == EndsQvalue(r)
  {
  }

  lemma ExtTail(t: Bytes, closed: bool, u: Bytes)
    requires State(t, closed, u) && t != [] && t[0] != DQUOTE
    ensures Ext(t, closed, u)[1..] == Ext(t[1..], closed, u)
    ensures State(t[1..], closed, u) && Closed(t[1..]) == Closed(t)
  {
    ExtHead(t, closed, u);
  }

  lemma {:induction false} UnquoteExt(t: Bytes, x: Bytes)
    ensures Terminated(t) ==> Unquote(t + x) == Unquote(t) + x
    ensures !Terminated(t) ==> Unquote(t) == []
    ensures !Terminated(t) && DQUOTE !in x ==> Unquote(t + x) == []
    decreases |t|
  {
    if t == [] {
      assert t + x == x;
      NoQuoteUnquote(x);
    } else if t[0] == DQUOTE {
      assert (t + x)[1..] == t[1..] + x;
    } else if t[0] == BACKSLASH && |t| > 1 {
      assert (t + x)[2..] == t[2..] + x;
      UnquoteExt(t[2..], x);
    } else {
      assert (t + x)[1..] == t[1..] + x;
      UnquoteExt(t[1..], x);
      if t[0] == BACKSLASH && x != [] {
        assert (t + x)[2..] == x[1..];
        NoQuoteUnquote(x[1..]);
      }
    }
  }

  lemma {:induction false} NoQuoteUnquote(x: Bytes)
    ensures DQUOTE !in x ==> Unquote(x) == []
    decreases |x|
  {
    if x == [] || x[0] == DQUOTE {
    } else if x[0] == BACKSLASH && |x| > 1 {
      NoQuoteUnquote(x[2..]);
    } else {
      NoQuoteUnquote(x[1..]);
    }
  }

  /** Past a quoted-string. */
  lemma QuotedExt(t: Bytes, closed: bool, u: Bytes)
    requires t != [] && t[0] == DQUOTE && State(t, closed, u)
    ensures SkipQuoted(Ext(t, closed, u)) == Ext(SkipQuoted(t), closed, u)
    ensures State(SkipQuoted(t), closed, u)
  {
    ExtHead(t, closed, u);
    UnquoteExt(t[1..], [COMMA] + u);
    if Terminated(t[1..]) {
      assert Closed(Unquote(t[1..])) == closed;
    }
  }

  lemma {:induction false} ElementExt(t: Bytes, closed: bool, u: Bytes)
    requires State(t, closed, u)
    ensures SkipElement(Ext(t, closed, u)) == Ext(SkipElement(t), closed, u)
    ensures State(SkipElement(t), closed, u)
    decreases |t|
  {
    ExtHead(t, closed, u);
    if t == [] || t[0] == COMMA {
    } else if t[0] == DQUOTE {
      QuotedExt(t, closed, u);
      ElementExt(SkipQuoted(t), closed, u);
    } else {
      ExtTail(t, closed, u);
      ElementExt(t[1..], closed, u);
    }
  }

  lemma {:induction false} WsExt(t: Bytes, closed: bool, u: Bytes)
    requires State(t, closed, u)
    ensures SkipWs(Ext(t, closed, u)) == Ext(SkipWs(t), closed, u)
    ensures State(SkipWs(t), closed, u)
  {
    ExtHead(t, closed, u);
    if t != [] && IsWs(t[0]) {
      ExtTail(t, closed, u);
      WsExt(t[1..], closed, u);
    }
  }

  /** The element at the front of `e` has a parameter whose name contains a DQUOTE. */
  predicate ElementQuoted(e: Bytes) {
    var b := SkipWs(SkipCoding(e));
    b != [] && b[0] == SEMI && ReadParams(StartParams(b)).quoted
  }

  /** No parameter name in the field value contains a DQUOTE. */
  predicate NoQuotedNames(t: Bytes)
    decreases |t|
  {
    var e := SkipSeparators(t);
    e == [] || (!ElementQuoted(e) && NoQuotedNames(SkipElement(e)))
  }

  lemma {:induction false} SeparatorsExt(t: Bytes, closed: bool, u: Bytes)
    requires State(t, closed, u) && (t != [] || closed)
    ensures SkipSeparators(t) == [] ==> closed && SkipSeparators(Ext(t, closed, u)) == SkipSeparators(u)
    ensures SkipSeparators(t) != [] ==> SkipSeparators(Ext(t, closed, u)) == Ext(SkipSeparators(t), closed, u)
    ensures State(SkipSeparators(t), closed, u)
  {
    ExtHead(t, closed, u);
    if t != [] && (IsWs(t[0]) || t[0] == COMMA) {
      ExtTail(t, closed, u);
      SeparatorsExt(t[1..], closed, u);
    } else if t == [] {
      assert Ext(t, closed, u) == [COMMA] + u;
      assert ([COMMA] + u)[1..] == u;
    }
  }
}
