/** The Accept-Encoding parser as the source runs it: cursors over one field value, bounded by its length. */
module AcceptEncodingWalk {
  import opened Basics
  import opened AcceptEncoding

  /** Past a quoted-string that starts at `p`, if one does. */
  method SkipQuotedAt(s: Bytes, p: nat) returns (r: nat)
    requires p <= |s|
    ensures p <= r <= |s| && s[r..] == SkipQuoted(s[p..])
    ensures p < |s| && s[p] == DQUOTE ==> p < r
  {
    r := p;
    if r >= |s| || s[r] != DQUOTE {
      return;
    }
    r := r + 1;
    assert s[p..][1..] == s[r..];
    while r < |s| && s[r] != DQUOTE
      invariant p < r <= |s|
      invariant Unquote(s[r..]) == SkipQuoted(s[p..])
    {
      ghost var t := s[r..];
      if s[r] == BACKSLASH && r + 1 < |s| {
        assert t[2..] == s[r + 2..];
        r := r + 1;
      } else {
        assert t[1..] == s[r + 1..];
      }
      r := r + 1;
    }
    if r < |s| {
      assert s[r..][1..] == s[r + 1..];
      r := r + 1;
    }
  }

  method SkipWsAt(s: Bytes, p: nat) returns (r: nat)
    requires p <= |s|
    ensures p <= r <= |s| && s[r..] == SkipWs(s[p..])
  {
    r := p;
    while r < |s| && IsWs(s[r])
      invariant p <= r <= |s|
      invariant SkipWs(s[r..]) == SkipWs(s[p..])
    {
      assert s[r..][1..] == s[r + 1..];
      r := r + 1;
    }
  }

  /** At most three guarded steps with literal weights; a fourth digit is left for the caller to reject. */
  method ParseFraction(s: Bytes, p: nat) returns (frac: nat, r: nat)
    requires p <= |s|
    ensures p <= r <= |s| && (frac, s[r..]) == Fraction(s[p..], 100)
  {
    frac, r := 0, p;
    if r < |s| && IsDigit(s[r]) {
      frac := frac + (s[r] - ZERO) * 100;
      assert s[p..][1..] == s[p + 1..];
      r := r + 1;
      if r < |s| && IsDigit(s[r]) {
        frac := frac + (s[r] - ZERO) * 10;
        assert s[p + 1..][1..] == s[p + 2..];
        r := r + 1;
        if r < |s| && IsDigit(s[r]) {
          frac := frac + (s[r] - ZERO) * 1;
          assert s[p + 2..][1..] == s[p + 3..];
          r := r + 1;
          assert Fraction(s[p + 2..], 1) == (s[p + 2] - ZERO, s[p + 3..]);
        }
        assert Fraction(s[p + 1..], 10) == ((s[p + 1] - ZERO) * 10 + Fraction(s[p + 2..], 1).0, Fraction(s[p + 2..], 1).1);
      }
    }
  }

  method SkipValueAt(s: Bytes, p: nat) returns (r: nat)
    requires p <= |s|
    ensures p <= r <= |s| && s[r..] == SkipValue(s[p..])
  {
    r := p;
    while r < |s| && s[r] != SEMI && s[r] != COMMA
      invariant p <= r <= |s|
      invariant SkipValue(s[r..]) == SkipValue(s[p..])
    {
      if s[r] == DQUOTE {
        r := SkipQuotedAt(s, r);
      } else {
        assert s[r..][1..] == s[r + 1..];
        r := r + 1;
      }
    }
  }

  method SkipElementAt(s: Bytes, p: nat) returns (r: nat)
    requires p <= |s|
    ensures p <= r <= |s| && s[r..] == SkipElement(s[p..])
  {
    r := p;
    while r < |s| && s[r] != COMMA
      invariant p <= r <= |s|
      invariant SkipElement(s[r..]) == SkipElement(s[p..])
    {
      if s[r] == DQUOTE {
        r := SkipQuotedAt(s, r);
      } else {
        assert s[r..][1..] == s[r + 1..];
        r := r + 1;
      }
    }
  }

  /** The parameter-name scan, which steps over a DQUOTE but remembers it. */
  method ParamNameAt(s: Bytes, p: nat) returns (r: nat, quoted: bool)
    requires p <= |s|
    ensures p <= r <= |s| && s[r..] == SkipParamName(s[p..]) && s[p..r] == ParamName(s[p..])
    ensures quoted == (DQUOTE in s[p..r])
  {
    r, quoted := p, false;
    while r < |s| && !EndsParamName(s[r])
      invariant p <= r <= |s|
      invariant SkipParamName(s[r..]) == SkipParamName(s[p..])
      invariant quoted == (DQUOTE in s[p..r])
    {
      if s[r] == DQUOTE {
        quoted := true;
      }
      assert s[r..][1..] == s[r + 1..];
      assert s[p..r + 1] == s[p..r] + [s[r]];
      r := r + 1;
    }
    assert |s[p..]| - |SkipParamName(s[p..])| == r - p;
  }

  /** The value of a "q" parameter; q < 0 when the leading digit is not 0 or 1. */
  method QvalueAt(s: Bytes, p: nat) returns (q: int, r: nat)
    requires p <= |s|
    ensures p <= r <= |s| && (q, s[r..]) == ReadQvalue(s[p..])
  {
    r := p;
    if r < |s| && s[r] == ZERO {
      assert s[p..][1..] == s[p + 1..];
      r := r + 1;
      q := 0;
      if r < |s| && s[r] == DOT {
        assert s[p..][2..] == s[p + 2..];
        q, r := ParseFraction(s, r + 1);
      }
    } else if r < |s| && s[r] == ONE {
      assert s[p..][1..] == s[p + 1..];
      r := r + 1;
      q := 1000;
      if r < |s| && s[r] == DOT {
        assert s[p..][2..] == s[p + 2..];
        r := r + 1;
        ghost var t := s[r..];
        var i := 0;
        while r < |s| && s[r] == ZERO && i < 3
          invariant p <= r <= |s| && i <= 3
          invariant SkipZeros(s[r..], 3 - i) == SkipZeros(t, 3)
        {
          assert s[r..][1..] == s[r + 1..];
          r := r + 1;
          i := i + 1;
        }
      }
    } else {
      q := -1;
    }
  }

  /** The part of a parameter after its '='. */
  method ParamValueAt(s: Bytes, p: nat, ghost v: Params, isQ: bool, q0: int, qSeen0: bool)
    returns (r: nat, q: int, qSeen: bool, bad: bool)
    requires p <= |s| && v.q == q0 && v.qSeen == qSeen0 && -1 <= q0 <= 1000 && !v.bad
    ensures p <= r <= |s| && -1 <= q <= 1000
    ensures ReadParamValue(v, s[p..], isQ) == Params(q, qSeen, v.quoted, s[r..], bad)
  {
    r, q, qSeen := p, q0, qSeen0;
    if isQ {
      if qSeen {
        return r, q, qSeen, true;
      }
      var value, next := QvalueAt(s, r);
      if value < 0 {
        return r, q, qSeen, true;
      }
      q, qSeen, r := value, true, next;
      if r < |s| && !IsWs(s[r]) && s[r] != SEMI && s[r] != COMMA {
        return r, q, qSeen, true;
      }
    } else {
      r := SkipValueAt(s, r);
    }
    r := SkipWsAt(s, r);
    bad := r < |s| && s[r] != SEMI && s[r] != COMMA;
  }

  /** One parameter; on return `bad` says that the walk stopped at a malformed byte. */
  method ParamAt(s: Bytes, p: nat, ghost w: Params, q0: int, qSeen0: bool, quoted0: bool)
    returns (r: nat, q: int, qSeen: bool, quoted: bool, bad: bool)
    requires p < |s| && s[p] == SEMI && -1 <= q0 <= 1000
    requires w == Params(q0, qSeen0, quoted0, s[p..], false)
    ensures p < r <= |s| && -1 <= q <= 1000
    ensures ReadParam(w) == Params(q, qSeen, quoted, s[r..], bad)
  {
    hide ReadParamValue, SkipWs, SkipParamName;
    q, qSeen := q0, qSeen0;
    assert s[p..][1..] == s[p + 1..];
    var start := SkipWsAt(s, p + 1);
    var nameEnd, quotedName := ParamNameAt(s, start);
    quoted := quoted0 || quotedName;
    if nameEnd == start {
      return nameEnd, q, qSeen, quoted, true;
    }
    var isQ := nameEnd - start == 1 && (s[start] == LOWER_Q || s[start] == UPPER_Q);
    assert isQ == IsQ(s[start..nameEnd]);

    r := SkipWsAt(s, nameEnd);
    if r < |s| && s[r] == EQUALS {
      assert s[r..][1..] == s[r + 1..];
      r := SkipWsAt(s, r + 1);
      r, q, qSeen, bad := ParamValueAt(s, r, w.(quoted := quoted, rest := []), isQ, q, qSeen);
      return;
    }
    if isQ {
      return r, q, qSeen, quoted, true;
    }
    r := SkipWsAt(s, r);
    bad := r < |s| && s[r] != SEMI && s[r] != COMMA;
  }

  /** The weight of the parameters at `p`, and the position the caller resumes from. */
  method EvalQvalueAt(s: Bytes, p: nat) returns (q: int, r: nat)
    requires p < |s| && s[p] == SEMI
    ensures p <= r <= |s| && (q, s[r..]) == EvalQvalue(s[p..])
  {
    var qSeen, quoted, bad := false, false, false;
    q, r := 1000, p;
    while !bad && r < |s| && s[r] == SEMI
      invariant p <= r <= |s| && -1 <= q <= 1000
      invariant ReadParams(Params(q, qSeen, quoted, s[r..], bad)) == ReadParams(StartParams(s[p..]))
      decreases !bad, |s| - r
    {
      r, q, qSeen, quoted, bad := ParamAt(s, r, Params(q, qSeen, quoted, s[r..], false), q, qSeen, quoted);
    }
    if bad {
      q := -1;
    }
    if quoted {
      r := p;
    }
  }

  method SkipSeparatorsAt(s: Bytes, p: nat) returns (r: nat)
    requires p <= |s|
    ensures p <= r <= |s| && s[r..] == SkipSeparators(s[p..])
  {
    r := p;
    while r < |s| && (IsWs(s[r]) || s[r] == COMMA)
      invariant p <= r <= |s|
      invariant SkipSeparators(s[r..]) == SkipSeparators(s[p..])
    {
      assert s[r..][1..] == s[r + 1..];
      r := r + 1;
    }
  }

  method CodingNameAt(s: Bytes, p: nat) returns (r: nat)
    requires p <= |s|
    ensures p <= r <= |s| && s[r..] == SkipCoding(s[p..]) && s[p..r] == CodingName(s[p..])
  {
    r := p;
    while r < |s| && !EndsCoding(s[r])
      invariant p <= r <= |s|
      invariant SkipCoding(s[r..]) == SkipCoding(s[p..])
    {
      assert s[r..][1..] == s[r + 1..];
      r := r + 1;
    }
    assert |s[p..]| - |SkipCoding(s[p..])| == r - p;
  }

  /** One list element. */
  method ElementAt(s: Bytes, p: nat, coding: Bytes, explicit0: int, star0: int)
    returns (r: nat, explicitQ: int, starQ: int)
    requires p < |s| && !IsWs(s[p]) && s[p] != COMMA
    ensures p < r <= |s|
    ensures ReadElement(s[p..], Weights(explicit0, star0), coding) == (Weights(explicitQ, starQ), s[r..])
  {
    hide SkipWs, SkipCoding, EvalQvalue, SameName, CodingName;
    explicitQ, starQ := explicit0, star0;
    r := CodingNameAt(s, p);
    var name := s[p..r];
    var isCoding := SameName(name, coding);
    var isStar := |name| == 1 && name[0] == STAR;
    assert isStar == (name == [STAR]);

    r := SkipWsAt(s, r);
    // only ';', ',' or the end may follow a coding name
    if r < |s| && s[r] != SEMI && s[r] != COMMA {
      isCoding, isStar := false, false;
    }

    var q := 1000;
    if r < |s| && s[r] == SEMI {
      q, r := EvalQvalueAt(s, r);
    }
    if q >= 0 {
      if isCoding {
        explicitQ := q;
      } else if isStar {
        starQ := q;
      }
    }
    r := SkipElementAt(s, r);
  }

  /** One pass over a field value: the latest explicit weight and the latest wildcard weight. */
  method CodingWeightEx(s: Bytes, coding: Bytes, allowWildcard: bool) returns (weight: int, explicitQ: int, starQ: int)
    ensures Weights(explicitQ, starQ) == Walk(s, NONE, coding)
    ensures weight == CodingWeight(s, coding, allowWildcard)
  {
    hide ReadElement, SkipSeparators;
    var p := 0;
    explicitQ, starQ := -1, -1;
    assert s[0..] == s;
    while p < |s|
      invariant p <= |s|
      invariant Walk(s[p..], Weights(explicitQ, starQ), coding) == Walk(s, NONE, coding)
    {
      p := SkipSeparatorsAt(s, p);
      if p >= |s| {
        break;
      }
      assert !IsWs(s[p..][0]) && s[p..][0] != COMMA;
      p, explicitQ, starQ := ElementAt(s, p, coding, explicitQ, starQ);
    }
    assert Walk(s[p..], Weights(explicitQ, starQ), coding) == Weights(explicitQ, starQ);

    if explicitQ >= 0 {
      weight := explicitQ;
    } else if allowWildcard && starQ >= 0 {
      weight := starQ;
    } else {
      weight := -1;
    }
  }
}
