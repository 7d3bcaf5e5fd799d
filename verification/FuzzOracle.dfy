/** The fuzzer's independent decision: 1 accepts, 0 declines, -1 is unsure. */
module FuzzOracle {
  import opened Basics
  import opened AcceptEncoding
  import opened AcceptEncodingLaws
  import opened AcceptEncodingWalk
  import opened FieldLines

  predicate IsTokenChar(b: byte) {
    65 <= b <= 90 || 97 <= b <= 122 || 48 <= b <= 57 || b == STAR || b == 45 || b == 95
  }

  /** b | 0x20 */
  function SetCaseBit(b: byte): byte {
    if (b / 32) % 2 == 0 then b + 32 else b
  }

  // ----- the oracle's scans, as functions of the remaining bytes; None is "unsure" -----

  /** A quoted-string without escapes, given the bytes after its opening DQUOTE. */
  function RefString(t: Bytes): (r: Option<Bytes>)
    ensures r.Some? ==> |r.value| < |t|
  {
    if t == [] then None
    else if t[0] == DQUOTE then Some(t[1..])
    else if t[0] == BACKSLASH then None
    else RefString(t[1..])
  }

  /** An element that starts with a DQUOTE. */
  function RefBlob(t: Bytes): (r: Option<Bytes>)
    ensures r.Some? ==> |r.value| <= |t| && (r.value == [] || r.value[0] == COMMA)
    decreases |t|
  {
    if t == [] || t[0] == COMMA then Some(t)
    else if t[0] == DQUOTE then
      var s := RefString(t[1..]);
      if s.None? then None else RefBlob(s.value)
    else RefBlob(t[1..])
  }

  function RefName(t: Bytes): (r: Bytes)
    ensures |r| <= |t|
  {
    if t != [] && IsTokenChar(t[0]) then RefName(t[1..]) else t
  }

  /** The rest of an element whose name is followed by something unexpected. */
  function RefJunk(t: Bytes, inQuote: bool): (r: Option<Bytes>)
    ensures r.Some? ==> |r.value| <= |t| && (r.value == [] || r.value[0] == COMMA)
    decreases |t|
  {
    if t == [] then (if inQuote then None else Some(t))
    else if !inQuote && t[0] == COMMA then Some(t)
    else if t[0] == BACKSLASH && inQuote then (if |t| == 1 then None else RefJunk(t[2..], inQuote))
    else RefJunk(t[1..], if t[0] == DQUOTE then !inQuote else inQuote)
  }

  function RefParamName(t: Bytes): (r: Bytes)
    ensures |r| <= |t|
  {
    if t == [] || EndsParamName(t[0]) || t[0] == DQUOTE then t else RefParamName(t[1..])
  }

  function RefToken(t: Bytes): (r: Bytes)
    ensures |r| <= |t|
  {
    if t == [] || t[0] == SEMI || t[0] == COMMA || IsWs(t[0]) || t[0] == DQUOTE then t else RefToken(t[1..])
  }

  /** The value after '=': the new weight and what is left. */
  function RefValue(v: Bytes, isQ: bool, q: int, qSeen: bool): (r: Option<(int, Bytes)>)
    ensures r.Some? ==> |r.value.1| <= |v|
  {
    if isQ then
      if qSeen || v == [] then None
      else if v[0] == ZERO || v[0] == ONE then Some(ReadQvalue(v))
      else None
    else if v != [] && v[0] == DQUOTE then
      var s := RefString(v[1..]);
      if s.None? then None else Some((q, s.value))
    else Some((q, RefToken(v)))
  }

  /** What follows a parameter name: the new weight, whether it was a "q" with a value, and what is left. */
  function RefAfterName(t: Bytes, name: Bytes, q: int, qSeen: bool): (r: Option<(int, bool, Bytes)>)
    ensures r.Some? ==> |r.value.2| <= |t|
  {
    var b := SkipWs(t);
    if name == [] then None
    else if b == [] || b[0] != EQUALS then
      if IsQ(name) then None else Some((q, qSeen, b))
    else
      var v := RefValue(SkipWs(b[1..]), IsQ(name), q, qSeen);
      if v.None? then None
      else
        var rest := SkipWs(v.value.1);
        if EndsParam(rest) then Some((v.value.0, qSeen || IsQ(name), rest)) else None
  }

  function RefParam(t: Bytes, q: int, qSeen: bool): (r: Option<(int, bool, Bytes)>)
    requires t != []
    ensures r.Some? ==> |r.value.2| < |t|
  {
    var a := SkipWs(t[1..]);
    var end := RefParamName(a);
    RefAfterName(end, a[..|a| - |end|], q, qSeen)
  }

  /** All parameters from the ';' at the front of `t`. */
  function RefParams(t: Bytes, q: int, qSeen: bool): (r: Option<(int, Bytes)>)
    ensures r.Some? ==> |r.value.1| <= |t|
    decreases |t|
  {
    if t == [] || t[0] != SEMI then Some((q, t))
    else
      var p := RefParam(t, q, qSeen);
      if p.None? then None else RefParams(p.value.2, p.value.0, p.value.1)
  }

  predicate RefIsZstd(name: Bytes) {
    |name| == 4 && SetCaseBit(name[0]) == 122 && SetCaseBit(name[1]) == 115
    && SetCaseBit(name[2]) == 116 && SetCaseBit(name[3]) == 100
  }

  /** Past the ',' that ends an element, if there is one. */
  function DropComma(t: Bytes): Bytes {
    if t == [] then t else t[1..]
  }

  /** One element, which starts at a byte that is not a separator. */
  function RefElement(e: Bytes, w: Weights): (r: Option<(Weights, Bytes)>)
    requires e != []
    ensures r.Some? ==> |r.value.1| < |e|
  {
    if e[0] == DQUOTE then
      var r := RefBlob(e);
      if r.None? then None else Some((w, DropComma(r.value)))
    else
      var end := RefName(e);
      var name := e[..|e| - |end|];
      if name == [] then None
      else
        var b := SkipWs(end);
        if !EndsParam(b) then
          var r := RefJunk(b, false);
          if r.None? then None else Some((w, DropComma(r.value)))
        else
          var p := RefParams(b, 1000, false);
          if p.None? then None
          else
            var (q, rest) := p.value;
            var w1 := if RefIsZstd(name) then w.(coding := q) else if name == [STAR] then w.(star := q) else w;
            if rest == [] then Some((w1, rest))
            else if rest[0] != COMMA then None
            else Some((w1, rest[1..]))
  }

  function RefWalk(t: Bytes, w: Weights): Option<Weights>
    decreases |t|
  {
    var e := SkipSeparators(t);
    if e == [] then Some(w)
    else
      var r := RefElement(e, w);
      if r.None? then None else RefWalk(r.value.1, r.value.0)
  }

  function RefAccepts(d: Bytes): int {
    var w := RefWalk(d, NONE);
    if w.None? then -1
    else if w.value.coding >= 0 then (if w.value.coding > 0 then 1 else 0)
    else if w.value.star >= 0 then (if w.value.star > 0 then 1 else 0)
    else 0
  }

  // ----- the oracle as written: one index, nested loops -----

  method RefStringAt(d: Bytes, i0: nat) returns (sure: bool, i: nat)
    requires i0 <= |d|
    ensures i0 <= i <= |d|
    ensures RefString(d[i0..]) == if sure then Some(d[i..]) else None
  {
    i := i0;
    while i < |d| && d[i] != DQUOTE
      invariant i0 <= i <= |d|
      invariant RefString(d[i..]) == RefString(d[i0..])
    {
      assert d[i..][1..] == d[i + 1..];
      if d[i] == BACKSLASH {
        return false, i;
      }
      i := i + 1;
    }
    if i >= |d| {
      return false, i;
    }
    assert d[i..][1..] == d[i + 1..];
    return true, i + 1;
  }

  method RefBlobAt(d: Bytes, i0: nat) returns (sure: bool, i: nat)
    requires i0 <= |d|
    ensures i0 <= i <= |d|
    ensures RefBlob(d[i0..]) == if sure then Some(d[i..]) else None
  {
    i := i0;
    while i < |d| && d[i] != COMMA
      invariant i0 <= i <= |d|
      invariant RefBlob(d[i..]) == RefBlob(d[i0..])
    {
      assert d[i..][1..] == d[i + 1..];
      if d[i] == DQUOTE {
        sure, i := RefStringAt(d, i + 1);
        if !sure {
          return;
        }
      } else {
        i := i + 1;
      }
    }
    sure := true;
  }

  method RefJunkAt(d: Bytes, i0: nat) returns (sure: bool, i: nat)
    requires i0 <= |d|
    ensures i0 <= i <= |d|
    ensures RefJunk(d[i0..], false) == if sure then Some(d[i..]) else None
  {
    i := i0;
    var inQuote := false;
    while i < |d| && (inQuote || d[i] != COMMA)
      invariant i0 <= i <= |d|
      invariant RefJunk(d[i..], inQuote) == RefJunk(d[i0..], false)
    {
      assert d[i..][1..] == d[i + 1..];
      if d[i] == BACKSLASH && inQuote {
        if i + 1 >= |d| {
          return false, i;
        }
        assert d[i..][2..] == d[i + 2..];
        i := i + 2;
        continue;
      }
      if d[i] == DQUOTE {
        inQuote := !inQuote;
      }
      i := i + 1;
    }
    sure := !inQuote;
  }

  method RefNameAt(d: Bytes, i0: nat) returns (i: nat)
    requires i0 <= |d|
    ensures i0 <= i <= |d| && d[i..] == RefName(d[i0..])
    ensures d[i0..i] == d[i0..][..|d[i0..]| - |RefName(d[i0..])|]
  {
    i := i0;
    while i < |d| && IsTokenChar(d[i])
      invariant i0 <= i <= |d|
      invariant RefName(d[i..]) == RefName(d[i0..])
    {
      assert d[i..][1..] == d[i + 1..];
      i := i + 1;
    }
  }

  method RefParamNameAt(d: Bytes, i0: nat) returns (i: nat)
    requires i0 <= |d|
    ensures i0 <= i <= |d| && d[i..] == RefParamName(d[i0..])
    ensures d[i0..i] == d[i0..][..|d[i0..]| - |RefParamName(d[i0..])|]
  {
    i := i0;
    while i < |d| && !EndsParamName(d[i]) && d[i] != DQUOTE
      invariant i0 <= i <= |d|
      invariant RefParamName(d[i..]) == RefParamName(d[i0..])
    {
      assert d[i..][1..] == d[i + 1..];
      i := i + 1;
    }
  }

  method RefTokenAt(d: Bytes, i0: nat) returns (i: nat)
    requires i0 <= |d|
    ensures i0 <= i <= |d| && d[i..] == RefToken(d[i0..])
  {
    i := i0;
    while i < |d| && d[i] != SEMI && d[i] != COMMA && !IsWs(d[i]) && d[i] != DQUOTE
      invariant i0 <= i <= |d|
      invariant RefToken(d[i..]) == RefToken(d[i0..])
    {
      assert d[i..][1..] == d[i + 1..];
      i := i + 1;
    }
  }

  /** The oracle scales the fractional digits down in a loop where the parser unrolls three steps. */
  lemma FractionStep(d: Bytes, i: nat, scale: nat)
    requires i < |d| && IsDigit(d[i]) && scale > 0
    ensures var (f, rest) := Fraction(d[i + 1..], scale / 10);
            Fraction(d[i..], scale) == ((d[i] - ZERO) * scale + f, rest)
  {
    assert d[i..][1..] == d[i + 1..];
  }

  lemma FractionStops(t: Bytes, scale: nat)
    requires scale == 0 || t == [] || !IsDigit(t[0])
    ensures Fraction(t, scale) == (0, t)
  {
  }

  lemma ZerosStep(d: Bytes, i: nat, n: nat)
    requires i < |d| && d[i] == ZERO && n > 0
    ensures SkipZeros(d[i..], n) == SkipZeros(d[i + 1..], n - 1)
  {
    assert d[i..][1..] == d[i + 1..];
  }

  lemma ZerosStop(t: Bytes, n: nat)
    requires n == 0 || t == [] || t[0] != ZERO
    ensures SkipZeros(t, n) == t
  {
  }

  method RefQvalueAt(d: Bytes, i0: nat) returns (q: int, i: nat)
    requires i0 < |d| && (d[i0] == ZERO || d[i0] == ONE)
    ensures i0 <= i <= |d| && (q, d[i..]) == ReadQvalue(d[i0..])
  {
    hide Fraction, SkipZeros;
    i := i0 + 1;
    assert d[i0..][1..] == d[i..];
    if d[i0] == ZERO {
      q := 0;
      if i < |d| && d[i] == DOT {
        assert d[i0..][2..] == d[i + 1..];
        i := i + 1;
        ghost var t := d[i..];
        var scale := 100;
        while i < |d| && IsDigit(d[i]) && scale > 0
          invariant i0 <= i <= |d| && scale in {100, 10, 1, 0}
          invariant (q + Fraction(d[i..], scale).0, Fraction(d[i..], scale).1) == Fraction(t, 100)
        {
          FractionStep(d, i, scale);
          q := q + (d[i] - ZERO) * scale;
          scale := scale / 10;
          i := i + 1;
        }
        FractionStops(d[i..], scale);
      }
    } else {
      q := 1000;
      if i < |d| && d[i] == DOT {
        assert d[i0..][2..] == d[i + 1..];
        i := i + 1;
        ghost var t := d[i..];
        var k := 0;
        while i < |d| && d[i] == ZERO && k < 3
          invariant i0 <= i <= |d| && k <= 3
          invariant SkipZeros(d[i..], 3 - k) == SkipZeros(t, 3)
        {
          ZerosStep(d, i, 3 - k);
          i := i + 1;
          k := k + 1;
        }
        ZerosStop(d[i..], 3 - k);
      }
    }
  }

  method RefValueAt(d: Bytes, i0: nat, isQ: bool, q0: int, qSeen: bool) returns (sure: bool, q: int, i: nat)
    requires i0 <= |d|
    ensures i0 <= i <= |d|
    ensures RefValue(d[i0..], isQ, q0, qSeen) == if sure then Some((q, d[i..])) else None
  {
    q, i := q0, i0;
    if isQ {
      if qSeen || i >= |d| || (d[i] != ZERO && d[i] != ONE) {
        return false, q, i;
      }
      q, i := RefQvalueAt(d, i);
    } else if i < |d| && d[i] == DQUOTE {
      assert d[i..][1..] == d[i + 1..];
      sure, i := RefStringAt(d, i + 1);
      return;
    } else {
      i := RefTokenAt(d, i);
    }
    sure := true;
  }

  method RefAfterNameAt(d: Bytes, end: nat, name: Bytes, q0: int, qSeen0: bool)
    returns (sure: bool, q: int, qSeen: bool, i: nat)
    requires end <= |d|
    ensures end <= i <= |d|
    ensures RefAfterName(d[end..], name, q0, qSeen0) == if sure then Some((q, qSeen, d[i..])) else None
  {
    q, qSeen, i := q0, qSeen0, end;
    if |name| == 0 {
      return false, q, qSeen, i;
    }
    var isQ := |name| == 1 && (name[0] == LOWER_Q || name[0] == UPPER_Q);
    i := SkipWsAt(d, end);
    if i >= |d| || d[i] != EQUALS {
      return !isQ, q, qSeen, i;
    }
    assert d[i..][1..] == d[i + 1..];
    i := SkipWsAt(d, i + 1);
    sure, q, i := RefValueAt(d, i, isQ, q, qSeen);
    if !sure {
      return;
    }
    qSeen := qSeen || isQ;
    i := SkipWsAt(d, i);
    sure := i >= |d| || d[i] == SEMI || d[i] == COMMA;
  }

  method RefParamsAt(d: Bytes, i0: nat) returns (sure: bool, q: int, i: nat)
    requires i0 <= |d|
    ensures i0 <= i <= |d|
    ensures RefParams(d[i0..], 1000, false) == if sure then Some((q, d[i..])) else None
  {
    hide SkipWs, RefParamName, RefAfterName;
    q, i := 1000, i0;
    var qSeen := false;
    while i < |d| && d[i] == SEMI
      invariant i0 <= i <= |d|
      invariant RefParams(d[i..], q, qSeen) == RefParams(d[i0..], 1000, false)
    {
      assert d[i..][1..] == d[i + 1..];
      var start := SkipWsAt(d, i + 1);
      var end := RefParamNameAt(d, start);
      sure, q, qSeen, i := RefAfterNameAt(d, end, d[start..end], q, qSeen);
      if !sure {
        return;
      }
    }
    sure := true;
  }

  method RefElementAt(d: Bytes, i0: nat, zstd0: int, star0: int)
    returns (sure: bool, i: nat, zstdQ: int, starQ: int)
    requires i0 < |d|
    ensures i0 < i <= |d| || !sure
    ensures RefElement(d[i0..], Weights(zstd0, star0)) == if sure then Some((Weights(zstdQ, starQ), d[i..])) else None
  {
    hide RefBlob, RefName, SkipWs, RefJunk, RefParams;
    zstdQ, starQ, i := zstd0, star0, i0;
    if d[i] == DQUOTE {
      sure, i := RefBlobAt(d, i);
      if i < |d| {
        assert d[i..][1..] == d[i + 1..];
        i := i + 1;
      }
      return;
    }

    var end := RefNameAt(d, i0);
    if end == i0 {
      return false, i, zstdQ, starQ;
    }
    var name := d[i0..end];
    var isStar := |name| == 1 && name[0] == STAR;
    assert isStar == (name == [STAR]);
    var isZstd := RefIsZstd(name);

    var b := SkipWsAt(d, end);
    if b < |d| && d[b] != SEMI && d[b] != COMMA {
      sure, i := RefJunkAt(d, b);
      if i < |d| {
        assert d[i..][1..] == d[i + 1..];
        i := i + 1;
      }
      return;
    }

    var q;
    sure, q, i := RefParamsAt(d, b);
    if !sure {
      return;
    }
    if isZstd {
      zstdQ := q;
    } else if isStar {
      starQ := q;
    }
    if i < |d| {
      if d[i] != COMMA {
        return false, i, zstdQ, starQ;
      }
      assert d[i..][1..] == d[i + 1..];
      i := i + 1;
    }
  }

  method RefAcceptsLoop(d: Bytes) returns (r: int)
    ensures r == RefAccepts(d)
  {
    hide RefElement, SkipSeparators;
    var i := 0;
    var zstdQ, starQ := -1, -1;
    assert d[0..] == d;
    while i < |d|
      invariant i <= |d|
      invariant RefWalk(d[i..], Weights(zstdQ, starQ)) == RefWalk(d, NONE)
    {
      i := SkipSeparatorsAt(d, i);
      if i >= |d| {
        break;
      }
      var sure;
      sure, i, zstdQ, starQ := RefElementAt(d, i, zstdQ, starQ);
      if !sure {
        return -1;
      }
    }
    assert RefWalk(d[i..], Weights(zstdQ, starQ)) == Some(Weights(zstdQ, starQ));
    if zstdQ >= 0 {
      return if zstdQ > 0 then 1 else 0;
    }
    if starQ >= 0 {
      return if starQ > 0 then 1 else 0;
    }
    return 0;
  }

  // ----- agreement with the parser -----

  lemma {:induction false} StringAgrees(t: Bytes)
    requires RefString(t).Some?
    ensures RefString(t).value == Unquote(t)
  {
    if t[0] != DQUOTE {
      StringAgrees(t[1..]);
    }
  }

  lemma {:induction false} BlobAgrees(t: Bytes)
    requires RefBlob(t).Some?
    ensures RefBlob(t).value == SkipElement(t)
    decreases |t|
  {
    if t == [] || t[0] == COMMA {
    } else if t[0] == DQUOTE {
      StringAgrees(t[1..]);
      BlobAgrees(RefString(t[1..]).value);
    } else {
      BlobAgrees(t[1..]);
    }
  }

  /** Toggling at each DQUOTE is the same as skipping quoted-strings. */
  lemma {:induction false} JunkAgrees(t: Bytes, inQuote: bool)
    requires RefJunk(t, inQuote).Some?
    ensures RefJunk(t, inQuote).value == SkipElement(if inQuote then Unquote(t) else t)
    decreases |t|
  {
    if t == [] || (!inQuote && t[0] == COMMA) {
    } else if t[0] == BACKSLASH && inQuote {
      JunkAgrees(t[2..], inQuote);
    } else {
      JunkAgrees(t[1..], if t[0] == DQUOTE then !inQuote else inQuote);
    }
  }

  lemma {:induction false} NamePlain(t: Bytes)
    ensures Plain(t, RefName(t))
  {
    if t != [] && IsTokenChar(t[0]) {
      NamePlain(t[1..]);
      PlainStep(t, RefName(t));
    }
  }

  /** The oracle's name is the parser's, unless a byte outside the token alphabet follows. */
  lemma {:induction false} NameAgrees(e: Bytes)
    ensures var end := RefName(e);
            && (end == [] || EndsCoding(end[0]) ==> SkipCoding(e) == end)
            && |SkipCoding(e)| <= |end|
            && (end != [] && !EndsCoding(end[0]) ==>
                  |e| - |end| < |CodingName(e)| && CodingName(e)[|e| - |end|] == end[0] && !IsTokenChar(end[0]))
  {
    if e != [] && IsTokenChar(e[0]) {
      NameAgrees(e[1..]);
      assert CodingName(e) == [e[0]] + CodingName(e[1..]);
    }
  }

  /** A name with such a byte is neither "zstd" nor "*". */
  lemma ForeignName(name: Bytes, i: nat)
    requires i < |name| && !IsTokenChar(name[i])
    ensures !SameName(name, ZSTD) && name != [STAR]
  {
    if |name| == 4 {
      assert Lower(name[i]) != Lower(ZSTD[i]);
    }
  }

  lemma ZstdNameAgrees(name: Bytes)
    ensures RefIsZstd(name) <==> SameName(name, ZSTD)
  {
    if |name| == 4 {
      LetterAgrees(name[0], 122);
      LetterAgrees(name[1], 115);
      LetterAgrees(name[2], 116);
      LetterAgrees(name[3], 100);
      assert SameName(name, ZSTD) <==>
             Lower(name[0]) == 122 && Lower(name[1]) == 115 && Lower(name[2]) == 116 && Lower(name[3]) == 100;
    }
  }

  lemma LetterAgrees(b: byte, c: byte)
    requires 97 <= c <= 122
    ensures SetCaseBit(b) == c <==> Lower(b) == c
  {
  }

  lemma {:induction false} ParamNameAgrees(t: Bytes)
    ensures var end := RefParamName(t);
            end == [] || end[0] != DQUOTE ==>
              SkipParamName(t) == end && DQUOTE !in ParamName(t) && ParamName(t) == t[..|t| - |end|]
  {
    if t != [] && !EndsParamName(t[0]) && t[0] != DQUOTE {
      ParamNameAgrees(t[1..]);
      if RefParamName(t) == [] || RefParamName(t)[0] != DQUOTE {
        assert ParamName(t) == [t[0]] + ParamName(t[1..]);
      }
    }
  }

  lemma {:induction false} TokenAgrees(t: Bytes)
    ensures SkipValue(t) == SkipValue(RefToken(t))
  {
    if t != [] && t[0] != SEMI && t[0] != COMMA && !IsWs(t[0]) && t[0] != DQUOTE {
      TokenAgrees(t[1..]);
    }
  }

  lemma {:induction false} ValueAfterWs(t: Bytes)
    requires EndsParam(SkipWs(t))
    ensures SkipValue(t) == SkipWs(t)
  {
    if t != [] && IsWs(t[0]) {
      ValueAfterWs(t[1..]);
    }
  }

  lemma WsTwice(t: Bytes)
    ensures SkipWs(SkipWs(t)) == SkipWs(t)
  {
    if t != [] && IsWs(t[0]) {
      WsTwice(t[1..]);
    }
  }

  lemma ValueAgrees(v: Params, t: Bytes, isQ: bool)
    requires RefValue(t, isQ, v.q, v.qSeen).Some? && -1 <= v.q <= 1000 && !v.bad
    requires EndsParam(SkipWs(RefValue(t, isQ, v.q, v.qSeen).value.1))
    ensures var (q, x) := RefValue(t, isQ, v.q, v.qSeen).value;
            ReadParamValue(v, t, isQ) == v.(q := q, qSeen := v.qSeen || isQ, rest := SkipWs(x))
  {
    var (q, x) := RefValue(t, isQ, v.q, v.qSeen).value;
    if isQ {
      assert EndsQvalue(x);
    } else {
      if t != [] && t[0] == DQUOTE {
        StringAgrees(t[1..]);
      } else {
        TokenAgrees(t);
      }
      ValueAfterWs(x);
      WsTwice(x);
      assert SkipValue(t) == SkipWs(x);
    }
  }

  /** A parameter the oracle understands, and after which it can go on, is read alike. */
  lemma AfterNameAgrees(v: Params, name: Bytes, t: Bytes)
    requires RefAfterName(t, name, v.q, v.qSeen).Some? && -1 <= v.q <= 1000 && !v.bad
    requires EndsParam(RefAfterName(t, name, v.q, v.qSeen).value.2)
    ensures var (q, qSeen, rest) := RefAfterName(t, name, v.q, v.qSeen).value;
            AfterName(v, name, t) == v.(q := q, qSeen := qSeen, rest := rest)
  {
    var b := SkipWs(t);
    if b != [] && b[0] == EQUALS {
      ValueAgrees(v, SkipWs(b[1..]), IsQ(name));
    } else {
      WsTwice(t);
    }
  }

  lemma ParamAgrees(w: Params)
    requires w.rest != [] && w.rest[0] == SEMI && -1 <= w.q <= 1000 && !w.bad && !w.quoted
    requires RefParam(w.rest, w.q, w.qSeen).Some?
    requires EndsParam(RefParam(w.rest, w.q, w.qSeen).value.2)
    ensures var (q, qSeen, rest) := RefParam(w.rest, w.q, w.qSeen).value;
            ReadParam(w) == Params(q, qSeen, false, rest, false)
  {
    var t := SkipWs(w.rest[1..]);
    var end := RefParamName(t);
    ParamNameAgrees(t);
    if end != [] && end[0] == DQUOTE {
      // a DQUOTE in the name is left as trailing junk
      assert false;
    }
    AfterNameAgrees(w.(rest := []), ParamName(t), end);
  }

  lemma {:induction false} ParamsAgree(w: Params)
    requires -1 <= w.q <= 1000 && !w.bad && !w.quoted
    requires RefParams(w.rest, w.q, w.qSeen).Some?
    requires var rest := RefParams(w.rest, w.q, w.qSeen).value.1; rest == [] || rest[0] == COMMA
    ensures var (q, rest) := RefParams(w.rest, w.q, w.qSeen).value;
            var r := ReadParams(w);
            r.q == q && r.rest == rest && !r.bad && !r.quoted && 0 <= r.q + 1
    decreases |w.rest|
  {
    if w.rest != [] && w.rest[0] == SEMI {
      var (q, qSeen, rest) := RefParam(w.rest, w.q, w.qSeen).value;
      if EndsParam(rest) {
        ParamAgrees(w);
        ParamsAgree(ReadParam(w));
      }
    }
  }

  lemma {:induction false} RefParamsNonNegative(t: Bytes, q: int, qSeen: bool)
    requires q >= 0 && RefParams(t, q, qSeen).Some?
    ensures RefParams(t, q, qSeen).value.0 >= 0
    decreases |t|
  {
    if t != [] && t[0] == SEMI {
      var p := RefParam(t, q, qSeen).value;
      RefParamsNonNegative(p.2, p.0, p.1);
    }
  }

  lemma ElementAgrees(e: Bytes, w: Weights)
    requires e != [] && !IsWs(e[0]) && e[0] != COMMA && RefElement(e, w).Some?
    ensures RefElement(e, w).value.0 == ReadElement(e, w, ZSTD).0
    ensures RefElement(e, w).value.1 == DropComma(SkipElement(e))
    ensures SkipElement(e) == [] || SkipElement(e)[0] == COMMA
  {
    if e[0] == DQUOTE {
      BlobAgrees(e);
    } else {
      hide RefElement, ReadElement, SkipElement, SkipWs;
      NameSkipped(e);
      if EndsParam(SkipWs(RefName(e))) {
        NamedElementAgrees(e, w);
      } else {
        JunkElementAgrees(e, w);
      }
    }
  }

  /** The name and the white space after it do not move the end of the element. */
  lemma NameSkipped(e: Bytes)
    requires e != [] && e[0] != DQUOTE
    ensures SkipElement(SkipWs(RefName(e))) == SkipElement(e)
  {
    hide SkipElement, SkipWs, RefName, Closed, Plain;
    var end := RefName(e);
    NamePlain(e);
    PlainLaw(e, end);
    WsPlain(end);
    PlainLaw(end, SkipWs(end));
  }

  /** Junk behind the name: neither records anything. */
  lemma JunkElementAgrees(e: Bytes, w: Weights)
    requires e != [] && !IsWs(e[0]) && e[0] != COMMA && e[0] != DQUOTE && RefElement(e, w).Some?
    requires !EndsParam(SkipWs(RefName(e))) && SkipElement(SkipWs(RefName(e))) == SkipElement(e)
    ensures RefElement(e, w).value.0 == ReadElement(e, w, ZSTD).0
    ensures RefElement(e, w).value.1 == DropComma(SkipElement(e))
    ensures SkipElement(e) == [] || SkipElement(e)[0] == COMMA
  {
    hide SkipElement, SkipWs, SkipCoding, RefName, RefJunk, SameName, EvalQvalue;
    var end := RefName(e);
    NameAgrees(e);
    JunkAgrees(SkipWs(end), false);
    if !EndsCoding(end[0]) {
      ForeignName(CodingName(e), |e| - |end|);
    }
  }

  lemma NameEnds(t: Bytes)
    requires EndsParam(SkipWs(t))
    ensures t == [] || EndsCoding(t[0])
  {
  }

  /** A name and its parameters: both record the same. */
  lemma NamedElementAgrees(e: Bytes, w: Weights)
    requires e != [] && !IsWs(e[0]) && e[0] != COMMA && e[0] != DQUOTE && RefElement(e, w).Some?
    requires EndsParam(SkipWs(RefName(e))) && SkipElement(SkipWs(RefName(e))) == SkipElement(e)
    ensures RefElement(e, w).value.0 == ReadElement(e, w, ZSTD).0
    ensures RefElement(e, w).value.1 == DropComma(SkipElement(e))
    ensures SkipElement(e) == [] || SkipElement(e)[0] == COMMA
  {
    hide SkipElement, SkipWs, SkipCoding, RefName, RefParams, ReadParams, SameName, RefIsZstd;
    var b := SkipWs(RefName(e));
    NameAgrees(e);
    NameEnds(RefName(e));
    ZstdNameAgrees(CodingName(e));
    RefParamsNonNegative(b, 1000, false);
    ParamsAgree(StartParams(b));
    if b != [] && b[0] == SEMI {
      ResumeIsExact(b);
    } else {
      NoParams(b);
    }
  }

  lemma NoParams(b: Bytes)
    requires b == [] || b[0] == COMMA
    ensures SkipElement(b) == b && RefParams(b, 1000, false) == Some((1000, b))
  {
  }

  lemma {:induction false} WalkAgrees(t: Bytes, w: Weights)
    requires RefWalk(t, w).Some?
    ensures RefWalk(t, w).value == Walk(t, w, ZSTD)
    decreases |t|
  {
    var e := SkipSeparators(t);
    if e != [] {
      var (w1, rest) := RefElement(e, w).value;
      ElementAgrees(e, w);
      ElementEndsAtComma(e, w, ZSTD);
      WalkAgrees(rest, w1);
      var r := SkipElement(e);
      assert SkipSeparators(r) == SkipSeparators(DropComma(r));
    }
  }

  /** On every byte string: when the oracle is sure, the parser accepts exactly when the oracle does. */
  lemma ParserAgreesWithOracle(d: Bytes)
    ensures RefAccepts(d) != -1 ==> (RefAccepts(d) == 1 <==> CodingWeight(d, ZSTD, true) > 0)
  {
    if RefWalk(d, NONE).Some? {
      WalkAgrees(d, NONE);
    }
  }
}
