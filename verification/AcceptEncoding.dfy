/** The Accept-Encoding parser (sections 12.4.2 and 12.5.3 of RFC 9110), as functions. */
module AcceptEncoding {
  import opened Basics

  type Bytes = seq<byte>

  const SP: byte := 32
  const HT: byte := 9
  const DQUOTE: byte := 34
  const STAR: byte := 42
  const COMMA: byte := 44
  const DOT: byte := 46
  const ZERO: byte := 48
  const ONE: byte := 49
  const NINE: byte := 57
  const SEMI: byte := 59
  const EQUALS: byte := 61
  const BACKSLASH: byte := 92
  const LOWER_Q: byte := 113
  const UPPER_Q: byte := 81

  /** "Accept-Encoding". */
  const ACCEPT_ENCODING: Bytes := [65, 99, 99, 101, 112, 116, 45, 69, 110, 99, 111, 100, 105, 110, 103]

  /** "zstd". */
  const ZSTD: Bytes := [122, 115, 116, 100]

  /** A byte sequence spells a text. */
  predicate Spells(b: Bytes, text: string) {
    |b| == |text| && forall i :: 0 <= i < |b| ==> b[i] == text[i] as int
  }

  lemma Spelled()
    ensures Spells(ACCEPT_ENCODING, "Accept-Encoding") && Spells(ZSTD, "zstd")
    ensures Spells([SP, HT, DQUOTE, STAR, COMMA, DOT, ZERO, ONE, NINE, SEMI, EQUALS, BACKSLASH, LOWER_Q, UPPER_Q],
                   " \t\"*,.019;=\\qQ")
  {
  }

  predicate IsWs(b: byte) {
    b == SP || b == HT
  }

  predicate IsDigit(b: byte) {
    ZERO <= b <= NINE
  }

  /** ngx_tolower: ASCII only. */
  function Lower(b: byte): byte {
    if 65 <= b <= 90 then b + 32 else b
  }

  // ----- scans, each as a function from the remaining bytes to those it leaves -----

  function SkipWs(t: Bytes): (r: Bytes)
    ensures |r| <= |t|
  {
    if t != [] && IsWs(t[0]) then SkipWs(t[1..]) else t
  }

  function TrimWsRight(t: Bytes): (r: Bytes)
    ensures |r| <= |t| && r == t[..|r|]
    ensures r != [] ==> !IsWs(r[|r| - 1])
    ensures forall i :: |r| <= i < |t| ==> IsWs(t[i])
  {
    if t != [] && IsWs(t[|t| - 1]) then TrimWsRight(t[..|t| - 1]) else t
  }

  lemma TrimIs(t: Bytes, k: nat)
    requires k <= |t| && (k > 0 ==> !IsWs(t[k - 1])) && forall i :: k <= i < |t| ==> IsWs(t[i])
    ensures TrimWsRight(t) == t[..k]
  {
    var r := TrimWsRight(t);
    assert |r| > 0 ==> t[|r| - 1] == r[|r| - 1];
  }

  predicate AllWs(s: Bytes) {
    forall i :: 0 <= i < |s| ==> IsWs(s[i])
  }

  lemma {:induction false} WsOver(s: Bytes, t: Bytes)
    requires AllWs(s) && (t == [] || !IsWs(t[0]))
    ensures SkipWs(s + t) == t
  {
    if s == [] {
      assert s + t == t;
    } else {
      assert (s + t)[1..] == s[1..] + t;
      WsOver(s[1..], t);
    }
  }

  /** What is left of a list member without the white space around it. */
  lemma Strip(before: Bytes, name: Bytes, after: Bytes)
    requires AllWs(before) && AllWs(after) && (name != [] ==> !IsWs(name[0]) && !IsWs(name[|name| - 1]))
    ensures TrimWsRight(SkipWs(before + name + after)) == name
  {
    if name == [] {
      assert before + name + after == (before + after) + [];
      WsOver(before + after, []);
    } else {
      assert before + name + after == before + (name + after);
      WsOver(before, name + after);
      TrimIs(name + after, |name|);
      assert (name + after)[..|name|] == name;
    }
  }

  /** OWS and empty list elements. */
  function SkipSeparators(t: Bytes): (r: Bytes)
    ensures |r| <= |t|
    ensures r != [] ==> !IsWs(r[0]) && r[0] != COMMA
  {
    if t != [] && (IsWs(t[0]) || t[0] == COMMA) then SkipSeparators(t[1..]) else t
  }

  /** Past the closing DQUOTE, given the bytes after the opening one; a quoted-pair hides its octet. */
  function Unquote(t: Bytes): (r: Bytes)
    ensures |r| <= |t|
  {
    if t == [] then []
    else if t[0] == DQUOTE then t[1..]
    else if t[0] == BACKSLASH && |t| > 1 then Unquote(t[2..])
    else Unquote(t[1..])
  }

  function SkipQuoted(t: Bytes): (r: Bytes)
    ensures |r| <= |t|
    ensures t != [] && t[0] == DQUOTE ==> |r| < |t|
  {
    if t == [] || t[0] != DQUOTE then t else Unquote(t[1..])
  }

  /** To the next top-level ','. */
  function SkipElement(t: Bytes): (r: Bytes)
    ensures |r| <= |t|
    ensures t != [] && t[0] != COMMA ==> |r| < |t|
    decreases |t|
  {
    if t == [] || t[0] == COMMA then t
    else if t[0] == DQUOTE then SkipElement(SkipQuoted(t))
    else SkipElement(t[1..])
  }

  /** To the next top-level ';' or ','. */
  function SkipValue(t: Bytes): (r: Bytes)
    ensures |r| <= |t|
    decreases |t|
  {
    if t == [] || t[0] == COMMA || t[0] == SEMI then t
    else if t[0] == DQUOTE then SkipValue(SkipQuoted(t))
    else SkipValue(t[1..])
  }

  predicate EndsParamName(b: byte) {
    b == EQUALS || b == SEMI || b == COMMA || IsWs(b)
  }

  function SkipParamName(t: Bytes): (r: Bytes)
    ensures |r| <= |t|
  {
    if t == [] || EndsParamName(t[0]) then t else SkipParamName(t[1..])
  }

  predicate EndsCoding(b: byte) {
    IsWs(b) || b == SEMI || b == COMMA || b == DQUOTE
  }

  function SkipCoding(t: Bytes): (r: Bytes)
    ensures |r| <= |t|
  {
    if t == [] || EndsCoding(t[0]) then t else SkipCoding(t[1..])
  }

  lemma DigitBound(digit: nat, scale: nat)
    requires digit <= 9
    ensures 0 <= digit * scale <= 9 * scale
  {
    if digit < 9 {
      MulStep(scale, digit, 9);
    }
  }

  /** Up to three digits of weight 100, 10 and 1. */
  function Fraction(t: Bytes, scale: nat): (r: (nat, Bytes))
    ensures |r.1| <= |t|
    ensures scale in {100, 10, 1, 0} ==> r.0 <= (if scale == 100 then 999 else if scale == 10 then 99 else 9)
    ensures scale == 0 ==> r.0 == 0
  {
    if scale == 0 || t == [] || !IsDigit(t[0]) then (0, t)
    else
      var (f, rest) := Fraction(t[1..], scale / 10);
      DigitBound(t[0] - ZERO, scale);
      ((t[0] - ZERO) * scale + f, rest)
  }

  function SkipZeros(t: Bytes, n: nat): (r: Bytes)
    ensures |r| <= |t|
  {
    if n == 0 || t == [] || t[0] != ZERO then t else SkipZeros(t[1..], n - 1)
  }

  // ----- parameters -----

  /** The state of the parameter walk: the weight, whether "q" was seen, whether a parameter name held a
      DQUOTE, where the walk stands, and whether it stopped on something malformed. */
  datatype Params = Params(q: int, qSeen: bool, quoted: bool, rest: Bytes, bad: bool)

  /** The qvalue grammar, leading digit 0 or 1. */
  function ReadQvalue(t: Bytes): (r: (int, Bytes))
    ensures |r.1| <= |t| && -1 <= r.0 <= 1000
  {
    if t != [] && t[0] == ZERO then
      if |t| > 1 && t[1] == DOT then Fraction(t[2..], 100) else (0, t[1..])
    else if t != [] && t[0] == ONE then
      (1000, if |t| > 1 && t[1] == DOT then SkipZeros(t[2..], 3) else t[1..])
    else (-1, t)
  }

  predicate EndsQvalue(t: Bytes) {
    t == [] || IsWs(t[0]) || t[0] == SEMI || t[0] == COMMA
  }

  predicate EndsParam(t: Bytes) {
    t == [] || t[0] == SEMI || t[0] == COMMA
  }

  /** After a parameter only ';', ',' or the end may follow. */
  function FinishParam(w: Params, t: Bytes): (r: Params)
    ensures |r.rest| <= |t| && r.quoted == w.quoted && r.q == w.q
  {
    var rest := SkipWs(t);
    w.(rest := rest, bad := !EndsParam(rest))
  }

  function ParamName(t: Bytes): Bytes {
    t[..|t| - |SkipParamName(t)|]
  }

  predicate IsQ(name: Bytes) {
    |name| == 1 && (name[0] == LOWER_Q || name[0] == UPPER_Q)
  }

  /** What follows the '=': a strict and unrepeated qvalue, or any other value, quotes included. */
  function ReadParamValue(v: Params, value: Bytes, isQ: bool): (r: Params)
    requires -1 <= v.q <= 1000
    ensures |r.rest| <= |value| && -1 <= r.q <= 1000 && r.quoted == v.quoted
  {
    if isQ then
      var (q, rest) := ReadQvalue(value);
      if v.qSeen || q < 0 then v.(rest := value, bad := true)
      else if !EndsQvalue(rest) then v.(q := q, qSeen := true, rest := rest, bad := true)
      else FinishParam(v.(q := q, qSeen := true), rest)
    else FinishParam(v, SkipValue(value))
  }

  /** What follows a parameter name. */
  function AfterName(v: Params, name: Bytes, t: Bytes): (r: Params)
    requires -1 <= v.q <= 1000
    ensures |r.rest| <= |t| && -1 <= r.q <= 1000 && r.quoted == v.quoted
  {
    if name == [] then v.(rest := t, bad := true)
    else
      var b := SkipWs(t);
      if b != [] && b[0] == EQUALS then ReadParamValue(v, SkipWs(b[1..]), IsQ(name))
      else if IsQ(name) then v.(rest := b, bad := true)
      else FinishParam(v, b)
  }

  /** One parameter; the walk stands on its ';'. */
  function ReadParam(w: Params): (r: Params)
    requires w.rest != [] && w.rest[0] == SEMI && -1 <= w.q <= 1000
    ensures |r.rest| < |w.rest| && -1 <= r.q <= 1000
  {
    var t := SkipWs(w.rest[1..]);
    AfterName(w.(quoted := w.quoted || DQUOTE in ParamName(t), rest := []), ParamName(t), SkipParamName(t))
  }

  function ReadParams(w: Params): (r: Params)
    requires -1 <= w.q <= 1000
    ensures |r.rest| <= |w.rest| && -1 <= r.q <= 1000
    decreases |w.rest|
  {
    if w.bad || w.rest == [] || w.rest[0] != SEMI then w else ReadParams(ReadParam(w))
  }

  function StartParams(t: Bytes): Params {
    Params(1000, false, false, t, false)
  }

  /** The weight of the parameters at `t`, which starts with ';', and where the caller resumes: after a
      DQUOTE inside a parameter name that is the ';' itself. */
  function EvalQvalue(t: Bytes): (r: (int, Bytes))
    ensures -1 <= r.0 <= 1000 && |r.1| <= |t|
    ensures t != [] && t[0] == SEMI ==> r.1 == t || |r.1| < |t|
  {
    var w := ReadParams(StartParams(t));
    (if w.bad then -1 else w.q, if w.quoted then t else w.rest)
  }

  /** The classes of octets, each written out: white space is a space or a tab, and letters differ in bit 0x20. */
  lemma Classes(b: byte)
    ensures IsWs(b) <==> b in {0x20, 0x09}
    ensures IsDigit(b) <==> 0x30 <= b <= 0x39
    ensures EndsParamName(b) <==> b in {0x3D, 0x3B, 0x2C, 0x20, 0x09}
    ensures EndsCoding(b) <==> b in {0x3B, 0x2C, 0x22, 0x20, 0x09}
    ensures EndsParam([b]) <==> b in {0x3B, 0x2C}
    ensures EndsQvalue([b]) <==> b in {0x3B, 0x2C, 0x20, 0x09}
    ensures IsQ([b]) <==> b in {0x51, 0x71}
    ensures forall a: byte :: Lower(a) == Lower(b) <==>
              a == b || (0x41 <= a <= 0x5A && b == a + 0x20) || (0x61 <= a <= 0x7A && b + 0x20 == a)
  {
  }

  /** A weight without its '=', or a second one, spoils the element. */
  lemma MalformedWeight(w: Params, before: Bytes, q: byte, gap: Bytes, tail: Bytes)
    requires -1 <= w.q <= 1000 && w.rest == [SEMI] + (before + ([q] + (gap + tail)))
    requires AllWs(before) && AllWs(gap) && (tail != [] ==> !IsWs(tail[0]))
    requires (q == 0x51 || q == 0x71) && (gap != [] || tail == [] || EndsParamName(tail[0]))
    requires tail == [] || tail[0] != EQUALS || w.qSeen
    ensures ReadParam(w).bad
  {
    var rest := gap + tail;
    var t := [q] + rest;
    assert w.rest[1..] == before + t;
    WsOver(before, t);
    assert t[1..] == rest;
    assert SkipParamName(rest) == rest;
    assert ParamName(t) == [q];
    WsOver(gap, tail);
  }

  // ----- list elements -----

  /** The weights seen so far: the coding's own, and the wildcard's; -1 when absent. */
  datatype Weights = Weights(coding: int, star: int)

  const NONE: Weights := Weights(-1, -1)

  /** ngx_strncasecmp(...) == 0 on equal lengths, for a name without NUL bytes. */
  predicate SameName(a: Bytes, b: Bytes) {
    |a| == |b| && forall i :: 0 <= i < |a| ==> Lower(a[i]) == Lower(b[i])
  }

  function CodingName(t: Bytes): Bytes {
    t[..|t| - |SkipCoding(t)|]
  }

  /** What one element adds; a later duplicate wins, and a malformed weight adds nothing. */
  function Record(w: Weights, name: Bytes, clean: bool, q: int, coding: Bytes): Weights {
    if q < 0 || !clean then w
    else if SameName(name, coding) then w.(coding := q)
    else if name == [STAR] then w.(star := q)
    else w
  }

  /** One element at the front of `t`, which does not start with a separator. */
  function ReadElement(t: Bytes, w: Weights, coding: Bytes): (r: (Weights, Bytes))
    requires t != [] && !IsWs(t[0]) && t[0] != COMMA
    ensures |r.1| < |t|
  {
    var b := SkipWs(SkipCoding(t));
    var (q, rest) := if b != [] && b[0] == SEMI then EvalQvalue(b) else (1000, b);
    (Record(w, CodingName(t), EndsParam(b), q, coding), SkipElement(rest))
  }

  /** The whole field value. */
  function Walk(t: Bytes, w: Weights, coding: Bytes): Weights
    decreases |t|
  {
    var e := SkipSeparators(t);
    if e == [] then w
    else
      var (w1, rest) := ReadElement(e, w, coding);
      Walk(rest, w1, coding)
  }

  /** An explicit token decides; the wildcard only when allowed. */
  function Effective(w: Weights, allowWildcard: bool): int {
    if w.coding >= 0 then w.coding
    else if allowWildcard && w.star >= 0 then w.star
    else -1
  }

  function CodingWeight(value: Bytes, coding: Bytes, allowWildcard: bool): int {
    Effective(Walk(value, NONE, coding), allowWildcard)
  }
}
