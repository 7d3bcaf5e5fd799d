/** Available-Dictionary: the strict base64 decoding of a digest, and the dictionary it selects. */
module DczDigest {
  import opened Basics
  import FrameProbe

  type Octets = seq<bv8>

  const COLON: bv8 := 58
  const PAD: bv8 := 61
  const BAD: bv8 := 77
  const DIGEST_LEN: nat := 32
  const DIGEST_B64_LEN: nat := 44
  const DECODE_BUF_LEN: nat := 48
  const BSEARCH_THRESHOLD: nat := 16

  // ----- the alphabet (section 4 of RFC 4648) -----

  /** The decoding table. */
  function Basis(c: bv8): bv8 {
    if 65 <= c <= 90 then c - 65
    else if 97 <= c <= 122 then c - 71
    else if 48 <= c <= 57 then c + 4
    else if c == 43 then 62
    else if c == 47 then 63
    else BAD
  }

  function Symbol(s: bv8): bv8
    requires s < 64
  {
    if s < 26 then s + 65 else if s < 52 then s + 71 else if s < 62 then s - 4 else if s == 62 then 43 else 47
  }

  lemma BasisOfSymbol(s: bv8)
    requires s < 64
    ensures Basis(Symbol(s)) == s && Symbol(s) != PAD
  {
  }

  lemma SymbolOfBasis(c: bv8)
    requires Basis(c) != BAD
    ensures Basis(c) < 64 && Symbol(Basis(c)) == c && c != PAD
  {
  }

  /** Table 1 of section 4 of RFC 4648. */
  lemma AlphabetIsStandard(s: bv8)
    requires s < 64
    ensures var k, c := s as int, Symbol(s) as int;
            && (k < 26 ==> c == "ABCDEFGHIJKLMNOPQRSTUVWXYZ"[k] as int)
            && (26 <= k < 52 ==> c == "abcdefghijklmnopqrstuvwxyz"[k - 26] as int)
            && (52 <= k < 62 ==> c == "0123456789"[k - 52] as int)
            && (62 <= k ==> c == "+/"[k - 62] as int)
  {
    SymbolNumber(s);
  }

  lemma SymbolNumber(s: bv8)
    requires s < 64
    ensures var k, c := s as int, Symbol(s) as int;
            c == if k < 26 then 65 + k else if k < 52 then 71 + k else if k < 62 then k - 4 else if k == 62 then 43 else 47
  {
  }

  // ----- encoding -----

  function First(a: bv8): (s: bv8)
    ensures s < 64
  { a >> 2 }

  function Second(a: bv8, b: bv8): (s: bv8)
    ensures s < 64
  { ((a & 3) << 4) | (b >> 4) }

  function Third(b: bv8, c: bv8): (s: bv8)
    ensures s < 64
  { ((b & 15) << 2) | (c >> 6) }

  function Fourth(c: bv8): (s: bv8)
    ensures s < 64
  { c & 63 }

  /** The symbols of an encoding, without its padding. */
  function Body(b: Octets): Octets {
    if |b| == 0 then []
    else if |b| == 1 then [Symbol(First(b[0])), Symbol(Second(b[0], 0))]
    else if |b| == 2 then [Symbol(First(b[0])), Symbol(Second(b[0], b[1])), Symbol(Third(b[1], 0))]
    else [Symbol(First(b[0])), Symbol(Second(b[0], b[1])), Symbol(Third(b[1], b[2])), Symbol(Fourth(b[2]))]
           + Body(b[3..])
  }

  function Padding(n: nat): Octets {
    if n % 3 == 0 then [] else if n % 3 == 1 then [PAD, PAD] else [PAD]
  }

  function Encode(b: Octets): Octets {
    Body(b) + Padding(|b|)
  }

  // ----- decoding -----

  function JoinFirst(s0: bv8, s1: bv8): bv8 { (s0 << 2) | (s1 >> 4) }

  function JoinSecond(s1: bv8, s2: bv8): bv8 { (s1 << 4) | (s2 >> 2) }

  function JoinThird(s2: bv8, s3: bv8): bv8 { (s2 << 6) | s3 }

  lemma JoinInverts(a: bv8, b: bv8, c: bv8)
    ensures JoinFirst(First(a), Second(a, b)) == a
    ensures JoinSecond(Second(a, b), Third(b, c)) == b
    ensures JoinThird(Third(b, c), Fourth(c)) == c
  {
  }

  lemma SplitInverts(s0: bv8, s1: bv8, s2: bv8, s3: bv8)
    requires s0 < 64 && s1 < 64 && s2 < 64 && s3 < 64
    ensures First(JoinFirst(s0, s1)) == s0
    ensures Second(JoinFirst(s0, s1), JoinSecond(s1, s2)) == s1
    ensures Third(JoinSecond(s1, s2), JoinThird(s2, s3)) == s2
    ensures Fourth(JoinThird(s2, s3)) == s3
    ensures Third(JoinSecond(s1, s2), 0) == Carried(s2)
  {
  }

  /** The four bits that the last of 43 symbols carries; the other two are ignored. */
  function Carried(s: bv8): bv8 { s & 0x3c }

  /** How many symbols come before the first pad, or none if an octet before it is no symbol. */
  function DataLength(s: Octets): (n: Option<nat>)
    ensures n.Some? ==> n.value <= |s|
  {
    if s == [] || s[0] == PAD then Some(0)
    else if Basis(s[0]) == BAD then None
    else match DataLength(s[1..]) case None => None case Some(k) => Some(k + 1)
  }

  /** The octets a run of symbols stands for. */
  function Groups(s: Octets): (b: Octets)
    ensures |b| <= (|s| + 3) / 4 * 3
  {
    if |s| > 3 then
      [JoinFirst(Basis(s[0]), Basis(s[1])), JoinSecond(Basis(s[1]), Basis(s[2])), JoinThird(Basis(s[2]), Basis(s[3]))]
        + Groups(s[4..])
    else (if |s| > 1 then [JoinFirst(Basis(s[0]), Basis(s[1]))] else [])
           + (if |s| > 2 then [JoinSecond(Basis(s[1]), Basis(s[2]))] else [])
  }

  function Decode(s: Octets): (b: Option<Octets>) {
    var n := DataLength(s);
    if |s| % 4 != 0 || n.None? || n.value % 4 == 1 then None else Some(Groups(s[..n.value]))
  }

  // ----- every octet string survives the round trip -----

  ghost predicate Symbols(s: Octets) {
    forall i :: 0 <= i < |s| ==> s[i] != PAD && Basis(s[i]) != BAD
  }

  function SymbolCount(n: nat): nat {
    n / 3 * 4 + (if n % 3 == 0 then 0 else n % 3 + 1)
  }

  lemma SymbolIs(s: bv8)
    requires s < 64
    ensures Symbol(s) != PAD && Basis(Symbol(s)) != BAD && Basis(Symbol(s)) == s
  {
    BasisOfSymbol(s);
  }

  lemma {:induction false} BodyIsSymbols(b: Octets)
    ensures Symbols(Body(b)) && |Body(b)| == SymbolCount(|b|)
  {
    hide Symbol, Basis, First, Second, Third, Fourth;
    if |b| > 0 {
      SymbolIs(First(b[0]));
      if |b| == 1 {
        SymbolIs(Second(b[0], 0));
      } else {
        SymbolIs(Second(b[0], b[1]));
        if |b| == 2 {
          SymbolIs(Third(b[1], 0));
        } else {
          SymbolIs(Third(b[1], b[2]));
          SymbolIs(Fourth(b[2]));
          BodyIsSymbols(b[3..]);
        }
      }
    }
  }

  lemma {:induction false} GroupsOfBody(b: Octets)
    ensures Groups(Body(b)) == b
  {
    hide Symbol, Basis, First, Second, Third, Fourth, JoinFirst, JoinSecond, JoinThird;
    if |b| > 0 {
      SymbolIs(First(b[0]));
      if |b| == 1 {
        SymbolIs(Second(b[0], 0));
        JoinInverts(b[0], 0, 0);
      } else {
        SymbolIs(Second(b[0], b[1]));
        if |b| == 2 {
          SymbolIs(Third(b[1], 0));
          JoinInverts(b[0], b[1], 0);
        } else {
          SymbolIs(Third(b[1], b[2]));
          SymbolIs(Fourth(b[2]));
          JoinInverts(b[0], b[1], b[2]);
          GroupsOfBody(b[3..]);
          assert Body(b)[4..] == Body(b[3..]);
        }
      }
    }
  }

  /** Symbols in front only add to the count. */
  lemma {:induction false} DataAfter(s: Octets, tail: Octets)
    requires Symbols(s) && (tail == [] || tail[0] == PAD)
    ensures DataLength(s + tail) == Some(|s|)
  {
    if s == [] {
      assert s + tail == tail;
    } else {
      assert (s + tail)[1..] == s[1..] + tail;
      DataAfter(s[1..], tail);
    }
  }

  /** An encoding comes in whole groups, and never with one symbol over. */
  lemma CountsAreWhole(n: nat)
    ensures (SymbolCount(n) + |Padding(n)|) % 4 == 0 && SymbolCount(n) % 4 != 1
  {
    var g, r := n / 3, n % 3;
    assert SymbolCount(n) == 4 * g + (if r == 0 then 0 else r + 1);
  }

  /** Decoding inverts encoding, whatever the length. */
  lemma RoundTrip(b: Octets)
    ensures Decode(Encode(b)) == Some(b)
  {
    hide Symbol, Basis, Body, Groups, DataLength, Symbols, SymbolCount, Padding;
    BodyIsSymbols(b);
    CountsAreWhole(|b|);
    PaddingStarts(|b|);
    DataAfter(Body(b), Padding(|b|));
    GroupsOfBody(b);
    assert Encode(b)[..|Body(b)|] == Body(b);
  }

  // ----- what decodes to a digest -----

  datatype Answer = Malformed | NotADigest | Digest(hash: Octets)

  /** The field value of Available-Dictionary, an RFC 8941 byte sequence, to the digest it carries. */
  function DigestOf(raw: Octets): Answer {
    if |raw| < 2 || raw[0] != COLON || raw[|raw| - 1] != COLON || |raw| - 2 > DIGEST_B64_LEN then Malformed
    else
      var b := Decode(raw[1..|raw| - 1]);
      if b.None? || |b.value| != DIGEST_LEN then NotADigest else Digest(b.value)
  }

  function Wrap(hash: Octets): Octets {
    [COLON] + Encode(hash) + [COLON]
  }

  lemma DigestRoundTrip(hash: Octets)
    requires |hash| == DIGEST_LEN
    ensures DigestOf(Wrap(hash)) == Digest(hash)
  {
    hide Encode, Decode;
    RoundTrip(hash);
    EncodedLength(hash);
    assert Wrap(hash)[1..|Wrap(hash)| - 1] == Encode(hash);
  }

  lemma EncodedLength(hash: Octets)
    requires |hash| == DIGEST_LEN
    ensures |Encode(hash)| == DIGEST_B64_LEN
  {
    BodyIsSymbols(hash);
  }

  lemma {:induction false} GroupsLength(s: Octets)
    ensures |Groups(s)| == |s| / 4 * 3 + (if |s| % 4 > 0 then |s| % 4 - 1 else 0)
  {
    hide Basis, JoinFirst, JoinSecond, JoinThird;
    if |s| > 3 {
      GroupsLength(s[4..]);
    }
  }

  lemma {:induction false} DataLengthIs(s: Octets)
    ensures var n := DataLength(s);
            n.Some? ==> Symbols(s[..n.value]) && (n.value < |s| ==> s[n.value] == PAD)
  {
    hide Basis;
    if s != [] && s[0] != PAD && DataLength(s).Some? {
      DataLengthIs(s[1..]);
      var n := DataLength(s).value;
      assert forall i :: 1 <= i < n ==> s[..n][i] == s[1..][..n - 1][i - 1];
    }
  }

  lemma PaddingStarts(n: nat)
    ensures Padding(n) == [] || Padding(n)[0] == PAD
  {
  }

  /** How many symbols make a digest. */
  lemma DigestCount(n: nat, len: nat)
    requires n <= len <= 44 && len % 4 == 0
    ensures n / 4 * 3 + (if n % 4 > 0 then n % 4 - 1 else 0) == 32 && n % 4 != 1 <==> n == 43
  {
    var g, r := n / 4, n % 4;
    assert n == 4 * g + r;
    if n < 43 {
      assert g < 10 || (g == 10 && r < 3);
    }
  }

  /** What stands between the colons of a value of that length. */
  lemma Inside(raw: Octets)
    requires |raw| == 46
    ensures raw[1..45][..43] == raw[1..44] && raw[1..45][43] == raw[44]
    ensures raw[44] == PAD ==> raw[1..45] == raw[1..44] + [PAD]
  {
  }

  /** Exactly one shape of field value is accepted: 43 symbols and one pad between colons. */
  lemma DigestShape(raw: Octets)
    ensures DigestOf(raw).Digest? <==>
              |raw| == 46 && raw[0] as int == ':' as int && raw[45] as int == ':' as int
              && Symbols(raw[1..44]) && raw[44] as int == '=' as int
    ensures DigestOf(raw).Digest? ==> DigestOf(raw).hash == Groups(raw[1..44]) && |DigestOf(raw).hash| == DIGEST_LEN
  {
    hide Basis, Groups, DataLength, Symbols;
    if 2 <= |raw| <= 46 {
      var b := raw[1..|raw| - 1];
      if |raw| == 46 {
        Inside(raw);
        if Symbols(raw[1..44]) && raw[44] == PAD {
          DataAfter(raw[1..44], [PAD]);
        }
      }
      DataLengthIs(b);
      if DataLength(b).Some? && |b| % 4 == 0 {
        GroupsLength(b[..DataLength(b).value]);
        DigestCount(DataLength(b).value, |b|);
      }
    }
  }

  /** An accepted value is the encoding of its digest, but for two bits of the last symbol that carry nothing. */
  lemma AcceptedIsEncoding(raw: Octets)
    requires DigestOf(raw).Digest?
    ensures var e := Wrap(DigestOf(raw).hash);
            && |e| == |raw| == 46
            && (forall i :: 0 <= i < 46 && i != 43 ==> e[i] == raw[i])
            && Basis(e[43]) == Carried(Basis(raw[43]))
  {
    hide Basis, Groups, Encode;
    DigestShape(raw);
    var s := raw[1..44];
    var h := Groups(s);
    EncodedLength(h);
    EncodedAgain(s);
    var e := Wrap(h);
    assert forall i :: 1 <= i < 45 ==> e[i] == Encode(h)[i - 1];
    assert forall i :: 1 <= i < 44 ==> raw[i] == s[i - 1];
  }

  lemma EncodedAgain(s: Octets)
    requires Symbols(s) && |s| == 43
    ensures |Groups(s)| == 32 && |Encode(Groups(s))| == 44 && Encode(Groups(s))[43] == PAD
    ensures forall i :: 0 <= i < 42 ==> Encode(Groups(s))[i] == s[i]
    ensures Basis(Encode(Groups(s))[42]) == Carried(Basis(s[42]))
  {
    hide Basis, Groups, Body;
    GroupsLength(s);
    BodyAgain(s);
    BodyIsSymbols(Groups(s));
  }

  lemma {:induction false} BodyAgain(s: Octets)
    requires Symbols(s) && |s| % 4 == 3
    ensures |Body(Groups(s))| == |s| && Body(Groups(s))[..|s| - 1] == s[..|s| - 1]
    ensures Basis(Body(Groups(s))[|s| - 1]) == Carried(Basis(s[|s| - 1]))
  {
    hide Basis, Groups, Body, Carried;
    if |s| == 3 {
      ThreeAgain(s);
    } else {
      var t := s[4..];
      FourAgain(s);
      assert Symbols(t);
      BodyAgain(t);
      InFront(s[..4], Body(Groups(t)), t);
      assert s == s[..4] + t;
    }
  }

  lemma InFront(head: Octets, a: Octets, b: Octets)
    requires |a| == |b| > 0 && a[..|a| - 1] == b[..|b| - 1]
    ensures (head + a)[..|head| + |a| - 1] == (head + b)[..|head| + |b| - 1]
    ensures (head + a)[|head| + |a| - 1] == a[|a| - 1] && (head + b)[|head| + |b| - 1] == b[|b| - 1]
  {
  }

  lemma ThreeAgain(s: Octets)
    requires Symbols(s) && |s| == 3
    ensures |Body(Groups(s))| == 3 && Body(Groups(s))[..2] == s[..2]
    ensures Basis(Body(Groups(s))[2]) == Carried(Basis(s[2]))
  {
    hide Basis, Symbol, First, Second, Third, Fourth, JoinFirst, JoinSecond, JoinThird;
    SymbolOfBasis(s[0]);
    SymbolOfBasis(s[1]);
    SymbolOfBasis(s[2]);
    SplitInverts(Basis(s[0]), Basis(s[1]), Basis(s[2]), 0);
    BasisOfSymbol(Third(JoinSecond(Basis(s[1]), Basis(s[2])), 0));
  }

  lemma FourAgain(s: Octets)
    requires Symbols(s) && |s| > 3
    ensures Body(Groups(s)) == s[..4] + Body(Groups(s[4..]))
  {
    hide Basis, Symbol, First, Second, Third, Fourth, JoinFirst, JoinSecond, JoinThird;
    SymbolOfBasis(s[0]);
    SymbolOfBasis(s[1]);
    SymbolOfBasis(s[2]);
    SymbolOfBasis(s[3]);
    SplitInverts(Basis(s[0]), Basis(s[1]), Basis(s[2]), Basis(s[3]));
    var b0, b1, b2, b3 := Basis(s[0]), Basis(s[1]), Basis(s[2]), Basis(s[3]);
    hide Body;
    BodyStep(JoinFirst(b0, b1), JoinSecond(b1, b2), JoinThird(b2, b3), Groups(s[4..]));
    assert s[..4] == [s[0], s[1], s[2], s[3]];
  }

  lemma BodyStep(a: bv8, b: bv8, c: bv8, rest: Octets)
    ensures Body([a, b, c] + rest) ==
              [Symbol(First(a)), Symbol(Second(a, b)), Symbol(Third(b, c)), Symbol(Fourth(c))] + Body(rest)
  {
    hide Symbol, First, Second, Third, Fourth;
    assert ([a, b, c] + rest)[3..] == rest;
  }

  /** Why the buffer is larger than a digest: 44 symbols without a pad decode, to 33 octets. */
  lemma UnpaddedDecodesTo33(s: Octets)
    requires Symbols(s) && |s| == DIGEST_B64_LEN
    ensures Decode(s).Some? && |Decode(s).value| == 33
  {
    hide Basis;
    DataAfter(s, []);
    assert s + [] == s && s[..44] == s;
    GroupsLength(s);
  }

  // ----- decoding in place -----

  /** The scan for the pad or for an octet outside the alphabet. */
  method ScanSymbols(src: Octets) returns (ok: bool, len: nat)
    ensures DataLength(src) == if ok then Some(len) else None
    ensures len <= |src|
  {
    hide Basis;
    len := 0;
    assert src[0..] == src;
    while len < |src|
      invariant len <= |src|
      invariant DataLength(src) == match DataLength(src[len..]) case None => None case Some(k) => Some(len + k)
    {
      assert src[len..][1..] == src[len + 1..];
      if src[len] == PAD {
        return true, len;
      }
      if Basis(src[len]) == BAD {
        return false, len;
      }
      len := len + 1;
    }
    assert src[len..] == [];
    ok := true;
  }

  /** Four symbols to three octets; `d` is the number of octets written. */
  method WriteGroups(src: Octets, dst: array<bv8>) returns (d: nat)
    requires dst.Length >= (|src| + 3) / 4 * 3
    modifies dst
    ensures d == |Groups(src)| <= dst.Length
    ensures dst[..d] == Groups(src)
    ensures forall i :: d <= i < dst.Length ==> dst[i] == old(dst[i])
  {
    hide Basis, JoinFirst, JoinSecond, JoinThird, Groups;
    d := 0;
    var s := 0;
    assert src[0..] == src;
    while |src| - s > 3
      invariant s <= |src| && 4 * d == 3 * s
      invariant d <= dst.Length && Groups(src) == dst[..d] + Groups(src[s..])
      invariant forall i :: d <= i < dst.Length ==> dst[i] == old(dst[i])
    {
      ghost var before := dst[..d];
      dst[d] := JoinFirst(Basis(src[s]), Basis(src[s + 1]));
      dst[d + 1] := JoinSecond(Basis(src[s + 1]), Basis(src[s + 2]));
      dst[d + 2] := JoinThird(Basis(src[s + 2]), Basis(src[s + 3]));
      GroupsStep(src, s);
      assert dst[..d + 3] == before + [dst[d], dst[d + 1], dst[d + 2]];
      d := d + 3;
      s := s + 4;
    }
    d := WriteTail(src[s..], dst, d);
  }

  /** The one or two octets of an incomplete last group. */
  method WriteTail(src: Octets, dst: array<bv8>, from: nat) returns (d: nat)
    requires |src| <= 3 && from + (if |src| > 1 then |src| - 1 else 0) <= dst.Length
    modifies dst
    ensures from <= d <= dst.Length && dst[..d] == old(dst[..from]) + Groups(src)
    ensures forall i :: d <= i < dst.Length ==> dst[i] == old(dst[i])
  {
    hide Basis, JoinFirst, JoinSecond, JoinThird;
    d := from;
    if |src| > 1 {
      dst[d] := JoinFirst(Basis(src[0]), Basis(src[1]));
      d := d + 1;
    }
    if |src| > 2 {
      dst[d] := JoinSecond(Basis(src[1]), Basis(src[2]));
      d := d + 1;
    }
    assert dst[..from] == old(dst[..from]);
    assert dst[from..d] == Groups(src);
    assert dst[..d] == dst[..from] + dst[from..d];
  }

  lemma GroupsStep(src: Octets, s: nat)
    requires s + 3 < |src|
    ensures Groups(src[s..]) == [JoinFirst(Basis(src[s]), Basis(src[s + 1])),
                                 JoinSecond(Basis(src[s + 1]), Basis(src[s + 2])),
                                 JoinThird(Basis(src[s + 2]), Basis(src[s + 3]))] + Groups(src[s + 4..])
  {
    hide Basis, JoinFirst, JoinSecond, JoinThird;
    assert src[s..][4..] == src[s + 4..];
  }

  method DecodeBase64(src: Octets, dst: array<bv8>) returns (rc: Rc, len: nat)
    requires dst.Length >= (|src| + 3) / 4 * 3
    modifies dst
    ensures rc == (if Decode(src).Some? then OK else ERROR)
    ensures rc == OK ==> len <= dst.Length && Decode(src) == Some(dst[..len])
    ensures forall i :: (|src| + 3) / 4 * 3 <= i < dst.Length ==> dst[i] == old(dst[i])
  {
    hide Groups, DataLength;
    rc, len := ERROR, 0;
    if |src| % 4 != 0 {
      return;
    }
    var ok, n := ScanSymbols(src);
    if !ok || n % 4 == 1 {
      return;
    }
    len := WriteGroups(src[..n], dst);
    rc := OK;
  }

  /** At most 33 octets of the buffer are written, on any input. */
  method DecodeDigest(raw: Octets, out: array<bv8>) returns (rc: Rc)
    requires out.Length >= DECODE_BUF_LEN
    modifies out
    ensures rc == match DigestOf(raw) case Malformed => DECLINED case NotADigest => ERROR case Digest(_) => OK
    ensures rc == OK ==> DigestOf(raw).hash == out[..DIGEST_LEN]
    ensures rc == DECLINED ==> out[..] == old(out[..])
    ensures forall i :: 33 <= i < out.Length ==> out[i] == old(out[i])
  {
    hide Decode;
    if |raw| < 2 || raw[0] != COLON || raw[|raw| - 1] != COLON || |raw| - 2 > DIGEST_B64_LEN {
      return DECLINED;
    }
    var len: nat;
    rc, len := DecodeBase64(raw[1..|raw| - 1], out);
    if rc != OK || len != DIGEST_LEN {
      return ERROR;
    }
  }

  // ----- the configured dictionaries -----

  datatype Dict = Dict(file: string, hash: Octets, prefix: seq<byte>)

  /** memcmp over two hashes. */
  function Compare(a: Octets, b: Octets): (c: int)
    requires |a| == |b|
    ensures c == 0 <==> a == b
  {
    if a == [] then 0
    else if a[0] < b[0] then -1
    else if a[0] > b[0] then 1
    else CompareTail(a, b); Compare(a[1..], b[1..])
  }

  lemma CompareTail(a: Octets, b: Octets)
    requires |a| == |b| > 0 && a[0] == b[0]
    ensures a[1..] == b[1..] ==> a == b
  {
    if a[1..] == b[1..] {
      assert a == [a[0]] + a[1..] == [b[0]] + b[1..] == b;
    }
  }

  lemma {:induction false} CompareTrans(a: Octets, b: Octets, c: Octets)
    requires |a| == |b| == |c|
    ensures Compare(a, b) < 0 && Compare(b, c) < 0 ==> Compare(a, c) < 0
    ensures Compare(b, a) == -Compare(a, b)
  {
    if a != [] {
      CompareTrans(a[1..], b[1..], c[1..]);
    }
  }

  /** The first octet that differs decides, and it compares unsigned. */
  lemma {:induction false} CompareIsMemcmp(a: Octets, b: Octets, k: nat)
    requires k < |a| == |b| && a[..k] == b[..k] && a[k] != b[k]
    ensures Compare(a, b) == if a[k] as int < b[k] as int then -1 else 1
  {
    if k > 0 {
      assert a[0] == a[..k][0] && b[0] == b[..k][0];
      assert a[1..][..k - 1] == a[..k][1..] && b[1..][..k - 1] == b[..k][1..];
      CompareIsMemcmp(a[1..], b[1..], k - 1);
    }
  }

  function Numbers(hash: Octets): seq<byte> {
    seq(|hash|, i requires 0 <= i < |hash| => hash[i] as int)
  }

  ghost predicate DictsOk(dicts: seq<Dict>) {
    && (forall i :: 0 <= i < |dicts| ==> DictOk(dicts[i]))
    && (forall i, j :: 0 <= i < j < |dicts| ==> dicts[i].hash != dicts[j].hash)
  }

  ghost predicate DictOk(d: Dict) {
    |d.hash| == DIGEST_LEN && d.prefix == FrameProbe.DczPrefix(Numbers(d.hash))
  }

  ghost predicate Sorted(dicts: seq<Dict>)
    requires DictsOk(dicts)
  {
    forall i, j :: 0 <= i < j < |dicts| ==>
      DictOk(dicts[i]) && DictOk(dicts[j]) && Compare(dicts[i].hash, dicts[j].hash) < 0
  }

  /** Registering a dictionary: a hash already there is a configuration error. */
  method AddDict(dicts: seq<Dict>, file: string, hash: Octets) returns (all: seq<Dict>, rc: Rc)
    requires DictsOk(dicts) && |hash| == DIGEST_LEN
    ensures DictsOk(all)
    ensures rc == ERROR <==> exists i :: 0 <= i < |dicts| && dicts[i].hash == hash
    ensures rc == ERROR ==> all == dicts
    ensures rc != ERROR ==> all == dicts + [Dict(file, hash, FrameProbe.DczPrefix(Numbers(hash)))]
    ensures rc != ERROR ==> var p := all[|dicts|].prefix;
              |p| == 40 && p[..8] == [0x5E, 0x2A, 0x4D, 0x18, 0x20, 0, 0, 0] && forall k :: 0 <= k < 32 ==> p[8 + k] == hash[k] as int
  {
    for i := 0 to |dicts|
      invariant forall k :: 0 <= k < i ==> dicts[k].hash != hash
    {
      if Compare(dicts[i].hash, hash) == 0 {
        return dicts, ERROR;
      }
    }
    all, rc := dicts + [Dict(file, hash, FrameProbe.DczPrefix(Numbers(hash)))], OK;
  }

  /** Where the dictionary with this hash is. */
  ghost predicate Finds(dicts: seq<Dict>, hash: Octets, at: Option<nat>) {
    match at
    case Some(i) => i < |dicts| && dicts[i].hash == hash
    case None => forall i :: 0 <= i < |dicts| ==> dicts[i].hash != hash
  }

  /** Everything on the near side of a mismatch is a mismatch too. */
  lemma NotThere(dicts: seq<Dict>, mid: nat, k: nat, hash: Octets)
    requires DictsOk(dicts) && Sorted(dicts) && |hash| == DIGEST_LEN && mid < |dicts| && k < |dicts|
    requires DictOk(dicts[mid]) && DictOk(dicts[k]) && Compare(dicts[mid].hash, hash) != 0
    requires if Compare(dicts[mid].hash, hash) < 0 then k <= mid else k >= mid
    ensures dicts[k].hash != hash
  {
    var m, h := dicts[mid].hash, dicts[k].hash;
    CompareTrans(h, m, hash);
    CompareTrans(m, hash, h);
    CompareTrans(hash, m, h);
  }

  method BinarySearch(dicts: seq<Dict>, hash: Octets) returns (at: Option<nat>)
    requires DictsOk(dicts) && Sorted(dicts) && |hash| == DIGEST_LEN
    ensures Finds(dicts, hash, at)
  {
    hide Compare;
    var lo, hi := 0, |dicts| - 1;
    while lo <= hi
      invariant 0 <= lo && hi < |dicts| && lo <= hi + 1
      invariant forall k :: 0 <= k < |dicts| && !(lo <= k <= hi) ==> dicts[k].hash != hash
      decreases hi + 1 - lo
    {
      var mid := (lo + hi) / 2;
      assert DictOk(dicts[mid]);
      var c := Compare(dicts[mid].hash, hash);
      if c == 0 {
        return Some(mid);
      }
      forall k | 0 <= k < |dicts| && (if c < 0 then k <= mid else k >= mid)
        ensures dicts[k].hash != hash
      {
        NotThere(dicts, mid, k, hash);
      }
      if c < 0 {
        lo := mid + 1;
      } else {
        hi := mid - 1;
      }
    }
    at := None;
  }

  /** Linear up to the threshold, binary above it; both find a member and nothing else. */
  method Lookup(dicts: seq<Dict>, hash: Octets) returns (at: Option<nat>)
    requires DictsOk(dicts) && Sorted(dicts) && |hash| == DIGEST_LEN
    ensures Finds(dicts, hash, at)
  {
    if |dicts| > BSEARCH_THRESHOLD {
      at := BinarySearch(dicts, hash);
      return;
    }
    for i := 0 to |dicts|
      invariant forall k :: 0 <= k < i ==> dicts[k].hash != hash
    {
      assert DictOk(dicts[i]);
      if Compare(dicts[i].hash, hash) == 0 {
        return Some(i);
      }
    }
    at := None;
  }

  /** Sorting keeps the dictionaries, so what was registered is found wherever the sort put it. */
  lemma SortedFindsRegistered(registered: seq<Dict>, sorted: seq<Dict>, d: Dict, at: Option<nat>)
    requires DictsOk(registered) && DictsOk(sorted) && multiset(registered) == multiset(sorted)
    requires Finds(sorted, d.hash, at)
    ensures d in registered ==> at.Some? && sorted[at.value] == d
    ensures (forall e :: e in registered ==> e.hash != d.hash) ==> at == None
  {
    if d in registered {
      assert d in multiset(sorted);
      var k :| 0 <= k < |sorted| && sorted[k] == d;
    }
    if at.Some? {
      assert sorted[at.value] in multiset(sorted);
      assert sorted[at.value] in registered;
    }
  }

  /** A permutation of registered dictionaries is still a set of distinct, well-formed ones. */
  lemma PermutationOk(registered: seq<Dict>, sorted: seq<Dict>)
    requires DictsOk(registered) && multiset(registered) == multiset(sorted)
    ensures DictsOk(sorted)
  {
    forall i | 0 <= i < |sorted|
      ensures DictOk(sorted[i])
    {
      assert sorted[i] in multiset(sorted);
    }
    forall i, j | 0 <= i < j < |sorted|
      ensures sorted[i].hash != sorted[j].hash
    {
      DistinctStill(registered, sorted, i, j);
    }
  }

  lemma DistinctStill(registered: seq<Dict>, sorted: seq<Dict>, i: nat, j: nat)
    requires DictsOk(registered) && multiset(registered) == multiset(sorted) && i < j < |sorted|
    ensures sorted[i].hash != sorted[j].hash
  {
    var a, b := sorted[i], sorted[j];
    assert a in multiset(sorted) && b in multiset(sorted);
    assert a in registered && b in registered;
    var k :| 0 <= k < |registered| && registered[k] == a;
    var l :| 0 <= l < |registered| && registered[l] == b;
    OnlyOnce(registered, k);
    NotTwice(sorted, i, j);
    assert k != l;
  }

  lemma NotTwice(s: seq<Dict>, i: nat, j: nat)
    requires i < j < |s| && multiset(s)[s[i]] == 1
    ensures s[i] != s[j]
  {
    assert s == s[..i] + [s[i]] + s[i + 1..j] + [s[j]] + s[j + 1..];
    assert multiset(s) == multiset(s[..i]) + multiset{s[i]} + multiset(s[i + 1..j]) + multiset{s[j]} + multiset(s[j + 1..]);
  }

  lemma OnlyOnce(s: seq<Dict>, k: nat)
    requires k < |s| && forall i :: 0 <= i < |s| && i != k ==> s[i] != s[k]
    ensures multiset(s)[s[k]] == 1
  {
    assert s == s[..k] + [s[k]] + s[k + 1..];
    assert s[k] !in multiset(s[..k]) && s[k] !in multiset(s[k + 1..]);
  }

  // ----- from the field value to the dictionary -----

  /** Position of the dictionary with this hash. */
  function IndexOf(dicts: seq<Dict>, hash: Octets): (at: Option<nat>)
    ensures Finds(dicts, hash, at)
  {
    if dicts == [] then None
    else if dicts[|dicts| - 1].hash == hash then Some(|dicts| - 1)
    else IndexOf(dicts[..|dicts| - 1], hash)
  }

  lemma FindsIsIndexOf(dicts: seq<Dict>, hash: Octets, at: Option<nat>)
    requires DictsOk(dicts) && Finds(dicts, hash, at)
    ensures at == IndexOf(dicts, hash)
  {
    var other := IndexOf(dicts, hash);
    assert Finds(dicts, hash, other);
  }

  /** The dictionary a field value selects. */
  function Selected(dicts: seq<Dict>, raw: Octets): Option<nat> {
    match DigestOf(raw)
    case Digest(hash) => IndexOf(dicts, hash)
    case _ => None
  }

  method Select(dicts: seq<Dict>, raw: Octets) returns (at: Option<nat>)
    requires DictsOk(dicts) && Sorted(dicts)
    ensures at == Selected(dicts, raw)
  {
    hide DigestOf, IndexOf, Sorted;
    var buf := new bv8[DECODE_BUF_LEN];
    var rc := DecodeDigest(raw, buf);
    if rc != OK {
      return None;
    }
    at := Lookup(dicts, buf[..DIGEST_LEN]);
    FindsIsIndexOf(dicts, buf[..DIGEST_LEN], at);
  }

  /** A client that announces a registered dictionary gets exactly that one, in whatever order the sort left them,
      and the prefix sent for it reads as one skippable frame of 32 bytes; any other digest gets none. */
  lemma AnnouncedIsSelected(registered: seq<Dict>, sorted: seq<Dict>, d: Dict, hash: Octets, body: seq<byte>)
    requires DictsOk(registered) && multiset(registered) == multiset(sorted) && |hash| == DIGEST_LEN
    ensures d in registered && d.hash == hash ==>
              && Selected(sorted, Wrap(hash)).Some? && sorted[Selected(sorted, Wrap(hash)).value] == d
              && FrameProbe.Probe(d.prefix + body) == FrameProbe.Skip(32)
              && |d.prefix| == 40 && forall k :: 0 <= k < 32 ==> d.prefix[8 + k] == hash[k] as int
    ensures (forall e :: e in registered ==> e.hash != hash) ==> Selected(sorted, Wrap(hash)) == None
  {
    hide DigestOf, IndexOf, FrameProbe.Probe;
    PermutationOk(registered, sorted);
    DigestRoundTrip(hash);
    SortedFindsRegistered(registered, sorted, Dict("", hash, []), IndexOf(sorted, hash));
    if d in registered && d.hash == hash {
      SortedFindsRegistered(registered, sorted, d, IndexOf(sorted, hash));
      assert DictOk(d);
      FrameProbe.ProbeOfDczPrefix(Numbers(hash), body);
    }
  }
}
