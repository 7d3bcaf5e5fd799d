/** The frame-header probe of a static .zst file: pure arithmetic over the leading bytes of a frame
    (sections 3.1.1.1 and 3.1.2 of RFC 8878). */
module FrameProbe {
  import opened Basics

  const ZSTD_MAGIC: nat := 0xFD2FB528
  const SKIPPABLE_START: nat := 0x184D2A50
  const MAX_WINDOW: nat := 8 * 1024 * 1024
  const MAX_SKIP_FRAMES: nat := 4
  /** The longest frame header the probe reads. */
  const HEADER_MAX: nat := 18

  datatype Verdict = NotZstd | Truncated | WindowBig(window: nat) | Skip(length: nat) | Reserved | FrameOk

  function Little(b: seq<byte>): nat {
    if b == [] then 0 else b[0] + 256 * Little(b[1..])
  }

  function Pow2(n: nat): (r: nat)
    ensures r >= 1
  {
    if n == 0 then 1 else 2 * Pow2(n - 1)
  }

  /** Window_Size from a Window_Descriptor byte: a power of two and a number of its eighths. */
  function DescribedWindow(d: byte): nat {
    var w := Pow2(10 + d / 8);
    w + (w / 8) * (d % 8)
  }

  /** Sizes of the Dictionary_ID and Frame_Content_Size fields of a single-segment frame. */
  function DictIdSize(flag: nat): nat {
    if flag == 3 then 4 else flag
  }

  function ContentSizeSize(flag: nat): nat {
    if flag == 0 then 1 else Pow2(flag)
  }

  predicate IsSkippable(magic: nat) {
    magic / 16 == SKIPPABLE_START / 16
  }

  /** The verdict on the bytes available from the start of a frame. */
  function Probe(h: seq<byte>): Verdict
    requires |h| >= 4
  {
    var magic := Little(h[..4]);
    if magic != ZSTD_MAGIC && !IsSkippable(magic) then NotZstd
    else if magic != ZSTD_MAGIC then
      if |h| < 8 then Truncated else Skip(Little(h[4..8]))
    else if |h| < 5 then Truncated
    else
      var fhd := h[4];
      if (fhd / 8) % 2 == 1 then Reserved
      else if (fhd / 32) % 2 == 0 then
        if |h| < 6 then Truncated else WindowVerdict(DescribedWindow(h[5]))
      else
        var size := ContentSizeSize(fhd / 64);
        var off := 5 + DictIdSize(fhd % 4);
        if |h| < off + size then Truncated
        else WindowVerdict(Little(h[off..off + size]) + (if size == 2 then 256 else 0))
  }

  function WindowVerdict(w: nat): Verdict {
    if w > MAX_WINDOW then WindowBig(w) else FrameOk
  }

  lemma ContentSizeSizes(flag: nat)
    requires flag < 4
    ensures ContentSizeSize(flag) == [1, 2, 4, 8][flag]
  {
    assert Pow2(1) == 2 && Pow2(2) == 4 && Pow2(3) == 8;
  }

  /** More bytes change nothing once the longest header is there: the verdict may be taken from any read
      that delivered 18 bytes, or all that the file has left. */
  lemma ProbeIsStable(a: seq<byte>, b: seq<byte>)
    requires 4 <= |a| && a <= b && (|a| >= 18 || a == b)
    ensures Probe(a) == Probe(b)
  {
    assert a[..4] == b[..4];
    if |a| >= 18 {
      var fhd := a[4];
      ContentSizeSizes(fhd / 64);
      var size := ContentSizeSize(fhd / 64);
      var off := 5 + DictIdSize(fhd % 4);
      assert a[4..8] == b[4..8];
      assert a[off..off + size] == b[off..off + size];
    }
  }

  /** A decision from a shorter read is never a wrong "serve": it is the verdict on all the bytes. */
  lemma ProbeIsMonotone(a: seq<byte>, b: seq<byte>)
    requires 4 <= |a| && a <= b && Probe(a) != Truncated
    ensures Probe(a) == Probe(b)
  {
    assert a[..4] == b[..4];
    if |a| >= 8 {
      assert a[4..8] == b[4..8];
    }
    if Little(a[..4]) == ZSTD_MAGIC {
      var size := ContentSizeSize(a[4] / 64);
      var off := 5 + DictIdSize(a[4] % 4);
      if |a| >= off + size {
        assert a[off..off + size] == b[off..off + size];
      }
    }
  }

  // ----- the header layout of the standard, written forwards -----

  /** A frame header by its fields. With `single`, there is no Window_Descriptor and the window is the
      content size. */
  datatype Header = Header(single: bool, unused: bool, reserved: bool, checksum: bool, sizeFlag: nat, idFlag: nat,
                           exponent: nat, mantissa: nat, dictId: seq<byte>, contentSize: seq<byte>)
  {
    predicate Valid() {
      && sizeFlag < 4 && idFlag < 4 && exponent < 32 && mantissa < 8
      && |dictId| == [0, 1, 2, 4][idFlag]
      && |contentSize| == if sizeFlag == 0 && !single then 0 else [1, 2, 4, 8][sizeFlag]
    }

    function Descriptor(): byte
      requires Valid()
    {
      sizeFlag * 64 + (if single then 32 else 0) + (if unused then 16 else 0) + (if reserved then 8 else 0)
        + (if checksum then 4 else 0) + idFlag
    }

    function Encode(): seq<byte>
      requires Valid()
    {
      [0x28, 0xB5, 0x2F, 0xFD] + [Descriptor()] + (if single then [] else [8 * exponent + mantissa]) + dictId + contentSize
    }

    /** Window_Size: by section 3.1.1.1.2, 2^(10 + Exponent) and Mantissa eighths of it. */
    function Window(): nat
      requires Valid()
    {
      if single then Little(contentSize) + (if |contentSize| == 2 then 256 else 0)
      else Pow2(7 + exponent) * (8 + mantissa)
    }
  }

  /** Reading inverts writing: whatever follows the header, the probe serves exactly the frames whose reserved
      bit is clear and whose declared window is at most 8 MB, and reports a larger window as it is. */
  lemma ProbeOfHeader(h: Header, body: seq<byte>)
    requires h.Valid()
    ensures Probe(h.Encode() + body) ==
              if h.reserved then Reserved
              else if h.Window() > 8388608 then WindowBig(h.Window())
              else FrameOk
  {
    var e := h.Encode() + body;
    assert e[..4] == [0x28, 0xB5, 0x2F, 0xFD];
    MagicBytes();
    var fhd := e[4];
    DescriptorFields(h);
    ContentSizeSizes(h.sizeFlag);
    if !h.single {
      assert e[5] == 8 * h.exponent + h.mantissa;
      WindowOf(h.exponent, h.mantissa);
    } else {
      var off := 5 + |h.dictId|;
      assert e[off..off + |h.contentSize|] == h.contentSize;
    }
  }

  lemma WindowOf(exponent: nat, mantissa: nat)
    requires exponent < 32 && mantissa < 8
    ensures DescribedWindow(8 * exponent + mantissa) == Pow2(7 + exponent) * (8 + mantissa)
    ensures 8 * DescribedWindow(8 * exponent + mantissa) == Pow2(10 + exponent) * (8 + mantissa)
  {
    var b, d := Pow2(7 + exponent), 8 * exponent + mantissa;
    assert d / 8 == exponent && d % 8 == mantissa;
    EightFold(7 + exponent);
    assert Pow2(10 + exponent) == 8 * b;
    hide Pow2;
    assert DescribedWindow(d) == 8 * b + b * mantissa;
    assert b * (8 + mantissa) == 8 * b + b * mantissa;
  }

  lemma EightFold(n: nat)
    ensures Pow2(n + 3) == 8 * Pow2(n)
  {
    assert Pow2(n + 3) == 2 * Pow2(n + 2) && Pow2(n + 2) == 2 * Pow2(n + 1);
  }

  /** In terms of the byte itself: without Single_Segment, and with the reserved bit clear, a frame is accepted exactly
      up to the Window_Descriptor 104, which is 2^23. */
  lemma AcceptedDescriptors(h: Header, body: seq<byte>)
    requires h.Valid() && !h.single && !h.reserved
    ensures Probe(h.Encode() + body) == FrameOk <==> 8 * h.exponent + h.mantissa <= 104
  {
    hide Probe, Pow2;
    ProbeOfHeader(h, body);
    WindowsInOrder(h.exponent, h.mantissa);
  }

  lemma WindowsInOrder(e: nat, m: nat)
    requires e < 32 && m < 8
    ensures Pow2(7 + e) * (8 + m) <= 8388608 <==> 8 * e + m <= 104
  {
    hide Pow2;
    Pow2Twenty();
    if e < 13 {
      Doublings(7 + e, 19);
      PowTimes(Pow2(7 + e), Pow2(19), 8 + m);
    } else if e == 13 {
      assert Pow2(20) * (8 + m) == 1048576 * (8 + m);
    } else {
      Doublings(21, 7 + e);
      PowTimes(Pow2(21), Pow2(7 + e), 8 + m);
    }
  }

  lemma Pow2Twenty()
    ensures Pow2(19) == 524288 && Pow2(20) == 1048576 && Pow2(21) == 2097152
  {
    EightFold(0);
    EightFold(3);
    EightFold(6);
    EightFold(9);
    EightFold(12);
    EightFold(15);
    EightFold(18);
    assert Pow2(21) == 2 * Pow2(20) && Pow2(20) == 2 * Pow2(19);
  }

  lemma {:induction false} Doublings(a: nat, b: nat)
    requires a <= b
    ensures Pow2(a) <= Pow2(b)
    decreases b
  {
    if a < b {
      Doublings(a, b - 1);
    }
  }

  lemma PowTimes(a: nat, b: nat, k: nat)
    requires a <= b
    ensures a * k <= b * k
  {
    if a < b {
      MulStep(k, a, b);
    }
  }

  /** Any of the sixteen skippable magic numbers, and the length behind it. */
  lemma ProbeOfSkippable(k: nat, a: byte, b: byte, c: byte, d: byte, body: seq<byte>)
    requires k < 16
    ensures Probe([0x50 + k, 0x2A, 0x4D, 0x18, a, b, c, d] + body) == Skip(a + 256 * b + 65536 * c + 16777216 * d)
  {
    var e := [0x50 + k, 0x2A, 0x4D, 0x18, a, b, c, d] + body;
    assert e[..4] == [0x50 + k, 0x2A, 0x4D, 0x18] && e[4..8] == [a, b, c, d];
    LittleFour(0x50 + k, 0x2A, 0x4D, 0x18);
    LittleFour(a, b, c, d);
  }

  /** Four bytes tell what is no frame of either kind. */
  lemma MagicDecides(h: seq<byte>)
    requires |h| >= 4
    ensures Probe(h) == NotZstd <==>
              h[..4] != [0x28, 0xB5, 0x2F, 0xFD] && (h[0] / 16 != 5 || h[1..4] != [0x2A, 0x4D, 0x18])
  {
    assert h[..4] == [h[0], h[1], h[2], h[3]] && h[1..4] == [h[1], h[2], h[3]];
    LittleFour(h[0], h[1], h[2], h[3]);
    MagicNumbers(h[0], h[1], h[2], h[3]);
  }

  lemma MagicNumbers(a: byte, b: byte, c: byte, d: byte)
    ensures var magic := a + 256 * b + 65536 * c + 16777216 * d;
            && (magic == ZSTD_MAGIC <==> [a, b, c, d] == [0x28, 0xB5, 0x2F, 0xFD])
            && (IsSkippable(magic) <==> a / 16 == 5 && [b, c, d] == [0x2A, 0x4D, 0x18])
  {
    var high := a / 16 + 16 * b + 4096 * c + 1048576 * d;
    DivUnique(a + 256 * b + 65536 * c + 16777216 * d, 16, high, a % 16);
  }

  lemma MagicBytes()
    ensures Little([0x28, 0xB5, 0x2F, 0xFD]) == ZSTD_MAGIC
  {
    LittleFour(0x28, 0xB5, 0x2F, 0xFD);
  }

  lemma LittleStep(a: byte, rest: seq<byte>)
    ensures Little([a] + rest) == a + 256 * Little(rest)
  {
    assert ([a] + rest)[1..] == rest;
  }

  lemma LittleFour(a: byte, b: byte, c: byte, d: byte)
    ensures Little([a, b, c, d]) == a + 256 * b + 65536 * c + 16777216 * d
  {
    LittleStep(d, []);
    LittleStep(c, [d]);
    LittleStep(b, [c, d]);
    LittleStep(a, [b, c, d]);
  }

  lemma DescriptorFields(h: Header)
    requires h.Valid()
    ensures var d := h.Descriptor();
            && d / 64 == h.sizeFlag && d % 4 == h.idFlag
            && ((d / 32) % 2 == 1 <==> h.single) && ((d / 8) % 2 == 1 <==> h.reserved)
  {
    var d := h.Descriptor();
    var single, unused := if h.single then 1 else 0, if h.unused then 1 else 0;
    var reserved, checksum := if h.reserved then 1 else 0, if h.checksum then 1 else 0;
    SplitBits(d, h.sizeFlag, single, unused, reserved, checksum, h.idFlag);
  }

  lemma SplitBits(d: nat, size: nat, single: nat, unused: nat, reserved: nat, checksum: nat, id: nat)
    requires size < 4 && single < 2 && unused < 2 && reserved < 2 && checksum < 2 && id < 4
    requires d == size * 64 + single * 32 + unused * 16 + reserved * 8 + checksum * 4 + id
    ensures d / 64 == size && d % 4 == id && (d / 32) % 2 == single && (d / 8) % 2 == reserved
  {
    assert d / 32 == 2 * size + single;
    assert d / 8 == 2 * (4 * size + 2 * single + unused) + reserved;
    assert d % 4 == id by {
      assert d == 4 * (16 * size + 8 * single + 4 * unused + 2 * reserved + checksum) + id;
    }
  }

  /** The 40-byte dcz prefix: skippable magic 0x184D2A5E, length 32, the dictionary's hash. */
  function DczPrefix(hash: seq<byte>): seq<byte> {
    [0x5E, 0x2A, 0x4D, 0x18, 0x20, 0, 0, 0] + hash
  }

  /** The probe reads the stored prefix as one skippable frame of length 32. */
  lemma ProbeOfDczPrefix(hash: seq<byte>, body: seq<byte>)
    requires |hash| == 32
    ensures |DczPrefix(hash)| == 40 && DczPrefix(hash)[8..] == hash
    ensures Little(DczPrefix(hash)[..4]) == 0x184D2A5E
    ensures Probe(DczPrefix(hash) + body) == Skip(32)
  {
    var e := DczPrefix(hash) + body;
    assert e[..4] == DczPrefix(hash)[..4] == [0x5E, 0x2A, 0x4D, 0x18];
    LittleFour(0x5E, 0x2A, 0x4D, 0x18);
    assert e[4..8] == [0x20, 0, 0, 0];
    LittleFour(0x20, 0, 0, 0);
  }

  /** May the block read at `haveBase` with `n` bytes serve the next frame header? */
  function Reuse(pos: nat, haveBase: nat, n: int, need: nat): (r: Option<nat>)
    ensures r.Some? <==> n > 0 && haveBase <= pos && pos + need <= haveBase + n
    ensures r.Some? ==> r.value == pos - haveBase
  {
    if n <= 0 || pos < haveBase then None
    else
      var offset := pos - haveBase;
      if offset > n || n - offset < need then None else Some(offset)
  }
}
