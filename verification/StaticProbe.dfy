/** The probe of a static .zst file: reuse of the block already read, and a bounded walk over skippable frames. */
module StaticProbe {
  import opened Basics
  import opened FrameProbe
  import opened StaticRead

  const DIO_PROBE: nat := 4096
  const DIO_PROBE_MAX: nat := 64 * 1024
  const HEADER_BUFFER: nat := 58

  // ----- the reference: a walker over the file's bytes -----

  /** May the file be served, starting from a frame at `pos` with `budget` skippable frames still allowed? */
  predicate Servable(file: seq<byte>, pos: nat, budget: nat)
    requires pos <= |file|
    decreases budget
  {
    var h := file[pos..];
    |h| >= 4 &&
    match Probe(h)
    case FrameOk => true
    case Skip(length) => budget > 0 && 8 + length <= |h| && Servable(file, pos + 8 + length, budget - 1)
    case _ => false
  }

  /** What serving means, without the walk: at most `budget` skippable frames, each within the file and each
      starting where the one before it ends, and then a regular frame whose header passes. */
  ghost predicate Chain(file: seq<byte>, starts: seq<nat>, pos: nat, budget: nat) {
    && 1 <= |starts| <= budget + 1 && starts[0] == pos
    && (forall k :: 0 <= k < |starts| ==> starts[k] + 4 <= |file|)
    && (forall k :: 0 <= k < |starts| - 1 ==> SkipsTo(file, starts[k], starts[k + 1]))
    && Probe(file[starts[|starts| - 1]..]) == FrameOk
  }

  ghost predicate SkipsTo(file: seq<byte>, a: nat, b: nat) {
    a + 8 <= b <= |file| && Probe(file[a..]) == Skip(b - a - 8)
  }

  lemma {:induction false} ServableMeansChain(file: seq<byte>, pos: nat, budget: nat)
    requires pos <= |file|
    ensures Servable(file, pos, budget) <==> exists starts :: Chain(file, starts, pos, budget)
    decreases budget
  {
    if Servable(file, pos, budget) {
      var starts := ChainOf(file, pos, budget);
    }
    if starts :| Chain(file, starts, pos, budget) {
      ChainServes(file, starts, pos, budget);
    }
  }

  lemma {:induction false} ChainOf(file: seq<byte>, pos: nat, budget: nat) returns (starts: seq<nat>)
    requires pos <= |file| && Servable(file, pos, budget)
    ensures Chain(file, starts, pos, budget)
    decreases budget
  {
    var v := Probe(file[pos..]);
    if v == FrameOk {
      starts := [pos];
    } else {
      var next := pos + 8 + v.length;
      var rest := ChainOf(file, next, budget - 1);
      starts := [pos] + rest;
      forall k | 0 <= k < |starts| - 1
        ensures SkipsTo(file, starts[k], starts[k + 1])
      {
        if k > 0 {
          assert SkipsTo(file, rest[k - 1], rest[k]);
        }
      }
    }
  }

  lemma {:induction false} ChainServes(file: seq<byte>, starts: seq<nat>, pos: nat, budget: nat)
    requires pos <= |file| && Chain(file, starts, pos, budget)
    ensures Servable(file, pos, budget)
    decreases budget
  {
    if |starts| > 1 {
      var rest := starts[1..];
      assert SkipsTo(file, starts[0], starts[1]);
      forall k | 0 <= k < |rest| - 1
        ensures SkipsTo(file, rest[k], rest[k + 1])
      {
        assert SkipsTo(file, starts[k + 1], starts[k + 2]);
      }
      ChainServes(file, rest, starts[1], budget - 1);
    }
  }

  // ----- the scratch buffer for direct I/O -----

  /** The worker's reusable aligned buffer, with the guard that keeps two probes from sharing it. */
  class Scratch {
    var buf: array?<byte>
    var cap: nat
    var align: nat
    var busy: bool
    /** How often an aligned allocation was refused. */
    ghost var refused: nat

    ghost predicate Valid()
      reads this
    {
      if buf == null then cap == 0 && !busy else cap <= buf.Length
    }

    constructor ()
      ensures Valid() && !busy && buf == null && refused == 0
    {
      buf, cap, align, busy, refused := null, 0, 0, false, 0;
    }

    /** ngx_pmemalign, which may fail. */
    method Pmemalign(want: nat) returns (r: array?<byte>)
      modifies this`refused
      ensures r != null ==> fresh(r) && r.Length == want
      ensures refused == old(refused) + if r == null then 1 else 0
    {
      var ok: bool := *;
      if ok {
        r := new byte[want];
      } else {
        r := null;
        refused := refused + 1;
      }
    }

    /** A buffer of at least `want` bytes: the scratch buffer, grown when too small or too loosely aligned, or a
        private one while the scratch buffer is in use or cannot be had. */
    method Acquire(want: nat, align: nat) returns (r: array?<byte>, mine: bool)
      requires Valid() && want > 0
      modifies this
      ensures Valid()
      ensures r != null ==> r.Length >= want && (fresh(r) || (r == old(buf) && !old(busy)))
      ensures old(refused) <= refused && (r == null ==> refused > old(refused))
      // the scratch buffer when it is idle, as it is if it will do, and grown unless that is refused
      ensures !old(busy) && refused == old(refused) ==> mine
      ensures !old(busy) && old(buf) != null && old(cap) >= want && old(this.align) >= align ==> mine && buf == old(buf)
      ensures mine == (r != null && r == buf && !old(busy) && busy)
      ensures busy == (old(busy) || mine)
      ensures old(busy) ==> buf == old(buf) && !mine
      ensures mine ==> cap >= want && this.align >= align
      ensures buf == old(buf) || (buf != null && fresh(buf))
    {
      if busy {
        r := Pmemalign(want);
        return r, false;
      }
      if cap < want || this.align < align {
        var p := Pmemalign(want);
        if p == null {
          r := Pmemalign(want);
          return r, false;
        }
        buf, cap, this.align := p, want, align;
      }
      busy := true;
      return buf, true;
    }

    method Release()
      requires Valid()
      modifies this`busy
      ensures Valid() && !busy
    {
      busy := false;
    }
  }

  // ----- the probe -----

  datatype ProbeRc = Serve | Decline | InternalError

  /** What a frame says about the file, given the bytes `h` read at `pos`. */
  lemma FrameDecides(file: seq<byte>, pos: nat, h: seq<byte>, budget: nat)
    requires pos <= |file| && 4 <= |h| && h <= file[pos..]
    ensures Probe(h) == FrameOk ==> Servable(file, pos, budget)
    ensures Probe(h).Skip? && pos + 8 + Probe(h).length > |file| ==> !Servable(file, pos, budget)
    ensures Probe(h).Skip? && pos + 8 + Probe(h).length <= |file| ==>
              (Servable(file, pos, budget) <==>
               budget > 0 && Servable(file, pos + 8 + Probe(h).length, budget - 1))
    ensures !Probe(h).Skip? && Probe(h) != FrameOk && (Probe(h) != Truncated || |h| >= Min(HEADER_MAX, |file| - pos)) ==>
              !Servable(file, pos, budget)
  {
    if Probe(h) != Truncated {
      ProbeIsMonotone(h, file[pos..]);
    } else if |h| >= Min(HEADER_MAX, |file| - pos) {
      if |h| < HEADER_MAX {
        assert h == file[pos..];
      }
      ProbeIsStable(h, file[pos..]);
    }
  }

  /** What the buffer holds: `n` bytes of the file from `base`, or nothing usable when n <= 0. */
  datatype Block = Block(n: int, base: nat)

  ghost predicate Holds(buf: array<byte>, b: Block, file: seq<byte>)
    reads buf
  {
    b.n > 0 ==> Loaded(buf, b.n, file, b.base)
  }

  // ----- the walk, as a function of the answers its reads get -----

  datatype Stop = Served | Malformed | Broken

  /** Where the walk stands: before the frame at `pos` with `b` in the buffer, or at its end. */
  datatype Walking = On(pos: nat, frames: nat, b: Block) | Done(stop: Stop)

  /** How the next header comes into the buffer: it is there already, or a read gets these answers. */
  datatype Turn = Kept | Read(answers: seq<Outcome>)

  function Want(align: nat): nat {
    if align == 0 then HEADER_BUFFER else 2 * align
  }

  function FrameOffset(align: nat, pos: nat): (off: nat)
    ensures off <= pos
  {
    if align == 0 then 0 else pos % align
  }

  function Reusable(file: seq<byte>, pos: nat, have: Block): Option<nat>
    requires pos <= |file|
  {
    var left := |file| - pos;
    if have.n > 0 then Reuse(pos, have.base, have.n, Min(HEADER_MAX, if left > 4 then left else 4)) else None
  }

  /** The block after a turn. */
  function Loads(align: nat, pos: nat, have: Block, t: Turn): Block {
    match t
    case Kept => have
    case Read(answers) =>
      var r := ResultOf(ReadAfter(answers, align));
      Block(if r.Some? then r.value else -1, pos - FrameOffset(align, pos))
  }

  ghost predicate TurnOk(file: seq<byte>, align: nat, pos: nat, have: Block, t: Turn) {
    && pos <= |file|
    && match t
       case Kept => Reusable(file, pos, have).Some?
       case Read(answers) =>
         && Reusable(file, pos, have).None?
         && Delivers(file, Want(align), pos - FrameOffset(align, pos), align, answers,
                     ResultOf(ReadAfter(answers, align)))
  }

  /** Bytes of the block at or after `pos`. */
  function Avail(b: Block, pos: nat): nat {
    if b.n > 0 && b.base <= pos < b.base + b.n then b.base + b.n - pos else 0
  }

  /** The verdict on the frame at `pos`. */
  function Judge(file: seq<byte>, pos: nat, frames: nat, b: Block): Walking
    requires pos + Avail(b, pos) <= |file|
  {
    if b.n < 0 then Done(Broken)
    else if Avail(b, pos) < 4 then Done(Malformed)
    else
      match Probe(file[pos..pos + Avail(b, pos)])
      case FrameOk => Done(Served)
      case Skip(length) =>
        if pos + 8 + length > |file| || frames >= MAX_SKIP_FRAMES then Done(Malformed)
        else On(pos + 8 + length, frames + 1, b)
      case _ => Done(Malformed)
  }

  function WalkStep(file: seq<byte>, align: nat, s: Walking, t: Turn): Walking {
    match s
    case Done(_) => s
    case On(pos, frames, have) =>
      var b := Loads(align, pos, have, t);
      if pos + Avail(b, pos) <= |file| then Judge(file, pos, frames, b) else s
  }

  function WalkAfter(file: seq<byte>, align: nat, turns: seq<Turn>): Walking {
    if turns == [] then On(0, 0, Block(0, 0))
    else WalkStep(file, align, WalkAfter(file, align, turns[..|turns| - 1]), turns[|turns| - 1])
  }

  ghost predicate Walks(file: seq<byte>, align: nat, turns: seq<Turn>) {
    forall k :: 0 <= k < |turns| ==> Steps(file, align, WalkAfter(file, align, turns[..k]), turns[k])
  }

  ghost predicate Steps(file: seq<byte>, align: nat, s: Walking, t: Turn) {
    s.On? && TurnOk(file, align, s.pos, s.b, t)
  }

  /** One whole walk and its end, for the answers its reads got. */
  ghost predicate Verdict(file: seq<byte>, align: nat, turns: seq<Turn>, stop: Stop) {
    Walks(file, align, turns) && WalkAfter(file, align, turns) == Done(stop)
  }

  lemma WalksMore(file: seq<byte>, align: nat, turns: seq<Turn>, t: Turn)
    requires Walks(file, align, turns) && Steps(file, align, WalkAfter(file, align, turns), t)
    ensures Walks(file, align, turns + [t])
    ensures WalkAfter(file, align, turns + [t]) == WalkStep(file, align, WalkAfter(file, align, turns), t)
  {
    var more := turns + [t];
    assert more[..|turns|] == turns;
    forall k | 0 <= k < |more|
      ensures Steps(file, align, WalkAfter(file, align, more[..k]), more[k])
    {
      if k < |turns| {
        assert more[..k] == turns[..k];
      }
    }
  }

  // ----- what a verdict is worth -----

  predicate AlignOk(align: nat) {
    align == 0 || align >= DIO_PROBE
  }

  /** The block covers the whole header at `pos`, or all the file has left. */
  predicate HeaderRead(file: seq<byte>, pos: nat, b: Block) {
    pos <= |file| && Avail(b, pos) >= Min(HEADER_MAX, |file| - pos)
  }

  /** What holds of a walk under way, and of its end. */
  ghost predicate Right(file: seq<byte>, s: Walking) {
    match s
    case On(pos, frames, b) =>
      && pos <= |file| && frames <= MAX_SKIP_FRAMES && (b.n > 0 ==> b.base + b.n <= |file|)
      && (Servable(file, 0, MAX_SKIP_FRAMES) <==> Servable(file, pos, MAX_SKIP_FRAMES - frames))
    case Done(stop) => stop == Served ==> Servable(file, 0, MAX_SKIP_FRAMES)
  }

  /** A turn puts bytes of the file into the buffer: all of the header unless a direct read stalled short of it. */
  lemma TurnLoads(file: seq<byte>, align: nat, pos: nat, have: Block, t: Turn)
    requires AlignOk(align) && TurnOk(file, align, pos, have, t) && (have.n > 0 ==> have.base + have.n <= |file|)
    ensures var b := Loads(align, pos, have, t);
            && (b.n > 0 ==> b.base + b.n <= |file|) && b.base <= pos
            && pos + Avail(b, pos) <= |file|
            && (align == 0 && b.n >= 0 ==> HeaderRead(file, pos, b))
            && (b.n < 0 ==> t.Read? && Failed in t.answers)
  {
    hide Delivers, Reuse;
    if t.Read? {
      var base, r := pos - FrameOffset(align, pos), ResultOf(ReadAfter(t.answers, align));
      if align > 0 {
        WantAligned(align);
      }
      ResultsOfPread(file, Want(align), base, align, t.answers, r);
    }
  }

  lemma WantAligned(align: nat)
    requires align > 0
    ensures Want(align) % align == 0
  {
    MultipleMod(align, 2);
  }

  lemma JudgeIsRight(file: seq<byte>, pos: nat, frames: nat, b: Block)
    requires pos + Avail(b, pos) <= |file| && frames <= MAX_SKIP_FRAMES && (b.n > 0 ==> b.base + b.n <= |file|)
    requires Servable(file, 0, MAX_SKIP_FRAMES) <==> Servable(file, pos, MAX_SKIP_FRAMES - frames)
    ensures Right(file, Judge(file, pos, frames, b))
    ensures Judge(file, pos, frames, b) == Done(Malformed) && HeaderRead(file, pos, b) ==>
              !Servable(file, 0, MAX_SKIP_FRAMES)
    ensures Judge(file, pos, frames, b) == Done(Broken) <==> b.n < 0
  {
    hide Servable, Probe;
    if b.n >= 0 {
      if Avail(b, pos) < 4 {
        TooShort(file, pos, MAX_SKIP_FRAMES - frames);
      } else {
        FrameDecides(file, pos, file[pos..pos + Avail(b, pos)], MAX_SKIP_FRAMES - frames);
      }
    }
  }

  lemma {:induction false} AlwaysRight(file: seq<byte>, align: nat, turns: seq<Turn>)
    requires AlignOk(align) && Walks(file, align, turns)
    ensures Right(file, WalkAfter(file, align, turns))
  {
    hide Servable, TurnOk, Loads, Judge;
    if turns != [] {
      var n := |turns| - 1;
      var front := turns[..n];
      FrontWalks(file, align, turns);
      AlwaysRight(file, align, front);
      var s := WalkAfter(file, align, front);
      TurnLoads(file, align, s.pos, s.b, turns[n]);
      JudgeIsRight(file, s.pos, s.frames, Loads(align, s.pos, s.b, turns[n]));
    }
  }

  lemma FrontWalks(file: seq<byte>, align: nat, turns: seq<Turn>)
    requires Walks(file, align, turns) && turns != []
    ensures var n := |turns| - 1;
            && Walks(file, align, turns[..n])
            && Steps(file, align, WalkAfter(file, align, turns[..n]), turns[n])
  {
    hide Steps;
    var front := turns[..|turns| - 1];
    forall k | 0 <= k < |front|
      ensures Steps(file, align, WalkAfter(file, align, front[..k]), front[k])
    {
      assert front[..k] == turns[..k];
    }
  }

  /** The block the last frame was judged by. */
  ghost function LastBlock(file: seq<byte>, align: nat, turns: seq<Turn>): (nat, Block)
    requires turns != []
  {
    var s := WalkAfter(file, align, turns[..|turns| - 1]);
    if s.On? then (s.pos, Loads(align, s.pos, s.b, turns[|turns| - 1])) else (0, Block(0, 0))
  }

  /** No read that decided the verdict stalled short of the header. */
  ghost predicate Unstalled(file: seq<byte>, align: nat, turns: seq<Turn>) {
    turns != [] ==> var (pos, b) := LastBlock(file, align, turns); b.n >= 0 ==> HeaderRead(file, pos, b)
  }

  /** What each verdict is worth, for every file and every behaviour of its reads: served files are servable; a
      file called malformed is not, unless the read that decided it stalled short of the header, which takes direct
      I/O; and only a hard error leaves the question open. */
  lemma VerdictIsRight(file: seq<byte>, align: nat, turns: seq<Turn>, stop: Stop)
    requires AlignOk(align) && Verdict(file, align, turns, stop)
    ensures stop == Served ==> Servable(file, 0, MAX_SKIP_FRAMES)
    ensures stop == Malformed && Unstalled(file, align, turns) ==> !Servable(file, 0, MAX_SKIP_FRAMES)
    ensures align == 0 ==> Unstalled(file, align, turns)
    ensures stop == Broken ==> turns[|turns| - 1].Read? && Failed in turns[|turns| - 1].answers
  {
    hide Servable, TurnOk, Loads, Judge, HeaderRead, Right;
    AlwaysRight(file, align, turns);
    FrontWalks(file, align, turns);
    var front, t := turns[..|turns| - 1], turns[|turns| - 1];
    AlwaysRight(file, align, front);
    DecidedBy(file, align, WalkAfter(file, align, front), t, stop);
    assert stop == Served ==> Right(file, Done(Served));
    ServedIsRight(file);
  }

  lemma ServedIsRight(file: seq<byte>)
    ensures Right(file, Done(Served)) ==> Servable(file, 0, MAX_SKIP_FRAMES)
  {
  }

  lemma DecidedBy(file: seq<byte>, align: nat, s: Walking, t: Turn, stop: Stop)
    requires AlignOk(align) && Right(file, s) && Steps(file, align, s, t) && WalkStep(file, align, s, t) == Done(stop)
    ensures var b := Loads(align, s.pos, s.b, t);
            && (stop == Malformed && (b.n >= 0 ==> HeaderRead(file, s.pos, b)) ==> !Servable(file, 0, MAX_SKIP_FRAMES))
            && (align == 0 && b.n >= 0 ==> HeaderRead(file, s.pos, b))
            && (stop == Broken ==> t.Read? && Failed in t.answers)
  {
    hide Servable, TurnOk, Loads, Judge, HeaderRead;
    TurnLoads(file, align, s.pos, s.b, t);
    JudgeIsRight(file, s.pos, s.frames, Loads(align, s.pos, s.b, t));
  }

  /** So the verdict does not depend on direct I/O, on how reads are split or on which blocks are reused, as long
      as no read fails or stalls. */
  lemma SameVerdict(file: seq<byte>, a: nat, turns: seq<Turn>, stop: Stop, b: nat, others: seq<Turn>, other: Stop)
    requires AlignOk(a) && Verdict(file, a, turns, stop) && Unstalled(file, a, turns) && stop != Broken
    requires AlignOk(b) && Verdict(file, b, others, other) && Unstalled(file, b, others) && other != Broken
    ensures stop == other
  {
    hide Verdict, Unstalled, Servable;
    VerdictIsRight(file, a, turns, stop);
    VerdictIsRight(file, b, others, other);
  }

  /** Under direct I/O any file at all may be called malformed: one read of a single byte stalls the loop. */
  lemma OneByteStalls(file: seq<byte>, align: nat)
    requires |file| >= 4 && align >= DIO_PROBE
    ensures Verdict(file, align, [Read([Got(1)])], Malformed)
  {
    hide Probe, Servable, Delivers;
    var turns := [Read([Got(1)])];
    ShortRead(file, align, 1);
    assert turns[..0] == [];
    assert WalkAfter(file, align, []) == On(0, 0, Block(0, 0));
    WalksMore(file, align, [], Read([Got(1)]));
    assert [] + turns == turns;
  }

  /** A first read that lands inside the first block ends the loop with what landed. */
  lemma ShortRead(file: seq<byte>, align: nat, n: nat)
    requires 0 < n < align && n <= |file| && align > 1
    ensures ReadAfter([Got(n)], align) == Over(Some(n))
    ensures Delivers(file, Want(align), 0, align, [Got(n)], Some(n))
  {
    NoAnswers(file, Want(align), 0, align);
    IsAnswer(file, Want(align), 0, 0, Got(n));
    AnswersMore(file, Want(align), 0, align, [], Got(n));
    assert [] + [Got(n)] == [Got(n)];
    DivUnique(n, align, 0, n);
  }

  /** A sound six-byte file: a frame header with a 1 KB window. */
  const SOUND: seq<byte> := [0x28, 0xB5, 0x2F, 0xFD, 0x00, 0x00]

  /** It may be served, and yet a direct read of its first four bytes gets it called malformed. */
  lemma SoundFileDeclined()
    ensures Servable(SOUND, 0, MAX_SKIP_FRAMES)
    ensures MayAnswer(SOUND, Want(DIO_PROBE), 0, Got(4))
    ensures Verdict(SOUND, DIO_PROBE, [Read([Got(4)])], Malformed)
  {
    SoundIsServable();
    ShortRead(SOUND, DIO_PROBE, 4);
    FourBytesAreTruncated();
    hide Probe, Servable, Delivers;
    var turns := [Read([Got(4)])];
    assert turns[..0] == [];
    assert WalkAfter(SOUND, DIO_PROBE, []) == On(0, 0, Block(0, 0));
    assert FrameOffset(DIO_PROBE, 0) == 0;
    WalksMore(SOUND, DIO_PROBE, [], Read([Got(4)]));
    assert [] + turns == turns;
  }

  lemma SoundIsServable()
    ensures Servable(SOUND, 0, MAX_SKIP_FRAMES)
  {
    assert SOUND[0..] == SOUND;
    MagicOf(SOUND);
    assert DescribedWindow(0) == 1024 by {
      assert Pow2(2) == 4 && Pow2(6) == 64;
    }
  }

  lemma FourBytesAreTruncated()
    ensures Probe(SOUND[0..4]) == Truncated
  {
    MagicOf(SOUND[0..4]);
  }

  lemma MagicOf(h: seq<byte>)
    requires |h| >= 4 && h[..4] == [0x28, 0xB5, 0x2F, 0xFD]
    ensures Little(h[..4]) == ZSTD_MAGIC
  {
    LittleFour(0x28, 0xB5, 0x2F, 0xFD);
  }

  /** Exactly when the file is not opened for direct I/O is every "malformed" right, whatever its reads do. */
  lemma MalformedIsRightWhenBuffered(align: nat)
    requires AlignOk(align)
    ensures align == 0 <==>
              forall file: seq<byte>, turns: seq<Turn> :: Verdict(file, align, turns, Malformed) ==>
                !Servable(file, 0, MAX_SKIP_FRAMES)
  {
    hide Verdict, Servable, Unstalled;
    if align == 0 {
      forall file: seq<byte>, turns: seq<Turn> | Verdict(file, align, turns, Malformed)
        ensures !Servable(file, 0, MAX_SKIP_FRAMES)
      {
        VerdictIsRight(file, align, turns, Malformed);
      }
    } else {
      SoundIsServable();
      OneByteStalls(SOUND, align);
    }
  }

  /** ... and file by file: a servable one can be called malformed if and only if it is read directly. */
  lemma ServableMayBeDeclined(file: seq<byte>, align: nat)
    requires AlignOk(align) && Servable(file, 0, MAX_SKIP_FRAMES)
    ensures (exists turns :: Verdict(file, align, turns, Malformed)) <==> align > 0
  {
    assert |file[0..]| >= 4;
    hide Verdict, Servable, Unstalled;
    if align > 0 {
      OneByteStalls(file, align);
    } else if turns :| Verdict(file, align, turns, Malformed) {
      VerdictIsRight(file, align, turns, Malformed);
    }
  }

  // ----- the probe as written -----

  /** Have the bytes of the frame header at `pos` in the buffer: keep the block already read when it covers the
      whole header, and otherwise read at `pos`, rounded down to a block boundary under direct I/O. */
  method LoadHeader(fs: FileSystem, buf: array<byte>, align: nat, pos: nat, have: Block)
    returns (b: Block, frameOff: nat, ghost t: Turn)
    requires Want(align) <= buf.Length && pos <= |fs.file| && AlignOk(align)
    requires Holds(buf, have, fs.file)
    modifies fs, buf
    ensures Holds(buf, b, fs.file) && b.base + frameOff == pos
    ensures TurnOk(fs.file, align, pos, have, t) && b == Loads(align, pos, have, t)
    ensures align == 0 && b.n >= 0 ==> b.n - frameOff >= Min(HEADER_MAX, |fs.file| - pos)
  {
    hide Delivers, Reuse, ResultOf, ReadAfter;
    var base;
    frameOff, base := 0, pos;
    if align > 0 {
      frameOff := pos % align;
      base := pos - frameOff;
      BlockStart(pos, align);
      WantAligned(align);
    }
    var size := |fs.file|;
    var need := Min(HEADER_MAX, if size - pos > 4 then size - pos else 4);
    var reuse := if have.n > 0 then Reuse(pos, have.base, have.n, need) else None;
    if reuse.Some? {
      return have, reuse.value, Kept;
    }
    var read;
    ghost var answers;
    read, answers := StaticPread(fs, buf, Want(align), base, align);
    ResultIs(fs.file, Want(align), base, align, answers, read);
    ResultsOfPread(fs.file, Want(align), base, align, answers, read);
    b, t := Block(if read.Some? then read.value else -1, base), Read(answers);
  }

  lemma ResultIs(file: seq<byte>, size: nat, offset: nat, align: nat, answers: seq<Outcome>, r: Option<nat>)
    requires Delivers(file, size, offset, align, answers, r)
    ensures r == ResultOf(ReadAfter(answers, align))
  {
  }

  /** The walk over the leading frames, into the buffer `buf`. `align` is 0 for buffered reads. */
  method WalkFrames(fs: FileSystem, buf: array<byte>, align: nat)
    returns (served: bool, malformed: bool, ghost turns: seq<Turn>)
    requires Want(align) <= buf.Length && AlignOk(align)
    modifies fs, buf
    ensures Verdict(fs.file, align, turns, if served then Served else if malformed then Malformed else Broken)
    ensures served ==> !malformed && Servable(fs.file, 0, MAX_SKIP_FRAMES)
    ensures align == 0 && malformed ==> !Servable(fs.file, 0, MAX_SKIP_FRAMES)
  {
    hide Servable, Probe, Loaded, TurnOk, Loads, Walks, WalkAfter;
    var size := |fs.file|;
    var pos, frames := 0, 0;
    var b := Block(0, 0);
    turns := [];
    NoTurns(fs.file, align);
    while true
      invariant pos <= size && frames <= MAX_SKIP_FRAMES && Holds(buf, b, fs.file)
      invariant Walks(fs.file, align, turns) && WalkAfter(fs.file, align, turns) == On(pos, frames, b)
      decreases MAX_SKIP_FRAMES - frames
    {
      var frameOff;
      ghost var t;
      ghost var have := b;
      b, frameOff, t := LoadHeader(fs, buf, align, pos, b);
      NextJudged(fs.file, buf, align, turns, pos, frames, have, b, frameOff, t);
      turns := turns + [t];
      var got := if b.n > 0 then b.n else 0;
      var avail := if got > frameOff then got - frameOff else 0;
      if b.n < 0 || avail < 4 {
        VerdictIsRight(fs.file, align, turns, if b.n < 0 then Broken else Malformed);
        return false, b.n >= 0, turns;
      }
      var frame := buf[frameOff..b.n];

      match Probe(frame) {
        case FrameOk =>
          VerdictIsRight(fs.file, align, turns, Served);
          return true, false, turns;
        case Skip(length) =>
          if length > size - pos - 8 {
            VerdictIsRight(fs.file, align, turns, Malformed);
            return false, true, turns;
          }
          if frames >= MAX_SKIP_FRAMES {
            VerdictIsRight(fs.file, align, turns, Malformed);
            return false, true, turns;
          }
          pos := pos + 8 + length;
          frames := frames + 1;
        case _ =>
          VerdictIsRight(fs.file, align, turns, Malformed);
          return false, true, turns;
      }
    }
  }

  lemma NoTurns(file: seq<byte>, align: nat)
    ensures Walks(file, align, []) && WalkAfter(file, align, []) == On(0, 0, Block(0, 0))
  {
  }

  /** After a turn the walk stands where the judgement of the loaded bytes puts it. */
  lemma NextJudged(file: seq<byte>, buf: array<byte>, align: nat, turns: seq<Turn>, pos: nat, frames: nat,
                   have: Block, b: Block, off: nat, t: Turn)
    requires Walks(file, align, turns) && WalkAfter(file, align, turns) == On(pos, frames, have)
    requires TurnOk(file, align, pos, have, t) && b == Loads(align, pos, have, t)
    requires Holds(buf, b, file) && b.base + off == pos <= |file|
    ensures Avail(b, pos) == if b.n > off then b.n - off else 0
    ensures pos + Avail(b, pos) <= |file| && (b.n > 0 ==> b.n <= buf.Length)
    ensures b.n > off ==> buf[off..b.n] == file[pos..pos + Avail(b, pos)]
    ensures Walks(file, align, turns + [t])
    ensures WalkAfter(file, align, turns + [t]) == Judge(file, pos, frames, b)
  {
    hide TurnOk, Loads, Walks, WalkAfter, Judge;
    BlockInFile(buf, b, file, pos, off);
    WalksMore(file, align, turns, t);
  }

  /** The bytes in the buffer from the frame on are the file's. */
  lemma BlockInFile(buf: array<byte>, b: Block, file: seq<byte>, pos: nat, off: nat)
    requires Holds(buf, b, file) && b.base + off == pos <= |file|
    ensures Avail(b, pos) == if b.n > off then b.n - off else 0
    ensures pos + Avail(b, pos) <= |file| && (b.n > 0 ==> b.n <= buf.Length)
    ensures b.n > off ==> buf[off..b.n] == file[pos..pos + Avail(b, pos)]
  {
  }

  lemma TooShort(file: seq<byte>, pos: nat, budget: nat)
    requires pos <= |file|
    ensures |file| - pos < 4 ==> !Servable(file, pos, budget)
  {
  }

  lemma BlockStart(pos: nat, align: nat)
    requires align > 0
    ensures (pos - pos % align) % align == 0 && 0 <= pos % align < align
  {
    MultipleMod(align, pos / align);
    assert pos - pos % align == align * (pos / align);
  }

  /** The whole probe: of a file of four bytes or more it returns what the walk comes to, and it never blames a
      buffered file wrongly. The scratch buffer is free again afterwards if it was before. */
  method ProbeFile(fs: FileSystem, directio: bool, directioAlignment: nat, scratch: Scratch)
    returns (rc: ProbeRc, malformed: bool, ghost align: nat, ghost turns: seq<Turn>)
    requires scratch.Valid()
    modifies fs, scratch, if scratch.buf != null then {scratch.buf} else {}
    ensures scratch.Valid() && scratch.busy == old(scratch.busy)
    ensures old(scratch.busy) ==> scratch.buf == old(scratch.buf) && scratch.buf != null && scratch.buf[..] == old(scratch.buf[..])
    ensures AlignOk(align) && (align > 0 <==> directio)
    ensures directio && |fs.file| >= 4 ==>
              align == if directioAlignment < 4096 then 4096 else if directioAlignment > 65536 then 65536 else directioAlignment
    ensures |fs.file| < 4 ==> rc == Decline && malformed
    ensures |fs.file| >= 4 && rc != InternalError ==>
              Verdict(fs.file, align, turns, if rc == Serve then Served else if malformed then Malformed else Broken)
    ensures rc == InternalError ==> directio && !malformed && scratch.refused > old(scratch.refused)
    ensures rc == Serve ==> Servable(fs.file, 0, 4) && !malformed
    ensures malformed && (!directio || (|fs.file| >= 4 ==> Unstalled(fs.file, align, turns))) ==>
              !Servable(fs.file, 0, 4)
    ensures rc == Decline && !malformed ==>
              turns != [] && turns[|turns| - 1].Read? && Failed in turns[|turns| - 1].answers
  {
    malformed, align, turns := false, 0, [];
    if directio {
      align := DIO_PROBE;
    }
    if |fs.file| < 4 {
      TooShort(fs.file, 0, MAX_SKIP_FRAMES);
      return Decline, true, align, turns;
    }
    var served;
    if directio {
      var block := DIO_PROBE;
      if directioAlignment > block {
        block := directioAlignment;
      }
      if block > DIO_PROBE_MAX {
        block := DIO_PROBE_MAX;
      }
      align := block;
      var hdr, mine := scratch.Acquire(block * 2, block);
      if hdr == null {
        return InternalError, malformed, align, turns;
      }
      served, malformed, turns := WalkFrames(fs, hdr, block);
      if mine {
        scratch.Release();
      }
    } else {
      var hdrbuf := new byte[HEADER_BUFFER];
      served, malformed, turns := WalkFrames(fs, hdrbuf, 0);
    }
    hide Verdict, Unstalled, Servable;
    VerdictIsRight(fs.file, align, turns, if served then Served else if malformed then Malformed else Broken);
    rc := if served then Serve else Decline;
  }
}
