/** Reading a static .zst file: the retrying read loop, with and without direct I/O. */
module StaticRead {
  import opened Basics

  function Min(a: nat, b: nat): nat {
    if a <= b then a else b
  }

  // ----- the file system -----

  /** One pread(2): interrupted, failed, or `n` bytes; 0 only at the end of the file. */
  datatype Outcome = Interrupted | Failed | Got(n: nat)

  /** What a read of `len` bytes at `offset` may answer: any failure, and any count short of the file's end. */
  predicate MayAnswer(file: seq<byte>, len: nat, offset: nat, r: Outcome)
    requires offset <= |file|
  {
    r.Got? ==> r.n <= Min(len, |file| - offset) && (offset < |file| && len > 0 ==> r.n > 0)
  }

  /** At most `signals` reads are interrupted. */
  class FileSystem {
    const file: seq<byte>
    var signals: nat

    constructor (file: seq<byte>, signals: nat)
      ensures this.file == file && this.signals == signals
    {
      this.file, this.signals := file, signals;
    }

    /** With O_DIRECT (`align` > 1) the buffer position, the offset and the length must be block-aligned. */
    method Pread(buf: array<byte>, at: nat, len: nat, offset: nat, align: nat) returns (r: Outcome)
      requires at + len <= buf.Length && offset <= |file|
      requires align > 1 ==> at % align == 0 && len % align == 0 && offset % align == 0
      modifies this, buf
      ensures MayAnswer(file, len, offset, r)
      ensures r.Interrupted? ==> old(signals) > 0
      ensures signals == old(signals) - (if r.Interrupted? then 1 else 0)
      ensures forall k :: 0 <= k < at || at + len <= k < buf.Length ==> buf[k] == old(buf[k])
      ensures r.Got? ==> offset + r.n <= |file| && forall k :: at <= k < at + r.n ==> buf[k] == file[offset + k - at]
    {
      assert MayAnswer(file, len, offset, Failed);
      r :| MayAnswer(file, len, offset, r) && (r.Interrupted? ==> signals > 0);
      assert MayAnswer(file, len, offset, r);
      match r
      case Interrupted =>
        signals := signals - 1;
      case Failed =>
      case Got(n) =>
        for k := 0 to n
          invariant signals == old(signals)
          invariant forall j :: 0 <= j < at || at + len <= j < buf.Length ==> buf[j] == old(buf[j])
          invariant forall j :: at <= j < at + k ==> buf[j] == file[offset + j - at]
        {
          buf[at + k] := file[offset + k];
        }
    }
  }

  // ----- the loop, as a function of the answers it gets -----

  /** Where the loop stands: so many bytes done, or over with a result (None after a hard error). */
  datatype Reading = Going(done: nat) | Over(result: Option<nat>)

  /** One answer. Under direct I/O the loop resumes on a block boundary, and gives up on an answer that completes
      no further block. */
  function ReadStep(s: Reading, o: Outcome, align: nat): Reading {
    if s.Over? then s
    else
      match o
      case Interrupted => s
      case Failed => Over(None)
      case Got(n) =>
        var landed := s.done + n;
        if n == 0 then Over(Some(landed))
        else if align <= 1 then Going(landed)
        else if landed - landed % align == s.done then Over(Some(landed))
        else Going(landed - landed % align)
  }

  function ReadAfter(answers: seq<Outcome>, align: nat): Reading {
    if answers == [] then Going(0)
    else ReadStep(ReadAfter(answers[..|answers| - 1], align), answers[|answers| - 1], align)
  }

  /** The loop asks again. */
  predicate Asks(s: Reading, size: nat) {
    s.Going? && s.done < size
  }

  /** Answers a file could give to the reads of one loop, none of them after it has ended. */
  ghost predicate Answers(file: seq<byte>, size: nat, offset: nat, align: nat, answers: seq<Outcome>) {
    forall k :: 0 <= k < |answers| ==> AnswerOk(file, size, offset, ReadAfter(answers[..k], align), answers[k])
  }

  ghost predicate AnswerOk(file: seq<byte>, size: nat, offset: nat, s: Reading, o: Outcome) {
    Asks(s, size) && offset + s.done <= |file| && MayAnswer(file, size - s.done, offset + s.done, o)
  }

  function ResultOf(s: Reading): Option<nat> {
    if s.Over? then s.result else Some(s.done)
  }

  /** One whole run of the loop and what it returns. */
  ghost predicate Delivers(file: seq<byte>, size: nat, offset: nat, align: nat, answers: seq<Outcome>, r: Option<nat>) {
    && Answers(file, size, offset, align, answers)
    && !Asks(ReadAfter(answers, align), size)
    && r == ResultOf(ReadAfter(answers, align))
  }

  lemma AnswersMore(file: seq<byte>, size: nat, offset: nat, align: nat, answers: seq<Outcome>, o: Outcome)
    requires Answers(file, size, offset, align, answers)
    requires AnswerOk(file, size, offset, ReadAfter(answers, align), o)
    ensures Answers(file, size, offset, align, answers + [o])
    ensures ReadAfter(answers + [o], align) == ReadStep(ReadAfter(answers, align), o, align)
  {
    var more := answers + [o];
    assert more[..|answers|] == answers;
    forall k | 0 <= k < |more|
      ensures AnswerOk(file, size, offset, ReadAfter(more[..k], align), more[k])
    {
      if k < |answers| {
        assert more[..k] == answers[..k];
      }
    }
  }

  /** The retry and accumulate loop: the bytes delivered are the file's, and how many they are is what the answers
      of the file system make of it. */
  method StaticPread(fs: FileSystem, buf: array<byte>, size: nat, offset: nat, align: nat)
    returns (r: Option<nat>, ghost answers: seq<Outcome>)
    requires size <= buf.Length && offset <= |fs.file|
    requires align > 1 ==> size % align == 0 && offset % align == 0
    modifies fs, buf
    ensures Delivers(fs.file, size, offset, align, answers, r)
    ensures r.Some? ==> r.value <= size && Loaded(buf, r.value, fs.file, offset)
    ensures align <= 1 && r.Some? ==> r == Some(Min(size, |fs.file| - offset))
  {
    hide Answers, AnswerOk, ReadAfter;
    answers := [];
    NoAnswers(fs.file, size, offset, align);
    var done, prev := 0, 0;
    while done < size
      invariant prev == done <= size && offset + done <= |fs.file|
      invariant align > 1 ==> done % align == 0
      invariant Loaded(buf, done, fs.file, offset)
      invariant Answers(fs.file, size, offset, align, answers) && ReadAfter(answers, align) == Going(done)
      decreases size - done, fs.signals
    {
      if align > 1 {
        AlignedRest(size, done, offset, align);
      }
      var res := fs.Pread(buf, done, size - done, offset + done, align);
      assert AnswerOk(fs.file, size, offset, Going(done), res) by { IsAnswer(fs.file, size, offset, done, res); }
      AnswersMore(fs.file, size, offset, align, answers, res);
      answers := answers + [res];
      if res == Interrupted {
        continue;
      }
      if res == Failed {
        return None, answers;
      }
      var n := res.n;
      if n == 0 {
        break;
      }
      done := done + n;
      assert Loaded(buf, done, fs.file, offset);
      if align > 1 {
        var aligned := done - done % align;
        RoundDown(done, prev, align);
        if aligned == prev {
          // no whole block was completed: report what really landed, do not spin
          done := prev + n;
          break;
        }
        done := aligned;
      }
      prev := done;
    }
    r := Some(done);
    ResultsOfPread(fs.file, size, offset, align, answers, r);
  }

  /** The first `n` bytes of the buffer are those of the file at `offset`. */
  predicate Loaded(buf: array<byte>, n: nat, file: seq<byte>, offset: nat)
    reads buf
  {
    n <= buf.Length && offset + n <= |file| && forall k :: 0 <= k < n ==> buf[k] == file[offset + k]
  }

  lemma NoAnswers(file: seq<byte>, size: nat, offset: nat, align: nat)
    ensures Answers(file, size, offset, align, []) && ReadAfter([], align) == Going(0)
  {
  }

  lemma IsAnswer(file: seq<byte>, size: nat, offset: nat, done: nat, o: Outcome)
    requires done < size && offset + done <= |file| && MayAnswer(file, size - done, offset + done, o)
    ensures AnswerOk(file, size, offset, Going(done), o)
  {
  }

  // ----- what the loop can return -----

  /** What a loop that has not ended may have done so far. */
  ghost predicate Within(file: seq<byte>, size: nat, offset: nat, align: nat, s: Reading) {
    match s
    case Going(done) => done <= size && offset + done <= |file| && (align > 1 ==> done % align == 0)
    case Over(None) => true
    case Over(Some(n)) =>
      && n <= size && offset + n <= |file|
      && (n == Min(size, |file| - offset) || (align > 1 && n % align != 0))
  }

  lemma {:induction false} AlwaysWithin(file: seq<byte>, size: nat, offset: nat, align: nat, answers: seq<Outcome>)
    requires offset <= |file| && Answers(file, size, offset, align, answers)
    requires align > 1 ==> size % align == 0
    ensures Within(file, size, offset, align, ReadAfter(answers, align))
    ensures ReadAfter(answers, align) == Over(None) <==> Failed in answers
  {
    if answers != [] {
      var n := |answers| - 1;
      var front, o := answers[..n], answers[n];
      forall k | 0 <= k < |front|
        ensures AnswerOk(file, size, offset, ReadAfter(front[..k], align), front[k])
      {
        assert front[..k] == answers[..k] && AnswerOk(file, size, offset, ReadAfter(answers[..k], align), answers[k]);
      }
      AlwaysWithin(file, size, offset, align, front);
      var s := ReadAfter(front, align);
      assert AnswerOk(file, size, offset, s, o);
      assert answers == front + [o];
      StepWithin(file, size, offset, align, s, o);
    }
  }

  lemma StepWithin(file: seq<byte>, size: nat, offset: nat, align: nat, s: Reading, o: Outcome)
    requires offset <= |file| && Within(file, size, offset, align, s) && AnswerOk(file, size, offset, s, o)
    requires align > 1 ==> size % align == 0
    ensures Within(file, size, offset, align, ReadStep(s, o, align))
    ensures ReadStep(s, o, align) == Over(None) <==> o == Failed
  {
    if o.Got? && o.n > 0 && align > 1 {
      var landed := s.done + o.n;
      RoundDown(landed, s.done, align);
    }
  }

  /** Exactly the possible results: a hard error; everything asked for and available; or, under direct I/O only,
      a count short of that which ends inside a block. Short reads alone cost nothing without direct I/O. */
  lemma ResultsOfPread(file: seq<byte>, size: nat, offset: nat, align: nat, answers: seq<Outcome>, r: Option<nat>)
    requires offset <= |file| && Delivers(file, size, offset, align, answers, r)
    requires align > 1 ==> size % align == 0
    ensures r == None <==> Failed in answers
    ensures r.Some? ==> r.value <= size && offset + r.value <= |file|
    ensures r.Some? ==> r.value == Min(size, |file| - offset) || (align > 1 && r.value % align != 0)
  {
    AlwaysWithin(file, size, offset, align, answers);
  }

  /** ... and each of them is the result of some answers. */
  lemma EveryResultHappens(file: seq<byte>, size: nat, offset: nat, align: nat, r: Option<nat>)
    returns (answers: seq<Outcome>)
    requires offset <= |file| && size > 0 && (align > 1 ==> size % align == 0)
    requires r.Some? ==> r.value <= Min(size, |file| - offset)
    requires r.Some? ==> r.value == Min(size, |file| - offset) || (align > 1 && r.value % align != 0)
    ensures Delivers(file, size, offset, align, answers, r)
  {
    hide Answers, AnswerOk, ReadAfter;
    NoAnswers(file, size, offset, align);
    if r == None {
      answers := Then(file, size, offset, align, [], 0, Failed);
    } else if align > 1 {
      answers := InBlocks(file, size, offset, align, r.value);
    } else {
      answers := Then(file, size, offset, align, [], 0, Got(r.value));
      if 0 < r.value < size {
        answers := Then(file, size, offset, align, answers, r.value, Got(0));
      }
    }
  }

  lemma Then(file: seq<byte>, size: nat, offset: nat, align: nat, answers: seq<Outcome>, done: nat, o: Outcome)
    returns (more: seq<Outcome>)
    requires Answers(file, size, offset, align, answers) && ReadAfter(answers, align) == Going(done)
    requires done < size && offset + done <= |file| && MayAnswer(file, size - done, offset + done, o)
    ensures Answers(file, size, offset, align, more) && ReadAfter(more, align) == ReadStep(Going(done), o, align)
  {
    hide Answers, ReadAfter;
    AnswersMore(file, size, offset, align, answers, o);
    more := answers + [o];
  }

  lemma Blocks(n: nat, align: nat)
    requires align > 1
    ensures 0 <= n - n % align && (n - n % align) % align == 0 && 0 <= n % align < align
    ensures n % align == 0 || n - (n - n % align) == n % align > 0
    ensures n - n % align > 0 ==> n - n % align >= align
  {
    var q, r := n / align, n % align;
    assert n == align * q + r;
    WholeBlocks(q, align);
  }

  lemma WholeBlocks(q: nat, align: nat)
    requires align > 0
    ensures (align * q) % align == 0 && 0 <= align * q && (align * q > 0 ==> align * q >= align)
  {
    MultipleMod(align, q);
    if q > 0 {
      MulStep(align, 0, q);
    }
  }

  /** Whole blocks first, then the rest of the block the result ends in. */
  lemma InBlocks(file: seq<byte>, size: nat, offset: nat, align: nat, n: nat) returns (answers: seq<Outcome>)
    requires align > 1 && offset + n <= |file| && n <= size && size % align == 0 && size > 0
    requires n == Min(size, |file| - offset) || n % align != 0
    ensures Delivers(file, size, offset, align, answers, Some(n))
  {
    hide Answers, AnswerOk, ReadAfter;
    NoAnswers(file, size, offset, align);
    var done, rest := n - n % align, n % align;
    Blocks(n, align);
    answers := [];
    if done > 0 {
      answers := Then(file, size, offset, align, [], 0, Got(done));
    }
    if done < size {
      answers := Then(file, size, offset, align, answers, done, Got(rest));
    }
  }

  // ----- block arithmetic -----

  lemma AlignedRest(size: nat, done: nat, offset: nat, align: nat)
    requires align > 1 && size % align == 0 && done % align == 0 && offset % align == 0 && done <= size
    ensures (size - done) % align == 0 && (offset + done) % align == 0
  {
    var s, d, o := size / align, done / align, offset / align;
    assert size == align * s && done == align * d && offset == align * o;
    MultipleMod(align, s - d);
    MultipleMod(align, o + d);
    assert size - done == align * (s - d) && offset + done == align * (o + d);
  }

  lemma MultipleMod(align: nat, k: int)
    requires align > 0
    ensures (align * k) % align == 0
  {
    DivUnique(align * k, align, k, 0);
  }

  lemma RoundDown(done: nat, prev: nat, align: nat)
    requires align > 1 && prev % align == 0 && prev < done
    ensures (done - done % align) % align == 0 && prev <= done - done % align
    ensures done - done % align == prev ==> done - prev < align
  {
    var q, p := done / align, prev / align;
    assert done == align * q + done % align && prev == align * p;
    MultipleMod(align, q);
    if q < p {
      MulStep(align, q, p);
    } else if p < q {
      MulStep(align, p, q);
    }
  }
}
