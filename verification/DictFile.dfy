/** Reading a dictionary file. */
module DictFile {
  import opened Basics
  import opened StaticRead

  /** An open descriptor: each read goes on where the last one ended. */
  class Descriptor {
    const fs: FileSystem
    var offset: nat

    constructor (fs: FileSystem)
      ensures this.fs == fs && offset == 0
    {
      this.fs, offset := fs, 0;
    }

    method Read(buf: array<byte>, at: nat, len: nat) returns (r: Outcome)
      requires at + len <= buf.Length && offset <= |fs.file|
      modifies this, fs, buf
      ensures MayAnswer(fs.file, len, old(offset), r) && offset <= |fs.file|
      ensures offset == old(offset) + (if r.Got? then r.n else 0)
      ensures fs.signals == old(fs.signals) - (if r.Interrupted? then 1 else 0) && (r.Interrupted? ==> old(fs.signals) > 0)
      ensures forall k :: 0 <= k < at || at + len <= k < buf.Length ==> buf[k] == old(buf[k])
      ensures r.Got? ==> forall k :: at <= k < at + r.n ==> buf[k] == fs.file[old(offset) + k - at]
    {
      r := fs.Pread(buf, at, len, offset, 0);
      if r.Got? {
        offset := offset + r.n;
      }
    }
  }

  /** The file's own bytes, as many as asked for or as there are, however short the reads; None only after a hard
      error, whatever was read before it. */
  method DictFileRead(fd: Descriptor, buf: array<byte>, size: nat)
    returns (done: Option<nat>, ghost answers: seq<Outcome>)
    requires size <= buf.Length && fd.offset == 0
    modifies fd, fd.fs, buf
    ensures Delivers(fd.fs.file, size, 0, 0, answers, done)
    ensures done == None <==> Failed in answers
    ensures done.Some? ==> done.value == Min(size, |fd.fs.file|) && buf[..done.value] == fd.fs.file[..done.value]
    ensures forall k :: size <= k < buf.Length ==> buf[k] == old(buf[k])
  {
    hide Answers, AnswerOk, ReadAfter;
    ghost var file := fd.fs.file;
    answers := [];
    NoAnswers(file, size, 0, 0);
    var n := 0;
    while n < size
      invariant n == fd.offset && n <= size && n <= |file|
      invariant forall k :: 0 <= k < n ==> buf[k] == file[k]
      invariant forall k :: size <= k < buf.Length ==> buf[k] == old(buf[k])
      invariant Answers(file, size, 0, 0, answers) && ReadAfter(answers, 0) == Going(n)
      decreases fd.fs.signals, size - n
    {
      var r := fd.Read(buf, n, size - n);
      answers := Then(file, size, 0, 0, answers, n, r);
      match r
      case Interrupted =>
        continue;
      case Failed =>
        done := None;
        ResultsOfPread(file, size, 0, 0, answers, done);
        return;
      case Got(m) =>
        if m == 0 {
          break;
        }
        n := n + m;
    }
    done := Some(n);
    ResultsOfPread(file, size, 0, 0, answers, done);
  }
}
