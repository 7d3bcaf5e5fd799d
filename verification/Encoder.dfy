/**
 The streaming encoder behind ZSTD_compressStream2, known only through its documented contract.
 The method below picks any answer the contract allows, so what is proved about its callers holds
 for every encoder that obeys the contract.
 */
module Encoding {
  import opened Basics

  type pos = x: int | x > 0 witness 1

  datatype Directive = Continue | Flush | End

  /** One successful answer: how much input was taken, the bytes written, the "remaining" hint, and what the encoder
      still owes afterwards: at least `held` bytes, without which not all of its input can be decoded, and at most
      `debt`. */
  datatype Answer = Answer(consumed: nat, output: seq<byte>, remaining: nat, held: nat, debt: nat)

  /** What the encoder has done so far: the bytes taken, the bytes written, the input lengths at which an
      e_flush call returned 0, whether an e_end call returned 0, and the least and the most output still owed. */
  datatype History = History(fed: seq<byte>, produced: seq<byte>, flushedAt: set<nat>, ended: bool, held: nat, debt: nat)

  /** The documented contract of one call: positions only advance; 0 means that all input was taken; a
      positive hint means that the output buffer is full. */
  predicate Sound(avail: nat, room: nat, a: Answer) {
    && a.consumed <= avail
    && |a.output| <= room
    && (a.remaining == 0 ==> a.consumed == avail)
    && (a.remaining > 0 ==> |a.output| == room)
  }

  /** ... nothing held back gets lost: it is written or still held; bytes taken leave a trace in what is written or
      held; the hint is a minimum of what is held; and e_flush or e_end returning 0 leaves nothing held. */
  predicate Keeps(held: nat, d: Directive, a: Answer) {
    && held <= a.held + |a.output|
    && (a.consumed > 0 ==> a.held + |a.output| > 0)
    && a.remaining <= a.held
    && (d != Continue && a.remaining == 0 ==> a.held == 0)
  }

  /** ... and the output owed is bounded: what is written is paid for by earlier debt and by the input. */
  predicate Allowed(perByte: pos, h: History, avail: nat, room: nat, d: Directive, a: Answer) {
    && Sound(avail, room, a) && Keeps(h.held, d, a)
    && a.held <= a.debt && a.debt + |a.output| <= h.debt + perByte * a.consumed
  }

  /** Some encoder obeys the contract: one that takes everything and writes what it holds, or fills the buffer. */
  lemma SomeAnswer(perByte: pos, h: History, avail: nat, room: nat, d: Directive) returns (a: Answer)
    requires h.held <= h.debt
    ensures Allowed(perByte, h, avail, room, d, a)
  {
    MulStep(avail, 0, perByte);
    var total := if avail > 0 && h.held == 0 then 1 else h.held;
    var debt := h.debt + perByte * avail;
    assert debt >= total;
    var n := if total <= room then total else room;
    a := Answer(avail, seq(n, _ => 0), total - n, total - n, debt - n);
  }

  /** The history after an answer. */
  function After(h: History, input: seq<byte>, d: Directive, a: Answer): History
    requires a.consumed <= |input|
  {
    var fed := h.fed + input[..a.consumed];
    History(fed, h.produced + a.output,
            h.flushedAt + (if d == Flush && a.remaining == 0 then {|fed|} else {}),
            d == End && a.remaining == 0, a.held, a.debt)
  }

  class Encoder {
    /** The most output one input byte can cause (the encoder's expansion is finite). */
    const perByte: pos

    var history: History

    constructor (perByte: pos, debt: nat)
      ensures this.perByte == perByte && history == History([], [], {}, false, 0, debt)
    {
      this.perByte, history := perByte, History([], [], {}, false, 0, debt);
    }

    /** None is an error return. A closed frame must not be written to again, and a frame must not be
        closed while `queued` input links wait behind this buffer: both are obligations of the caller. */
    method CompressStream2(input: seq<byte>, room: nat, directive: Directive, ghost queued: nat)
      returns (r: Option<Answer>)
      requires !history.ended && history.held <= history.debt
      requires directive == End ==> queued == 0
      modifies this
      ensures r.None? ==> history == old(history)
      ensures r.Some? ==> Allowed(perByte, old(history), |input|, room, directive, r.value)
                          && history == After(old(history), input, directive, r.value)
      // an input length is flushed when e_flush returns 0 there, and the frame is closed when e_end does
      ensures r.Some? ==> history.fed == old(history).fed + input[..r.value.consumed]
                          && history.produced == old(history).produced + r.value.output
                          && (history.ended <==> directive == End && r.value.remaining == 0)
                          && forall x :: x in history.flushedAt <==>
                               x in old(history).flushedAt
                               || (directive == Flush && r.value.remaining == 0 && x == |history.fed|)
    {
      var fails: bool := *;
      if fails {
        return None;
      }
      ghost var some := SomeAnswer(perByte, history, |input|, room, directive);
      var a :| Allowed(perByte, history, |input|, room, directive, a);
      assert Allowed(perByte, history, |input|, room, directive, a) && Sound(|input|, room, a);
      history := After(history, input, directive, a);
      r := Some(a);
    }
  }
}
