/**
 The streaming body filter: a re-entrant loop that moves input links through the encoder into a
 bounded set of output buffers and on to the next filter.
 */
module BodyFilter {
  import opened Basics
  import opened Encoding

  /** One input chain link: its bytes and the two control flags the filter reads. */
  datatype Link = Link(bytes: seq<byte>, flush: bool, last: bool)

  datatype Action = Compressing | Flushing | Ending

  /** An output buffer. `cap` is end - start; `inMemory` is nginx's temporary flag. */
  datatype Buf = Buf(id: nat, cap: nat, data: seq<byte>, flush: bool, last: bool, inMemory: bool)

  /** `maxLength` and `pledged` use -1 for "unset" and "unknown"; `prefix` is the dcz frame header; `margin` is what
      libzstd's bound for the pledged length has beyond a 256th more. */
  datatype Config = Config(num: nat, size: nat, maxLength: int, pledged: int, prefix: Option<seq<byte>>, margin: nat) {
    predicate Valid() {
      num >= 1 && size >= 1 && (prefix.Some? ==> |prefix.value| == DCZ_HEADER_LEN)
    }
  }

  const DCZ_HEADER_LEN := 40
  const BOUND_FRAME_SLACK := 64
  const BOUND_MIN := 256
  const ZSTD_MAX_INPUT_SIZE := 0xFF00FF00FF00FF00

  // ----- sequences of links and of buffers -----

  ghost function LinkBytes(ls: seq<Link>): seq<byte> {
    if ls == [] then [] else ls[0].bytes + LinkBytes(ls[1..])
  }

  ghost function Data(bs: seq<Buf>): seq<byte> {
    if bs == [] then [] else bs[0].data + Data(bs[1..])
  }

  ghost function Ids(bs: seq<Buf>): multiset<nat> {
    if bs == [] then multiset{} else multiset{bs[0].id} + Ids(bs[1..])
  }

  /** Work queued in a chain: one unit a link and one a byte. */
  ghost function Weight(ls: seq<Link>): nat {
    if ls == [] then 0 else 1 + |ls[0].bytes| + Weight(ls[1..])
  }

  /** Input lengths at which a flush was asked for: the end of each flush link that is not the last. */
  ghost function FlushPoints(ls: seq<Link>): set<nat> {
    if ls == [] then {} else
      var l := ls[|ls| - 1];
      FlushPoints(ls[..|ls| - 1]) + (if l.flush && !l.last then {|LinkBytes(ls)|} else {})
  }

  /** last_buf sits only on the final link of the whole stream. */
  ghost predicate LastOnlyFinal(ls: seq<Link>) {
    forall i :: 0 <= i < |ls| - 1 ==> !ls[i].last
  }

  ghost predicate EndsStream(ls: seq<Link>) {
    ls != [] && ls[|ls| - 1].last
  }

  lemma {:induction false} LinkBytesAppend(a: seq<Link>, b: seq<Link>)
    ensures LinkBytes(a + b) == LinkBytes(a) + LinkBytes(b)
  {
    if a == [] {
      assert a + b == b;
    } else {
      var c, t := a + b, a[1..];
      assert c[0] == a[0] && c[1..] == t + b;
      LinkBytesAppend(t, b);
      assert LinkBytes(c) == c[0].bytes + LinkBytes(c[1..]);
    }
  }

  lemma {:induction false} DataAppend(a: seq<Buf>, b: seq<Buf>)
    ensures Data(a + b) == Data(a) + Data(b)
  {
    if a == [] {
      assert a + b == b;
    } else {
      var c, t := a + b, a[1..];
      assert c[0] == a[0] && c[1..] == t + b;
      DataAppend(t, b);
      assert Data(c) == c[0].data + Data(c[1..]);
    }
  }

  lemma {:induction false} IdsAppend(a: seq<Buf>, b: seq<Buf>)
    ensures Ids(a + b) == Ids(a) + Ids(b)
  {
    if a == [] {
      assert a + b == b;
    } else {
      var c, t := a + b, a[1..];
      assert c[0] == a[0] && c[1..] == t + b;
      IdsAppend(t, b);
      assert Ids(c) == multiset{a[0].id} + Ids(c[1..]);
    }
  }

  lemma {:induction false} IdsSingle(b: Buf)
    ensures Ids([b]) == multiset{b.id}
    ensures Data([b]) == b.data
  {
    assert [b][1..] == [];
  }

  lemma {:induction false} FlushPointsSnoc(ls: seq<Link>, l: Link)
    ensures FlushPoints(ls + [l])
         == FlushPoints(ls) + (if l.flush && !l.last then {|LinkBytes(ls)| + |l.bytes|} else {})
  {
    assert (ls + [l])[..|ls|] == ls;
    LinkBytesAppend(ls, [l]);
    assert [l][1..] == [];
  }

  lemma {:induction false} FlushPointsWithin(ls: seq<Link>)
    ensures forall p :: p in FlushPoints(ls) ==> p <= |LinkBytes(ls)|
  {
    if ls != [] {
      var front, l := ls[..|ls| - 1], ls[|ls| - 1];
      assert ls == front + [l];
      LinkBytesAppend(front, [l]);
      FlushPointsWithin(front);
    }
  }

  /** A flush point of a longer chain that lies within the shorter one belongs to it. */
  lemma {:induction false} FlushPointsOfPrefix(a: seq<Link>, b: seq<Link>, p: nat)
    requires p in FlushPoints(a + b) && p < |LinkBytes(a)|
    ensures p in FlushPoints(a)
  {
    if b == [] {
      assert a + b == a;
    } else {
      var c := b[..|b| - 1];
      assert a + b == (a + c) + [b[|b| - 1]];
      FlushPointsSnoc(a + c, b[|b| - 1]);
      LinkBytesAppend(a, c);
      FlushPointsOfPrefix(a, c, p);
    }
  }

  // ----- the state, as values -----

  /** `received` is every link handed over while the filter was live; `taken` those already dequeued. */
  datatype Input = Input(inq: seq<Link>, src: seq<byte>, pos: nat, last: bool, flush: bool, bytesIn: nat,
                         received: seq<Link>, taken: seq<Link>)

  /** `sent` is every buffer handed to the next filter, in order. */
  datatype Output = Output(outBuf: Option<Buf>, out: seq<Buf>, busy: seq<Buf>, free: seq<Buf>, bufs: nat,
                           nomem: bool, headerSent: bool, bytesOut: nat, sent: seq<Buf>)

  datatype Mode = Mode(action: Action, redo: bool, done: bool, ready: bool, buffered: bool)

  // ----- invariants -----

  /** The bytes fed are the links' bytes in order, and every flush point passed was really flushed. */
  ghost predicate InputInv(cfg: Config, i: Input, e: History, cur: seq<Link>) {
    && i.received == i.taken + i.inq + cur
    && i.pos <= |i.src|
    && e.fed + i.src[i.pos..] == LinkBytes(i.taken)
    && LastOnlyFinal(i.received)
    && (i.last <==> EndsStream(i.taken))
    && (i.flush ==> i.taken != [] && !i.last)
    && FlushPoints(i.taken) <= e.flushedAt + (if i.flush then {|LinkBytes(i.taken)|} else {})
    && i.bytesIn == |LinkBytes(i.taken)| % TWO64
    && CapOk(cfg, i, e)
  }

  /** The running input cap: no byte beyond zstd_max_length is ever fed. */
  ghost predicate CapOk(cfg: Config, i: Input, e: History) {
    cfg.maxLength >= 0 && |LinkBytes(i.received)| < TWO64 ==> |e.fed| <= cfg.maxLength
  }

  /** More than zstd_max_length bytes have been dequeued. */
  ghost predicate OverCap(cfg: Config, i: Input) {
    && cfg.maxLength >= 0 && |LinkBytes(i.taken)| % TWO64 > cfg.maxLength
    && i.taken <= i.received
  }

  /** A stream that may never be refused for its length. */
  ghost predicate WithinCap(cfg: Config, received: seq<Link>) {
    cfg.maxLength < 0 || |LinkBytes(received)| <= cfg.maxLength
  }

  lemma WithinIsNotOver(cfg: Config, i: Input)
    ensures WithinCap(cfg, i.received) ==> !OverCap(cfg, i)
  {
    if OverCap(cfg, i) {
      var rest := i.received[|i.taken|..];
      assert i.received == i.taken + rest;
      LinkBytesAppend(i.taken, rest);
    }
  }

  lemma CapIsExceeded(cfg: Config, i: Input, o: Output, m: Mode, e: History, cur: seq<Link>)
    requires Live(cfg, i, o, m, e, cur) && cfg.maxLength >= 0 && i.bytesIn > cfg.maxLength
    ensures OverCap(cfg, i)
  {
    assert i.received == i.taken + (i.inq + cur);
  }

  ghost predicate ModeInv(m: Mode, i: Input, e: History) {
    && (m.action == Ending ==> i.last)
    && (!e.ended ==> (m.redo <==> m.action != Compressing))
    && (m.done <==> e.ended)
    && (e.ended ==> i.last && i.pos == |i.src| && !m.buffered)
  }

  /** What the encoder holds back: nothing once a flush is done, until it is fed again. */
  ghost predicate HeldInv(i: Input, m: Mode, e: History) {
    && e.held <= e.debt
    && (e.ended ==> e.held == 0)
    && (JustFlushed(i) ==> e.held == 0 && !m.redo && i.pos == |i.src|)
  }

  /** Every byte dequeued came before a flush, and that flush is done. */
  ghost predicate JustFlushed(i: Input) {
    !i.flush && !i.last && |LinkBytes(i.taken)| in FlushPoints(i.taken)
  }

  /** Until the first real call nothing has happened. */
  ghost predicate Fresh(m: Mode, i: Input, o: Output) {
    i.taken == [] && i.inq == [] && i.src == [] && !m.redo && o.out == [] && o.busy == []
  }

  ghost function Prefix(cfg: Config): seq<byte> {
    if cfg.prefix.Some? then cfg.prefix.value else []
  }

  ghost function Pre(cfg: Config, o: Output): seq<byte> {
    if o.headerSent then Prefix(cfg) else []
  }

  ghost function OutData(o: Output): seq<byte> {
    if o.outBuf.Some? then o.outBuf.value.data else []
  }

  /** A queued buffer is empty only if it is the terminal one, which nginx then treats as special;
      last_buf stands only on the final buffer, and only once the frame is closed. */
  ghost predicate QueueOk(q: seq<Buf>, ended: bool) {
    && (forall k :: 0 <= k < |q| ==> BufferOk(q[k], ended))
    && (forall k :: 0 <= k < |q| - 1 ==> !q[k].last)
  }

  ghost predicate BufferOk(b: Buf, ended: bool) {
    (b.inMemory <==> b.data != []) && (b.data == [] ==> b.last) && (b.last ==> ended)
  }

  /** The bytes emitted are the dcz prefix, once and first, and then exactly the encoder's output. */
  ghost predicate OutputInv(cfg: Config, o: Output, e: History) {
    && Data(o.sent + o.out) + OutData(o) == Pre(cfg, o) + e.produced
    && (o.headerSent <==> cfg.prefix.Some? && o.bufs > 0)
    && (e.produced != [] || o.sent + o.out != [] ==> o.bufs > 0)
    && o.bytesOut == |Data(o.sent + o.out)| % TWO64
    && QueueOk(o.sent + o.out, e.ended)
    && (e.ended ==> o.sent + o.out != [] && (o.sent + o.out)[|o.sent + o.out| - 1].last)
  }

  ghost function LiveIds(o: Output): multiset<nat> {
    Ids(o.out) + Ids(o.busy) + Ids(o.free) + (if o.outBuf.Some? then multiset{o.outBuf.value.id} else multiset{})
  }

  /** No buffer holds more than it has room for. */
  ghost predicate UsableBuf(b: Buf, ended: bool) {
    b.cap >= 1 && |b.data| <= b.cap && (!ended ==> b.inMemory)
  }

  ghost predicate Usable(bs: seq<Buf>, ended: bool) {
    forall k :: 0 <= k < |bs| ==> UsableBuf(bs[k], ended)
  }

  /** No identifier twice, and only those of buffers already made. */
  ghost predicate IdsOk(ids: multiset<nat>, bufs: nat) {
    (forall x :: ids[x] <= 1) && (forall x :: x in ids ==> x < bufs)
  }

  /** Each live buffer is in exactly one place, and one survives every drop. */
  ghost predicate BufInv(cfg: Config, o: Output, ended: bool) {
    && IdsOk(LiveIds(o), o.bufs)
    && o.bufs <= cfg.num
    && (o.bufs > 0 ==> o.outBuf.Some? || o.out != [] || o.busy != [] || o.free != [])
    && Usable(o.out, ended) && Usable(o.busy, ended) && Usable(o.free, ended)
    && (forall k :: 0 <= k < |o.free| ==> o.free[k].data == [])
    && (o.outBuf.Some? ==> UsableBuf(o.outBuf.value, ended))
    && (o.nomem ==> o.outBuf.None?)
  }

  /** Any output buffer kept from an earlier step is empty: dropping it loses nothing. */
  ghost predicate Settled(o: Output) {
    o.outBuf.Some? ==> o.outBuf.value.data == [] && !o.outBuf.value.flush && !o.outBuf.value.last
  }

  ghost predicate Live(cfg: Config, i: Input, o: Output, m: Mode, e: History, cur: seq<Link>) {
    && cfg.Valid()
    && InputInv(cfg, i, e, cur)
    && ModeInv(m, i, e)
    && HeldInv(i, m, e)
    && OutputInv(cfg, o, e)
    && BufInv(cfg, o, e.ended)
  }

  /** What holds at every moment, also after a failure: the input side ... */
  ghost predicate SafeInput(cfg: Config, i: Input, e: History) {
    && e.fed <= LinkBytes(i.received)
    && (forall p :: p in FlushPoints(i.received) && p < |e.fed| ==> p in e.flushedAt)
    && (e.ended ==> EndsStream(i.received) && e.fed == LinkBytes(i.received))
    && CapOk(cfg, i, e)
  }

  /** ... and the output side. */
  ghost predicate SafeOutput(cfg: Config, o: Output, e: History) {
    Data(o.sent) <= Prefix(cfg) + e.produced && QueueOk(o.sent, e.ended)
  }

  ghost predicate Safe(cfg: Config, i: Input, o: Output, e: History) {
    SafeInput(cfg, i, e) && SafeOutput(cfg, o, e)
  }

  lemma LastIsFinal(cfg: Config, i: Input, e: History, cur: seq<Link>)
    requires InputInv(cfg, i, e, cur) && i.last
    ensures i.inq == [] && cur == [] && i.taken == i.received
  {
    var k := |i.taken| - 1;
    assert i.received[k] == i.taken[k];
    assert k == |i.received| - 1 by {
      assert LastOnlyFinal(i.received);
    }
  }

  lemma InputIsSafe(cfg: Config, i: Input, e: History, cur: seq<Link>)
    requires InputInv(cfg, i, e, cur) && (e.ended ==> i.last && i.pos == |i.src|)
    ensures SafeInput(cfg, i, e)
  {
    LinkBytesAppend(i.taken, i.inq + cur);
    assert i.received == i.taken + (i.inq + cur);
    assert e.fed <= LinkBytes(i.taken) <= LinkBytes(i.received);
    forall p | p in FlushPoints(i.received) && p < |e.fed|
      ensures p in e.flushedAt
    {
      FlushPointsOfPrefix(i.taken, i.inq + cur, p);
    }
    if e.ended {
      LastIsFinal(cfg, i, e, cur);
      assert i.src[i.pos..] == [];
    }
  }

  /** The encoder may have run on: what was sent is still a prefix of what is owed. */
  lemma OutputIsSafe(cfg: Config, o: Output, e: History, f: History)
    requires OutputInv(cfg, o, e) && e.produced <= f.produced && (e.ended ==> f.ended)
    ensures SafeOutput(cfg, o, f)
  {
    DataAppend(o.sent, o.out);
    assert Data(o.sent) <= Data(o.sent + o.out) <= Pre(cfg, o) + e.produced <= Pre(cfg, o) + f.produced;
    if Pre(cfg, o) != Prefix(cfg) {
      assert o.bufs == 0;
      AllBeforeFirst(cfg, o, e);
    }
    QueuePrefixOk(o.sent, o.out, e.ended);
    forall k | 0 <= k < |o.sent|
      ensures BufferOk(o.sent[k], f.ended)
    {
      assert BufferOk(o.sent[k], e.ended);
    }
  }

  lemma LiveIsSafe(cfg: Config, i: Input, o: Output, m: Mode, e: History, cur: seq<Link>)
    requires Live(cfg, i, o, m, e, cur)
    ensures Safe(cfg, i, o, e)
  {
    InputIsSafe(cfg, i, e, cur);
    OutputIsSafe(cfg, o, e, e);
  }

  lemma QueuePrefixOk(a: seq<Buf>, b: seq<Buf>, ended: bool)
    requires QueueOk(a + b, ended)
    ensures QueueOk(a, ended)
  {
    forall k | 0 <= k < |a|
      ensures BufferOk(a[k], ended) && (k < |a| - 1 ==> !a[k].last)
    {
      assert a[k] == (a + b)[k];
    }
  }

  // ----- the steps, as functions of the state -----

  /** Remaining input of a call: queued links, queued bytes and the unread part of buffer_in. */
  ghost function InputLeft(i: Input, cur: seq<Link>): nat
    requires i.pos <= |i.src|
  {
    Weight(i.inq) + Weight(cur) + |i.src| - i.pos
  }

  ghost function FlagsLeft(i: Input, m: Mode): nat {
    (if m.redo then 1 else 0) + (if i.flush then 1 else 0)
  }

  ghost predicate HasWork(i: Input, redo: bool) {
    i.pos < |i.src| || i.flush || i.last || redo
  }

  /** add_data: dequeue one link when the encoder has nothing left to do. */
  ghost function AddDataStep(i: Input, cur: seq<Link>, redo: bool): (Rc, Input, seq<Link>) {
    if HasWork(i, redo) then (OK, i, cur)
    else if i.inq == [] && cur == [] then (DECLINED, i, cur)
    else if i.inq != [] then
      var (rc, j) := Load(i.(inq := i.inq[1..]), i.inq[0]);
      (rc, j, cur)
    else
      var (rc, j) := Load(i, cur[0]);
      (rc, j, cur[1..])
  }

  /** last_buf wins over flush; a data-less carrier is never loaded into buffer_in. */
  ghost function Load(i: Input, link: Link): (Rc, Input) {
    var j := i.(last := i.last || link.last, flush := i.flush || (link.flush && !link.last),
                taken := i.taken + [link]);
    if link.bytes == [] then
      (if j.last || j.flush then OK else AGAIN, j)
    else
      (OK, j.(src := link.bytes, pos := 0, bytesIn := (i.bytesIn + |link.bytes|) % TWO64))
  }

  lemma LoadTaken(i: Input, e: History, link: Link)
    requires !i.flush && FlushPoints(i.taken) <= e.flushedAt
    ensures var j := Load(i, link).1;
            && j.taken == i.taken + [link] && LinkBytes(j.taken) == LinkBytes(i.taken) + link.bytes
            && FlushPoints(j.taken) <= e.flushedAt + (if j.flush then {|LinkBytes(j.taken)|} else {})
            && EndsStream(j.taken) == link.last
  {
    LinkBytesAppend(i.taken, [link]);
    assert [link][1..] == [];
    assert LinkBytes([link]) == link.bytes;
    FlushPointsSnoc(i.taken, link);
    hide LinkBytes, FlushPoints;
  }

  lemma LoadKeeps(cfg: Config, i: Input, e: History, link: Link, cur: seq<Link>)
    requires i.received == i.taken + [link] + i.inq + cur && LastOnlyFinal(i.received)
    requires i.pos == |i.src| && !i.flush && !i.last
    requires e.fed == LinkBytes(i.taken) && FlushPoints(i.taken) <= e.flushedAt
    requires i.bytesIn == |LinkBytes(i.taken)| % TWO64 && CapOk(cfg, i, e)
    ensures InputInv(cfg, Load(i, link).1, e, cur)
  {
    hide LinkBytes, FlushPoints, LastOnlyFinal, EndsStream;
    LoadTaken(i, e, link);
    ModAdd(|LinkBytes(i.taken)|, |link.bytes|, TWO64);
    var j := Load(i, link).1;
    assert j.src[j.pos..] == link.bytes;
  }

  lemma SameHeld(i: Input, j: Input, m: Mode, e: History)
    requires HeldInv(i, m, e) && j == i.(inq := j.inq, received := j.received)
    ensures HeldInv(j, m, e)
  {
  }

  lemma LoadHeld(i: Input, m: Mode, e: History, link: Link)
    requires HeldInv(i, m, e) && !HasWork(i, m.redo) && i.pos <= |i.src|
    ensures HeldInv(Load(i, link).1, m, e)
  {
    FlushPointsSnoc(i.taken, link);
    FlushPointsWithin(i.taken);
    LinkBytesAppend(i.taken, [link]);
    assert [link][1..] == [];
    hide FlushPoints;
    assert LinkBytes([link]) == link.bytes;
    hide LinkBytes;
  }

  lemma AddDataKeeps(cfg: Config, i: Input, e: History, cur: seq<Link>, m: Mode)
    requires InputInv(cfg, i, e, cur) && ModeInv(m, i, e) && HeldInv(i, m, e) && !e.ended
    ensures var (rc, j, rest) := AddDataStep(i, cur, m.redo);
            && InputInv(cfg, j, e, rest) && ModeInv(m, j, e) && HeldInv(j, m, e)
            && j.received == i.received
            && (rc == OK ==> HasWork(j, m.redo)
                             && (InputLeft(j, rest) < InputLeft(i, cur) || (j == i && rest == cur)))
            && (rc == AGAIN ==> InputLeft(j, rest) < InputLeft(i, cur))
            && (rc == DECLINED ==> j == i && rest == [] && i.inq == [] && !HasWork(i, m.redo))
            && rc != ERROR
  {
    hide FlushPoints, LinkBytes, LastOnlyFinal, EndsStream, HeldInv;
    if !HasWork(i, m.redo) && (i.inq != [] || cur != []) {
      var k := if i.inq != [] then i.(inq := i.inq[1..]) else i;
      var link := if i.inq != [] then i.inq[0] else cur[0];
      var rest := if i.inq != [] then cur else cur[1..];
      assert i.inq + cur == [link] + k.inq + rest;
      assert i.received == i.taken + (i.inq + cur);
      assert i.received == i.taken + [link] + k.inq + rest;
      LoadKeeps(cfg, k, e, link, rest);
      SameHeld(i, k, m, e);
      LoadHeld(k, m, e, link);
    }
  }

  /** A recycled buffer keeps nothing of its past: its control flags are cleared. */
  ghost function Reused(o: Output): Output
    requires o.free != []
  {
    o.(free := o.free[1..], outBuf := Some(o.free[0].(flush := false, last := false)))
  }

  /** get_buf: keep the current buffer, reuse a free one, allocate, or decline. `space` is the compressor's
      share of a new buffer, None when the allocation fails. */
  ghost function GetBufStep(cfg: Config, o: Output, space: Option<nat>): (Rc, Output) {
    if o.outBuf.Some? && |o.outBuf.value.data| < o.outBuf.value.cap then (OK, o)
    else if o.free != [] then (OK, Reused(o))
    else if o.bufs < cfg.num then
      if space.None? then (ERROR, o) else
        var wantPrefix := o.bufs == 0 && cfg.prefix.Some? && !o.headerSent;
        var data := if wantPrefix then cfg.prefix.value else [];
        (OK, o.(outBuf := Some(Buf(o.bufs, space.value + |data|, data, false, false, true)),
                bufs := o.bufs + 1, headerSent := o.headerSent || wantPrefix))
    else (DECLINED, o.(nomem := true))
  }

  lemma ReuseKeeps(cfg: Config, o: Output)
    requires BufInv(cfg, o, false) && o.outBuf.None? && o.free != [] && !o.nomem
    ensures BufInv(cfg, Reused(o), false)
  {
    assert LiveIds(Reused(o)) == LiveIds(o) by {
      assert Ids(o.free) == multiset{o.free[0].id} + Ids(o.free[1..]);
    }
    assert UsableBuf(o.free[0], false);
  }

  /** What the buffer invariant says about the buffer that may be handed out next. */
  lemma Available(cfg: Config, o: Output)
    requires BufInv(cfg, o, false)
    ensures o.outBuf.Some? ==> o.outBuf.value.cap >= 1
    ensures o.free != [] ==> o.free[0].data == [] && o.free[0].cap >= 1
    ensures o.bufs > 0 ==> o.outBuf.Some? || o.out != [] || o.busy != [] || o.free != []
    ensures o.outBuf.None? ==> BufInv(cfg, o.(nomem := true), false)
  {
    if o.free != [] {
      assert UsableBuf(o.free[0], false);
    }
  }

  lemma AllocateKeeps(cfg: Config, o: Output, b: Buf, headerSent: bool)
    requires BufInv(cfg, o, false) && o.outBuf.None? && o.bufs < cfg.num && !o.nomem
    requires b.id == o.bufs && UsableBuf(b, false)
    ensures BufInv(cfg, o.(outBuf := Some(b), bufs := o.bufs + 1, headerSent := headerSent), false)
  {
    var p := o.(outBuf := Some(b), bufs := o.bufs + 1, headerSent := headerSent);
    assert LiveIds(p) == LiveIds(o) + multiset{o.bufs};
    forall x
      ensures LiveIds(p)[x] <= 1 && (x in LiveIds(p) ==> x < p.bufs)
    {
      assert x in LiveIds(o) ==> x < o.bufs;
    }
  }

  lemma GetBufKeeps(cfg: Config, o: Output, e: History, space: Option<nat>)
    requires cfg.Valid() && OutputInv(cfg, o, e) && BufInv(cfg, o, e.ended) && Settled(o) && !e.ended && !o.nomem
    requires space.Some? ==> space.value >= 1
    ensures var (rc, p) := GetBufStep(cfg, o, space);
            && OutputInv(cfg, p, e) && BufInv(cfg, p, e.ended)
            && p.sent == o.sent && p.out == o.out && p.busy == o.busy
            && (rc == OK ==> p.outBuf.Some? && |p.outBuf.value.data| < p.outBuf.value.cap
                             && !p.outBuf.value.flush && !p.outBuf.value.last && !p.nomem)
            && (rc == DECLINED ==> p == o.(nomem := true) && (o.out != [] || o.busy != []) && o.outBuf.None?)
            && (rc == DECLINED ==> o.bufs >= cfg.num && o.free == [])
            && (p.bufs != o.bufs ==> p.bufs == o.bufs + 1 <= cfg.num && o.free == [])
            && (o.outBuf.Some? ==> p == o)
            && (rc == ERROR ==> p == o)
            && rc != AGAIN
  {
    GetBufAnswers(cfg, o, space);
    hide GetBufStep, BufInv, OutputInv, Settled;
    GetBufBuffers(cfg, o, space);
    GetBufOutput(cfg, o, e, space);
  }

  lemma GetBufAnswers(cfg: Config, o: Output, space: Option<nat>)
    requires cfg.Valid() && BufInv(cfg, o, false) && Settled(o) && !o.nomem && (space.Some? ==> space.value >= 1)
    ensures var (rc, p) := GetBufStep(cfg, o, space);
            && p.sent == o.sent && p.out == o.out && p.busy == o.busy
            && (rc == OK ==> p.outBuf.Some? && |p.outBuf.value.data| < p.outBuf.value.cap
                             && !p.outBuf.value.flush && !p.outBuf.value.last && !p.nomem)
            && (rc == DECLINED ==> p == o.(nomem := true) && (o.out != [] || o.busy != []) && o.outBuf.None?)
            && (rc == DECLINED ==> o.bufs >= cfg.num && o.free == [])
            && (p.bufs != o.bufs ==> p.bufs == o.bufs + 1 <= cfg.num && o.free == [])
            && (o.outBuf.Some? ==> p == o)
            && (rc == ERROR ==> p == o)
            && rc != AGAIN
  {
    hide BufInv;
    Available(cfg, o);
    hide UsableBuf;
  }

  lemma NewBufferUsable(b: Buf)
    requires b.cap >= 1 && |b.data| <= b.cap && b.inMemory
    ensures UsableBuf(b, false)
  {
  }

  lemma GetBufBuffers(cfg: Config, o: Output, space: Option<nat>)
    requires BufInv(cfg, o, false) && Settled(o) && !o.nomem && (space.Some? ==> space.value >= 1)
    ensures BufInv(cfg, GetBufStep(cfg, o, space).1, false)
  {
    hide BufInv, UsableBuf;
    Available(cfg, o);
    if o.outBuf.None? && o.free != [] {
      ReuseKeeps(cfg, o);
    } else if o.outBuf.None? && o.bufs < cfg.num && space.Some? {
      var p := GetBufStep(cfg, o, space).1;
      assert UsableBuf(p.outBuf.value, false) by {
        NewBufferUsable(p.outBuf.value);
      }
      AllocateKeeps(cfg, o, p.outBuf.value, p.headerSent);
    }
  }

  lemma GetBufOutput(cfg: Config, o: Output, e: History, space: Option<nat>)
    requires OutputInv(cfg, o, e) && BufInv(cfg, o, false) && Settled(o) && !e.ended
    ensures OutputInv(cfg, GetBufStep(cfg, o, space).1, e)
  {
    Available(cfg, o);
    hide BufInv, OutputInv;
    if o.outBuf.None? && o.free != [] {
      ReuseOutput(cfg, o, e);
    } else if o.outBuf.None? && o.bufs < cfg.num && space.Some? {
      AllocateOutput(cfg, o, e, space);
    } else {
      NomemOutput(cfg, o, e);
    }
  }

  lemma NomemOutput(cfg: Config, o: Output, e: History)
    requires OutputInv(cfg, o, e)
    ensures OutputInv(cfg, o.(nomem := true), e)
  {
    hide Data;
  }

  lemma ReuseOutput(cfg: Config, o: Output, e: History)
    requires OutputInv(cfg, o, e) && o.outBuf.None? && o.free != [] && o.free[0].data == []
    ensures OutputInv(cfg, Reused(o), e)
  {
    hide Data;
  }

  /** The first buffer of all starts with the prefix; the later ones are empty. */
  lemma AllocateOutput(cfg: Config, o: Output, e: History, space: Option<nat>)
    requires OutputInv(cfg, o, e) && BufInv(cfg, o, false) && o.outBuf.None? && !e.ended
    requires o.free == [] && o.bufs < cfg.num && space.Some?
    ensures OutputInv(cfg, GetBufStep(cfg, o, space).1, e)
  {
    if o.bufs == 0 {
      NoBuffersYet(o);
      AllBeforeFirst(cfg, o, e);
    }
    hide Data;
  }

  /** Before the first allocation nothing was produced, queued or sent. */
  lemma AllBeforeFirst(cfg: Config, o: Output, e: History)
    requires OutputInv(cfg, o, e) && o.bufs == 0
    ensures Data(o.sent + o.out) == [] && OutData(o) == [] && e.produced == [] && !o.headerSent
  {
    assert Pre(cfg, o) == [] && e.produced == [];
    assert |Data(o.sent + o.out)| + |OutData(o)| == 0;
  }

  lemma NoBuffersYet(o: Output)
    requires forall x :: x in LiveIds(o) ==> x < o.bufs
    requires o.bufs == 0
    ensures o.out == [] && o.busy == [] && o.free == [] && o.outBuf.None?
  {
    assert LiveIds(o) == multiset{};
    assert Ids(o.out) == multiset{} && Ids(o.busy) == multiset{} && Ids(o.free) == multiset{};
  }

  /** END wins as soon as this is provably the final input; a pending flush maps to e_flush. */
  ghost function DirectiveOf(i: Input, m: Mode, noMore: bool): Directive {
    if m.action == Ending || (i.last && noMore) then End
    else if m.action == Flushing || i.flush then Flush
    else Continue
  }

  ghost function NextMode(m: Mode, d: Directive, a: Answer): Mode {
    if a.remaining > 0 then
      m.(redo := true, action := if d == End then Ending else if m.action == Compressing then Flushing else m.action)
    else
      m.(redo := false, action := if m.action == Ending then Ending else Compressing)
  }

  /** Account for an answer: advance both positions and the action state machine. The transition to END
      that the source also has after a non-END call is absent: see NoLateTransition. */
  ghost function ApplyStep(i: Input, o: Output, m: Mode, d: Directive, a: Answer): (Input, Output, Mode)
    requires o.outBuf.Some?
  {
    var b := o.outBuf.value;
    (i.(pos := i.pos + a.consumed), o.(outBuf := Some(b.(data := b.data + a.output))), NextMode(m, d, a))
  }

  ghost function Queued(o: Output, b: Buf): Output {
    o.(outBuf := None, out := o.out + [b], bytesOut := (o.bytesOut + |b.data|) % TWO64)
  }

  /** Queue the current buffer, unless it is empty and not terminal. `zero` says that the encoder returned 0. */
  ghost function EmitStep(i: Input, o: Output, m: Mode, zero: bool, terminal: bool, linked: bool)
    : (Rc, Input, Output, Mode)
    requires o.outBuf.Some?
  {
    var b := o.outBuf.value;
    var settled := zero && (i.flush || terminal);
    var j := if settled then i.(flush := false) else i;
    if b.data == [] && !terminal then
      (AGAIN, j, o, if settled then m.(buffered := false) else m)
    else if !linked then
      (ERROR, i, o, m)
    else
      var c := b.(flush := if settled then i.flush && !i.last else b.flush,
                  last := if settled then terminal else b.last,
                  inMemory := b.inMemory && b.data != []);
      (if terminal then OK else AGAIN, j, Queued(o, c),
       if settled then m.(buffered := false, done := terminal) else m)
  }

  /** compress, given the encoder's answer and whether a chain link could be allocated. */
  ghost function CompressStep(i: Input, o: Output, m: Mode, noMore: bool, a: Answer, linked: bool)
    : (Rc, Input, Output, Mode)
    requires o.outBuf.Some?
  {
    var d := DirectiveOf(i, m, noMore);
    var (j, p, n) := ApplyStep(i, o, m, d, a);
    EmitStep(j, p, n, a.remaining == 0, a.remaining == 0 && i.last && d == End, linked)
  }

  /** Once the encoder reports that it holds something back, it is asked for it until it has none: no e_continue comes
      before e_flush, or e_end if that was asked, has returned 0. */
  lemma HeldBackIsAskedFor(i: Input, o: Output, m: Mode, noMore: bool, a: Answer, linked: bool, noMoreThen: bool)
    requires o.outBuf.Some? && a.remaining > 0
    ensures var (rc, j, p, n) := CompressStep(i, o, m, noMore, a, linked);
            rc != ERROR ==>
              && n.redo && DirectiveOf(j, n, noMoreThen) != Continue
              && (DirectiveOf(i, m, noMore) == End ==> DirectiveOf(j, n, noMoreThen) == End)
    ensures var (rc, j, p, n) := CompressStep(i, o, m, noMore, a.(remaining := 0), linked);
            rc == AGAIN && m.action != Ending && !j.flush && !(j.last && noMoreThen) ==> DirectiveOf(j, n, noMoreThen) == Continue
  {
  }

  /** The guard of the late COMPRESS-to-END transition never holds: with the last link taken and nothing
      queued, the directive of the call was already END. */
  lemma NoLateTransition(i: Input, m: Mode, noMore: bool)
    ensures !(i.last && m.action != Ending && DirectiveOf(i, m, noMore) != End && noMore)
  {
  }

  /** The input side after an answer. */
  lemma FeedKeeps(cfg: Config, i: Input, e: History, cur: seq<Link>, d: Directive, a: Answer, flush: bool)
    requires InputInv(cfg, i, e, cur) && a.consumed <= |i.src| - i.pos
    requires cfg.maxLength >= 0 ==> i.bytesIn <= cfg.maxLength
    requires a.remaining == 0 ==> a.consumed == |i.src| - i.pos
    requires flush == i.flush || (i.flush && d == Flush && a.remaining == 0)
    ensures InputInv(cfg, i.(pos := i.pos + a.consumed, flush := flush), After(e, i.src[i.pos..], d, a), cur)
  {
    hide LinkBytes, FlushPoints, LastOnlyFinal, EndsStream;
    var input := i.src[i.pos..];
    var f := After(e, input, d, a);
    assert input == input[..a.consumed] + i.src[i.pos + a.consumed..];
    assert f.fed + i.src[i.pos + a.consumed..] == LinkBytes(i.taken);
    if a.remaining == 0 {
      assert i.src[i.pos + a.consumed..] == [];
      assert f.fed == LinkBytes(i.taken);
    }
    LinkBytesAppend(i.taken, i.inq + cur);
    assert i.received == i.taken + (i.inq + cur);
    assert |f.fed| <= |LinkBytes(i.taken)| <= |LinkBytes(i.received)|;
  }

  /** The mode side after an answer. */
  lemma CompressMode(i: Input, o: Output, m: Mode, e: History, noMore: bool, a: Answer, linked: bool)
    requires ModeInv(m, i, e) && !e.ended && o.outBuf.Some?
    requires i.last ==> noMore
    requires i.flush ==> !i.last
    requires a.consumed <= |i.src| - i.pos && i.pos <= |i.src|
    requires a.remaining == 0 ==> a.consumed == |i.src| - i.pos
    ensures var d := DirectiveOf(i, m, noMore);
            var (rc, j, p, n) := CompressStep(i, o, m, noMore, a, linked);
            var f := After(e, i.src[i.pos..], d, a);
            && (d == End <==> i.last)
            && (rc != ERROR ==> ModeInv(n, j, f))
            && (rc == OK <==> f.ended && rc != ERROR)
            && j == i.(pos := i.pos + a.consumed, flush := j.flush)
            && (rc != ERROR && a.remaining == 0 ==> FlagsLeft(j, n) == 0)
            && (j.flush == i.flush || (i.flush && d == Flush && a.remaining == 0))
  {
  }

  /** What is held back after an answer. */
  lemma CompressHeld(i: Input, o: Output, m: Mode, e: History, cur: seq<Link>, perByte: pos, a: Answer, linked: bool)
    requires HeldInv(i, m, e) && HasWork(i, m.redo) && Ready(o) && i.pos <= |i.src|
    requires Documented(perByte, i, o, m, e, cur, a)
    ensures var noMore := i.inq == [] && cur == [];
            var (rc, j, p, n) := CompressStep(i, o, m, noMore, a, linked);
            rc != ERROR ==> HeldInv(j, n, After(e, i.src[i.pos..], DirectiveOf(i, m, noMore), a))
  {
    hide LinkBytes, FlushPoints;
  }

  lemma CompressInput(cfg: Config, i: Input, o: Output, m: Mode, e: History, cur: seq<Link>, a: Answer, linked: bool)
    requires InputInv(cfg, i, e, cur) && ModeInv(m, i, e) && !e.ended && o.outBuf.Some?
    requires cfg.maxLength >= 0 ==> i.bytesIn <= cfg.maxLength
    requires a.consumed <= |i.src| - i.pos
    requires a.remaining == 0 ==> a.consumed == |i.src| - i.pos
    ensures var noMore := i.inq == [] && cur == [];
            var d := DirectiveOf(i, m, noMore);
            var (rc, j, p, n) := CompressStep(i, o, m, noMore, a, linked);
            var f := After(e, i.src[i.pos..], d, a);
            && (d == End <==> i.last) && (i.last ==> noMore)
            && InputInv(cfg, j, f, cur)
            && (rc != ERROR ==> ModeInv(n, j, f))
            && (rc == OK <==> f.ended && rc != ERROR)
            && j == i.(pos := i.pos + a.consumed, flush := j.flush)
            && (rc != ERROR && a.remaining == 0 ==> FlagsLeft(j, n) == 0)
  {
    var noMore := i.inq == [] && cur == [];
    if i.last {
      LastIsFinal(cfg, i, e, cur);
    }
    CompressMode(i, o, m, e, noMore, a, linked);
    hide CompressStep;
    var j := CompressStep(i, o, m, noMore, a, linked).1;
    FeedKeeps(cfg, i, e, cur, DirectiveOf(i, m, noMore), a, j.flush);
  }

  /** Queueing the current buffer after the encoder wrote `output` into it. */
  lemma QueueOutput(cfg: Config, o: Output, e: History, f: History, b: Buf, output: seq<byte>)
    requires OutputInv(cfg, o, e) && o.bufs > 0 && !e.ended && o.outBuf.Some?
    requires f.produced == e.produced + output && b.data == o.outBuf.value.data + output
    requires BufferOk(b, f.ended) && (f.ended ==> b.last)
    ensures OutputInv(cfg, Queued(o, b), f)
  {
    var p := Queued(o, b);
    assert o.sent + p.out == (o.sent + o.out) + [b];
    DataAppend(o.sent + o.out, [b]);
    IdsSingle(b);
    assert Data(o.sent + o.out) + b.data == (Data(o.sent + o.out) + OutData(o)) + output;
    assert Pre(cfg, p) + f.produced == (Pre(cfg, o) + e.produced) + output;
    ModAdd(|Data(o.sent + o.out)|, |b.data|, TWO64);
    SnocQueueOk(o.sent + o.out, b, f.ended);
  }

  lemma QueuedIds(o: Output, b: Buf)
    requires o.outBuf.Some? && b.id == o.outBuf.value.id
    ensures LiveIds(Queued(o, b)) == LiveIds(o)
  {
    IdsAppend(o.out, [b]);
    IdsSingle(b);
  }

  lemma QueueBuffers(cfg: Config, o: Output, b: Buf, ended: bool)
    requires BufInv(cfg, o, false) && o.outBuf.Some?
    requires b.id == o.outBuf.value.id && UsableBuf(b, ended)
    ensures BufInv(cfg, Queued(o, b), ended)
  {
    QueuedIds(o, b);
    UsableLater(o.out, ended);
    UsableLater(o.busy, ended);
    UsableLater(o.free, ended);
    UsableSnoc(o.out, b, ended);
    hide LiveIds, Usable, UsableBuf, IdsOk;
  }

  lemma UsableSnoc(q: seq<Buf>, b: Buf, ended: bool)
    requires Usable(q, ended) && UsableBuf(b, ended)
    ensures Usable(q + [b], ended)
  {
  }

  lemma UsableLater(q: seq<Buf>, ended: bool)
    requires Usable(q, false)
    ensures Usable(q, ended)
  {
    forall k | 0 <= k < |q|
      ensures UsableBuf(q[k], ended)
    {
      assert UsableBuf(q[k], false);
    }
  }

  lemma SnocQueueOk(q: seq<Buf>, b: Buf, ended: bool)
    requires QueueOk(q, false) && BufferOk(b, ended)
    ensures QueueOk(q + [b], ended)
  {
    forall k | 0 <= k < |q|
      ensures BufferOk(q[k], ended) && !q[k].last
    {
      assert BufferOk(q[k], false);
    }
  }

  ghost predicate Ready(o: Output) {
    && o.outBuf.Some? && |o.outBuf.value.data| < o.outBuf.value.cap
    && !o.outBuf.value.flush && !o.outBuf.value.last && !o.nomem
  }

  ghost function Room(o: Output): nat
    requires Ready(o)
  {
    o.outBuf.value.cap - |o.outBuf.value.data|
  }

  /** The encoder's contract for the call that the filter makes in this state. */
  ghost predicate Documented(perByte: pos, i: Input, o: Output, m: Mode, e: History, cur: seq<Link>, a: Answer)
    requires Ready(o) && i.pos <= |i.src|
  {
    Allowed(perByte, e, |i.src| - i.pos, Room(o), DirectiveOf(i, m, i.inq == [] && cur == []), a)
  }

  lemma BuffersExist(cfg: Config, o: Output)
    requires BufInv(cfg, o, false) && o.outBuf.Some?
    ensures o.bufs > 0
  {
    assert o.outBuf.value.id in LiveIds(o);
  }

  /** What compress does to the output side: nothing, or queue the current buffer as `b`. */
  lemma CompressShape(i: Input, o: Output, m: Mode, e: History, noMore: bool, a: Answer, linked: bool)
    returns (b: Buf)
    requires !e.ended && Ready(o) && UsableBuf(o.outBuf.value, false) && i.pos <= |i.src|
    requires DirectiveOf(i, m, noMore) == End <==> i.last
    requires Sound(|i.src| - i.pos, Room(o), a)
    ensures var (rc, j, p, n) := CompressStep(i, o, m, noMore, a, linked);
            var f := After(e, i.src[i.pos..], DirectiveOf(i, m, noMore), a);
            && b.id == o.outBuf.value.id && b.data == o.outBuf.value.data + a.output
            && (rc == ERROR ==> p == o.(outBuf := p.outBuf))
            && (rc != ERROR ==>
                  || (p == o && a.output == [] && b.data == [] && !f.ended && rc == AGAIN)
                  || (p == Queued(o, b) && BufferOk(b, f.ended) && UsableBuf(b, f.ended) && (f.ended ==> b.last)
                      && (b.flush <==> i.flush && !i.last && a.remaining == 0)))
            && (a.output == [] ==> a.remaining == 0)
  {
    b := o.outBuf.value.(data := o.outBuf.value.data + a.output);
    var p := CompressStep(i, o, m, noMore, a, linked).2;
    if p.outBuf.None? {
      b := p.out[|o.out|];
    }
  }

  lemma CompressOutput(cfg: Config, i: Input, o: Output, m: Mode, e: History, noMore: bool, a: Answer, linked: bool)
    requires OutputInv(cfg, o, e) && BufInv(cfg, o, false) && !e.ended && Ready(o) && i.pos <= |i.src|
    requires DirectiveOf(i, m, noMore) == End <==> i.last
    requires Sound(|i.src| - i.pos, Room(o), a)
    ensures var (rc, j, p, n) := CompressStep(i, o, m, noMore, a, linked);
            var f := After(e, i.src[i.pos..], DirectiveOf(i, m, noMore), a);
            && p.sent == o.sent && !p.nomem
            && (rc == ERROR ==> SafeOutput(cfg, p, f))
            && (rc != ERROR ==> OutputInv(cfg, p, f) && BufInv(cfg, p, f.ended) && Settled(p))
            && (rc == OK ==> p.out != [])
  {
    var b := CompressShape(i, o, m, e, noMore, a, linked);
    var (rc, j, p, n) := CompressStep(i, o, m, noMore, a, linked);
    var f := After(e, i.src[i.pos..], DirectiveOf(i, m, noMore), a);
    if rc == ERROR {
      // a terminal buffer may be lost here; the part already sent is still a prefix
      OutputIsSafe(cfg, o, e, f);
    } else {
      hide CompressStep, Room, Ready, Sound;
      if p != o {
        BuffersExist(cfg, o);
        QueueOutput(cfg, o, e, f, b, a.output);
        QueueBuffers(cfg, o, b, f.ended);
      }
    }
  }

  /** Work left, compared lexicographically: input, then output owed, then pending flags. */
  ghost predicate Less(in1: nat, debt1: nat, flags1: nat, in0: nat, debt0: nat, flags0: nat) {
    in1 < in0 || (in1 == in0 && (debt1 < debt0 || (debt1 == debt0 && flags1 < flags0)))
  }

  /** Every step that is not terminal leaves less to do: no call can spin. */
  lemma CompressProgress(i: Input, o: Output, m: Mode, e: History, cur: seq<Link>, perByte: pos, a: Answer,
                         linked: bool, j: Input, n: Mode)
    requires i.pos <= |i.src| && HasWork(i, m.redo) && Ready(o)
    requires Documented(perByte, i, o, m, e, cur, a)
    requires j == i.(pos := i.pos + a.consumed, flush := j.flush)
    requires a.remaining == 0 ==> FlagsLeft(j, n) == 0
    requires i.last ==> a.remaining > 0
    ensures Less(InputLeft(j, cur), a.debt, FlagsLeft(j, n), InputLeft(i, cur), e.debt, FlagsLeft(i, m))
  {
    if a.consumed == 0 {
      assert a.debt + |a.output| <= e.debt;
    }
  }

  lemma CompressKeeps(cfg: Config, i: Input, o: Output, m: Mode, e: History, cur: seq<Link>, perByte: pos,
                      a: Answer, linked: bool)
    requires Live(cfg, i, o, m, e, cur) && !e.ended && HasWork(i, m.redo) && Ready(o)
    requires cfg.maxLength >= 0 ==> i.bytesIn <= cfg.maxLength
    requires Documented(perByte, i, o, m, e, cur, a)
    ensures var noMore := i.inq == [] && cur == [];
            var d := DirectiveOf(i, m, noMore);
            var (rc, j, p, n) := CompressStep(i, o, m, noMore, a, linked);
            var f := After(e, i.src[i.pos..], d, a);
            && (d == End <==> i.last) && (i.last ==> noMore)
            && (rc == ERROR ==> Safe(cfg, j, p, f))
            && (rc != ERROR ==> Live(cfg, j, p, n, f, cur) && Settled(p) && !p.nomem)
            && (rc == OK ==> f.ended && p.out != [])
            && (rc == AGAIN ==> !f.ended)
            && rc != DECLINED
            && p.sent == o.sent && j.received == i.received
            && (rc == AGAIN ==>
                  Less(InputLeft(j, cur), f.debt, FlagsLeft(j, n), InputLeft(i, cur), e.debt, FlagsLeft(i, m)))
  {
    var noMore := i.inq == [] && cur == [];
    var (rc, j, p, n) := CompressStep(i, o, m, noMore, a, linked);
    CompressInput(cfg, i, o, m, e, cur, a, linked);
    CompressOutput(cfg, i, o, m, e, noMore, a, linked);
    CompressHeld(i, o, m, e, cur, perByte, a, linked);
    if rc == ERROR {
      InputIsSafe(cfg, j, After(e, i.src[i.pos..], DirectiveOf(i, m, noMore), a), cur);
    }
    if rc == AGAIN {
      CompressProgress(i, o, m, e, cur, perByte, a, linked, j, n);
    }
  }

  // ----- the same steps, stated about the whole state -----

  /** A live state in which the encoder may be called. */
  ghost predicate Going(cfg: Config, i: Input, o: Output, m: Mode, e: History, cur: seq<Link>) {
    Live(cfg, i, o, m, e, cur) && Settled(o) && !o.nomem && !e.ended
  }

  /** All the work left to a call. */
  ghost predicate LessWork(j: Input, n: Mode, f: History, rest: seq<Link>, i: Input, m: Mode, e: History,
                           cur: seq<Link>)
    requires j.pos <= |j.src| && i.pos <= |i.src|
  {
    Less(InputLeft(j, rest), f.debt, FlagsLeft(j, n), InputLeft(i, cur), e.debt, FlagsLeft(i, m))
  }

  /** Less work left between two callbacks. */
  ghost predicate Progress(j: Input, n: Mode, f: History, i: Input, m: Mode, e: History, cur: seq<Link>) {
    j.pos <= |j.src| && i.pos <= |i.src| && LessWork(j, n, f, [], i, m, e, cur)
  }

  lemma SameWorkLeft(j: Input, n: Mode, f: History, i1: Input, m1: Mode, i0: Input, m0: Mode, e: History, cur: seq<Link>)
    requires i1 == i0.(received := i1.received) && m1 == m0.(ready := m1.ready, buffered := m1.buffered)
    ensures Progress(j, n, f, i1, m1, e, cur) == Progress(j, n, f, i0, m0, e, cur)
  {
  }

  lemma {:induction false} WeightAppend(a: seq<Link>, b: seq<Link>)
    ensures Weight(a + b) == Weight(a) + Weight(b)
  {
    if a == [] {
      assert a + b == b;
    } else {
      assert (a + b)[1..] == a[1..] + b;
      WeightAppend(a[1..], b);
    }
  }

  lemma PosOk(cfg: Config, i: Input, o: Output, m: Mode, e: History, cur: seq<Link>)
    requires Live(cfg, i, o, m, e, cur)
    ensures i.pos <= |i.src|
  {
  }

  lemma IdleAfterDrained(cfg: Config, i: Input, o: Output, m: Mode, e: History)
    requires Live(cfg, i, o, m, e, []) && i.inq == [] && !HasWork(i, m.redo)
    ensures !EndsStream(i.received)
  {
    DrainedMeansMoreToCome(cfg, i, e);
  }

  /** Once the last link was received, the loops cannot run out of work before the stream is done. */
  lemma DrainedMeansMoreToCome(cfg: Config, i: Input, e: History)
    requires InputInv(cfg, i, e, []) && i.inq == [] && !i.last
    ensures !EndsStream(i.received)
  {
    assert i.received == i.taken;
  }

  lemma AddDataLive(cfg: Config, i: Input, o: Output, m: Mode, e: History, cur: seq<Link>)
    requires Going(cfg, i, o, m, e, cur)
    ensures cfg.Valid() && i.pos <= |i.src|
    ensures var (rc, j, rest) := AddDataStep(i, cur, m.redo);
            && Going(cfg, j, o, m, e, rest)
            && j.received == i.received && j.pos <= |j.src|
            && (rc == OK ==> HasWork(j, m.redo) && (LessWork(j, m, e, rest, i, m, e, cur) || (j == i && rest == cur)))
            && (rc == AGAIN ==> LessWork(j, m, e, rest, i, m, e, cur))
            && (rc == DECLINED ==> j == i && rest == [] && cur == [] && i.inq == [] && !HasWork(i, m.redo))
            && rc != ERROR
  {
    AddDataKeeps(cfg, i, e, cur, m);
  }

  lemma GetBufLive(cfg: Config, i: Input, o: Output, m: Mode, e: History, cur: seq<Link>, space: Option<nat>)
    requires Going(cfg, i, o, m, e, cur)
    requires space.Some? ==> space.value >= 1
    ensures var (rc, p) := GetBufStep(cfg, o, space);
            && Live(cfg, i, p, m, e, cur)
            && p.sent == o.sent && p.out == o.out && p.busy == o.busy
            && (rc == OK ==> Ready(p) && p.outBuf.Some? && |p.outBuf.value.data| < p.outBuf.value.cap)
            && (rc == DECLINED ==> p.nomem && Settled(p) && (p.out != [] || p.busy != []) && o.free == [])
            && rc != AGAIN
  {
    GetBufKeeps(cfg, o, e, space);
  }

  lemma CompressLive(cfg: Config, i: Input, o: Output, m: Mode, e: History, cur: seq<Link>, perByte: pos,
                     a: Answer, linked: bool)
    requires Live(cfg, i, o, m, e, cur) && !e.ended && HasWork(i, m.redo) && Ready(o)
    requires i.pos <= |i.src| && (cfg.maxLength >= 0 ==> i.bytesIn <= cfg.maxLength)
    requires Documented(perByte, i, o, m, e, cur, a)
    ensures var noMore := i.inq == [] && cur == [];
            var (rc, j, p, n) := CompressStep(i, o, m, noMore, a, linked);
            var f := After(e, i.src[i.pos..], DirectiveOf(i, m, noMore), a);
            && p.sent == o.sent && p.busy == o.busy && j.received == i.received && n.ready == m.ready
            && (rc == ERROR ==> Safe(cfg, j, p, f))
            && (rc == OK ==> Live(cfg, j, p, n, f, cur) && Settled(p) && f.ended && p.out != [])
            && (rc == AGAIN ==> Going(cfg, j, p, n, f, cur) && j.pos <= |j.src| && LessWork(j, n, f, cur, i, m, e, cur))
            && rc != DECLINED
  {
    hide OutputInv, BufInv, InputInv, SafeOutput;
    CompressKeeps(cfg, i, o, m, e, cur, perByte, a, linked);
  }

  /** The caller's obligations towards the encoder: nothing is queued behind an e_end call. */
  lemma EndIsFinal(cfg: Config, i: Input, o: Output, m: Mode, e: History, cur: seq<Link>)
    requires Live(cfg, i, o, m, e, cur)
    ensures DirectiveOf(i, m, i.inq == [] && cur == []) == End ==> i.inq == [] && cur == []
    ensures e.held <= e.debt
  {
    if i.last {
      LastIsFinal(cfg, i, e, cur);
    }
  }

  /** Drained buffers go to the front of the free chain one by one, emptied. */
  ghost function Recycle(bs: seq<Buf>, free: seq<Buf>): seq<Buf> {
    if bs == [] then free else Recycle(bs[1..], [bs[0].(data := [])] + free)
  }

  lemma NoneRecycled(free: seq<Buf>)
    ensures Recycle([], free) == free
  {
  }

  lemma {:induction false} RecycleSnoc(bs: seq<Buf>, b: Buf, free: seq<Buf>)
    ensures Recycle(bs + [b], free) == [b.(data := [])] + Recycle(bs, free)
  {
    if bs == [] {
      assert [b][1..] == [] && bs + [b] == [b];
    } else {
      assert (bs + [b])[1..] == bs[1..] + [b];
      RecycleSnoc(bs[1..], b, [bs[0].(data := [])] + free);
    }
  }

  lemma RecycleStep(all: seq<Buf>, k: nat, free: seq<Buf>)
    requires k < |all|
    ensures all[k..] != [] && all[k..][0] == all[k] && all[k..][1..] == all[k + 1..]
    ensures Recycle(all[..k + 1], free) == [all[k].(data := [])] + Recycle(all[..k], free)
  {
    RecycleSnoc(all[..k], all[k], free);
    assert all[..k] + [all[k]] == all[..k + 1];
  }

  lemma {:induction false} RecycleCount(bs: seq<Buf>, free: seq<Buf>)
    ensures |Recycle(bs, free)| == |bs| + |free|
  {
    if bs != [] {
      RecycleCount(bs[1..], [bs[0].(data := [])] + free);
    }
  }

  /** Downstream took `out`, then the first `k` busy buffers had drained; any kept output buffer is dropped. */
  ghost function Delivered(o: Output, k: nat): Output
    requires k <= |o.busy + o.out|
  {
    var all := o.busy + o.out;
    o.(sent := o.sent + o.out, out := [], busy := all[k..], free := Recycle(all[..k], o.free),
       outBuf := None, nomem := false)
  }

  lemma {:induction false} RecycleKeeps(bs: seq<Buf>, free: seq<Buf>, ended: bool)
    requires Usable(bs, ended) && Usable(free, ended)
    requires forall k :: 0 <= k < |free| ==> free[k].data == []
    ensures var r := Recycle(bs, free);
            && Ids(r) == Ids(bs) + Ids(free)
            && Usable(r, ended)
            && (forall k :: 0 <= k < |r| ==> r[k].data == [])
            && |r| == |bs| + |free|
  {
    if bs != [] {
      var b := bs[0].(data := []);
      var f := [b] + free;
      assert UsableBuf(bs[0], ended);
      forall k | 0 <= k < |f|
        ensures UsableBuf(f[k], ended) && f[k].data == []
      {
        assert f[k] == b || f[k] == free[k - 1];
      }
      IdsAppend([b], free);
      IdsSingle(b);
      forall k | 0 <= k < |bs[1..]|
        ensures UsableBuf(bs[1..][k], ended)
      {
        assert bs[1..][k] == bs[k + 1];
      }
      RecycleKeeps(bs[1..], f, ended);
    }
  }

  lemma UsableParts(a: seq<Buf>, b: seq<Buf>, k: nat, ended: bool)
    requires Usable(a, ended) && Usable(b, ended) && k <= |a + b|
    ensures Usable((a + b)[..k], ended) && Usable((a + b)[k..], ended)
  {
    forall j | 0 <= j < |a + b|
      ensures UsableBuf((a + b)[j], ended)
    {
      assert (a + b)[j] == if j < |a| then a[j] else b[j - |a|];
    }
  }

  lemma DeliverIds(o: Output, k: nat)
    requires k <= |o.busy + o.out|
    ensures var all := o.busy + o.out; Ids(all[..k]) + Ids(all[k..]) == Ids(o.busy) + Ids(o.out)
  {
    hide Ids;
    var all := o.busy + o.out;
    IdsAppend(o.busy, o.out);
    assert all[..k] + all[k..] == all;
    IdsAppend(all[..k], all[k..]);
  }

  lemma DeliveredIds(o: Output, k: nat, ended: bool)
    requires Usable(o.busy, ended) && Usable(o.out, ended) && Usable(o.free, ended) && k <= |o.busy + o.out|
    requires forall j :: 0 <= j < |o.free| ==> o.free[j].data == []
    ensures var p := Delivered(o, k);
            && LiveIds(p) == Ids(o.busy) + Ids(o.out) + Ids(o.free)
            && Usable(p.busy, ended) && Usable(p.free, ended)
            && (forall j :: 0 <= j < |p.free| ==> p.free[j].data == [])
            && |p.busy| + |p.free| == |o.busy| + |o.out| + |o.free|
  {
    var all := o.busy + o.out;
    UsableParts(o.busy, o.out, k, ended);
    RecycleKeeps(all[..k], o.free, ended);
    DeliverIds(o, k);
    assert LiveIds(Delivered(o, k)) == Ids(all[k..]) + (Ids(all[..k]) + Ids(o.free));
  }

  /** Delivery loses no byte and no buffer; a buffer survives because one was queued or in flight. */
  lemma DeliverBuffers(cfg: Config, o: Output, k: nat, ended: bool)
    requires BufInv(cfg, o, ended) && k <= |o.busy + o.out|
    requires o.outBuf.None? || o.out != [] || o.busy != []
    ensures BufInv(cfg, Delivered(o, k), ended)
  {
    var p := Delivered(o, k);
    DeliveredIds(o, k, ended);
    forall x
      ensures LiveIds(p)[x] <= 1 && (x in LiveIds(p) ==> x < p.bufs)
    {
      assert LiveIds(p)[x] <= LiveIds(o)[x];
    }
  }

  lemma DeliverKeeps(cfg: Config, i: Input, o: Output, m: Mode, e: History, cur: seq<Link>, k: nat)
    requires Live(cfg, i, o, m, e, cur) && Settled(o) && k <= |o.busy + o.out|
    requires o.outBuf.None? || o.out != [] || o.busy != []
    ensures Live(cfg, i, Delivered(o, k), m, e, cur) && Settled(Delivered(o, k))
  {
    DeliverBuffers(cfg, o, k, e.ended);
    assert (o.sent + o.out) + [] == o.sent + o.out;
  }

  /** A chain handed to the next filter that fails is still a prefix of what is owed. */
  lemma FailedDeliveryIsSafe(cfg: Config, i: Input, o: Output, m: Mode, e: History, cur: seq<Link>)
    requires Live(cfg, i, o, m, e, cur)
    ensures Safe(cfg, i, o.(sent := o.sent + o.out), e)
  {
    LiveIsSafe(cfg, i, o, m, e, cur);
  }

  /** New links enter at the back of the caller-owned chain. */
  lemma ReceiveLive(cfg: Config, i: Input, o: Output, m: Mode, e: History, input: seq<Link>)
    requires Live(cfg, i, o, m, e, []) && LastOnlyFinal(i.received + input)
    ensures Live(cfg, i.(received := i.received + input), o, m, e, input)
  {
    assert i.received == i.taken + i.inq;
    assert i.received + input == i.taken + i.inq + input;
    LinkBytesAppend(i.received, input);
  }

  /** The links of the caller's chain may be moved behind the retained ones. */
  lemma RetainLive(cfg: Config, i: Input, o: Output, m: Mode, e: History, cur: seq<Link>)
    requires Live(cfg, i, o, m, e, cur)
    ensures Live(cfg, i.(inq := i.inq + cur), o, m, e, [])
  {
    assert i.taken + i.inq + cur == i.taken + (i.inq + cur) + [];
  }

  lemma DoneMeansEnded(cfg: Config, i: Input, o: Output, m: Mode, e: History, cur: seq<Link>)
    requires Live(cfg, i, o, m, e, cur)
    ensures m.done <==> e.ended
    ensures m.done ==> cur == [] && Safe(cfg, i, o, e)
    ensures i.pos <= |i.src|
  {
    if m.done {
      LastIsFinal(cfg, i, e, cur);
      LiveIsSafe(cfg, i, o, m, e, cur);
    }
  }

  /** What is pending in the filter itself: nothing unfed, no flush, no end of stream, no output. */
  ghost predicate Idle(i: Input, o: Output, m: Mode) {
    i.inq == [] && !HasWork(i, m.redo) && o.out == [] && o.busy == []
  }

  /** With the last link received, an idle filter would contradict itself. */
  lemma IdleMeansMoreToCome(cfg: Config, i: Input, o: Output, m: Mode, e: History)
    requires Live(cfg, i, o, m, e, []) && Idle(i, o, m) && Settled(o)
    ensures !EndsStream(i.received)
    ensures e.fed == LinkBytes(i.received) && FlushPoints(i.received) <= e.flushedAt
    ensures |LinkBytes(i.received)| in FlushPoints(i.received) ==> e.held == 0
    ensures Data(o.sent) == Pre(cfg, o) + e.produced
  {
    assert i.received == i.taken;
    assert i.src[i.pos..] == [];
    assert o.sent + o.out == o.sent;
  }

  // ----- what a flush tells the next filter -----

  /** A call that completes a pending flush hands on a buffer with the flush flag exactly when that buffer holds
      bytes; otherwise the flush is settled and nothing downstream is told. */
  lemma FlushIsToldWithBytes(i: Input, o: Output, m: Mode, noMore: bool, a: Answer)
    requires Ready(o) && i.flush && !i.last && a.remaining == 0
    ensures var (rc, j, p, n) := CompressStep(i, o, m, noMore, a, true);
            var bytes := o.outBuf.value.data + a.output;
            && rc == AGAIN && !j.flush && !n.buffered
            && ((exists c :: p.out == o.out + [c] && c.flush && c.data == bytes) <==> bytes != [])
            && (bytes == [] ==> p.out == o.out)
  {
    var p := CompressStep(i, o, m, noMore, a, true).2;
    if p.outBuf.None? {
      var c := p.out[|o.out|];
      assert p.out == o.out + [c] && c.flush && c.data == o.outBuf.value.data + a.output;
    }
  }

  /** One encoder call of a flush: the state it was made in and the answer. */
  datatype FlushCall = FlushCall(i: Input, o: Output, m: Mode, a: Answer)

  /** Between two calls of one flush more links may arrive, buffers may be delivered, and an empty one is got. */
  ghost predicate Resumed(j: Input, p: Output, n: Mode, c: FlushCall) {
    && c.i == j.(inq := c.i.inq, received := c.i.received)
    && c.m == n.(buffered := c.m.buffered)
    && Ready(c.o) && c.o.outBuf.value.data == [] && c.o.sent + c.o.out == p.sent + p.out
  }

  /** That is what delivery and get_buf do once a buffer is queued. */
  lemma DeliveryResumes(cfg: Config, j: Input, p: Output, n: Mode, k: nat, space: Option<nat>, a: Answer)
    requires BufInv(cfg, p, false) && p.outBuf.None? && !p.nomem && p.bufs > 0 && k <= |p.busy + p.out|
    requires space.Some? ==> space.value >= 1
    ensures var (rc, q) := GetBufStep(cfg, p, space); rc == OK ==> Resumed(j, q, n, FlushCall(j, q, n, a))
    ensures var (rc, q) := GetBufStep(cfg, Delivered(p, k), space); rc == OK ==> Resumed(j, p, n, FlushCall(j, q, n, a))
  {
    hide BufInv, GetBufStep;
    NextBuffer(cfg, p, space);
    DeliverBuffers(cfg, p, k, false);
    NextBuffer(cfg, Delivered(p, k), space);
  }

  lemma NextBuffer(cfg: Config, p: Output, space: Option<nat>)
    requires BufInv(cfg, p, false) && p.outBuf.None? && !p.nomem && p.bufs > 0 && (space.Some? ==> space.value >= 1)
    ensures var (rc, q) := GetBufStep(cfg, p, space);
            rc == OK ==> Ready(q) && q.outBuf.value.data == [] && q.sent == p.sent && q.out == p.out
  {
    Available(cfg, p);
    hide BufInv;
  }

  /** The calls of one whole flush, from its first to the one that returns 0. */
  ghost predicate FlushRun(perByte: pos, e: History, calls: seq<FlushCall>)
    decreases |calls|
  {
    && calls != []
    && var c := calls[0];
    && Ready(c.o) && c.i.pos <= |c.i.src| && c.i.flush && !c.i.last && c.m.action != Ending
    && Documented(perByte, c.i, c.o, c.m, e, [], c.a)
    && if c.a.remaining == 0 then |calls| == 1
       else
         var (rc, j, p, n) := CompressStep(c.i, c.o, c.m, false, c.a, true);
         && |calls| > 1 && Resumed(j, p, n, calls[1])
         && FlushRun(perByte, After(e, c.i.src[c.i.pos..], Flush, c.a), calls[1..])
  }

  ghost function Written(calls: seq<FlushCall>): seq<byte> {
    if calls == [] then [] else calls[0].a.output + Written(calls[1..])
  }

  /** The call hands on a buffer with the flush flag. */
  ghost predicate Tells(c: FlushCall)
    requires Ready(c.o)
  {
    var p := CompressStep(c.i, c.o, c.m, false, c.a, true).2;
    p.outBuf.None? && p.out != [] && p.out[|p.out| - 1].flush && p.out == c.o.out + [p.out[|p.out| - 1]]
  }

  /** Exactly which flushes the next filter is told of: those in which the encoder writes a byte, or for which bytes,
      such as the dcz prefix, already stood in the current buffer. Unfed input or bytes held back are enough. */
  lemma {:induction false} FlushIsTold(perByte: pos, e: History, calls: seq<FlushCall>)
    requires FlushRun(perByte, e, calls)
    ensures Ready(calls[|calls| - 1].o)
    ensures Tells(calls[|calls| - 1]) <==> calls[0].o.outBuf.value.data + Written(calls) != []
    ensures e.held > 0 || calls[0].i.pos < |calls[0].i.src| ==> Tells(calls[|calls| - 1])
    decreases |calls|
  {
    var c := calls[0];
    assert DirectiveOf(c.i, c.m, c.i.inq == []) == Flush;
    if c.a.remaining == 0 {
      assert Written(calls) == c.a.output + Written([]);
      FlushIsToldWithBytes(c.i, c.o, c.m, false, c.a);
    } else {
      FlushIsTold(perByte, After(e, c.i.src[c.i.pos..], Flush, c.a), calls[1..]);
      assert |c.a.output| == Room(c.o) > 0;
    }
  }

  /** And so a flush can pass untold: an e_continue call has taken everything and written all of it, into a buffer that
      goes on without the flag; then a flush link without content follows, and e_flush finds nothing held back. */
  lemma FlushUntold(cfg: Config, perByte: pos, i: Input, o: Output, m: Mode, e: History, output: seq<byte>)
    requires Ready(o) && !o.outBuf.value.flush && o.free != [] && o.free[0].cap > 0 && o.free[0].data == []
    requires !i.flush && !i.last && i.pos < |i.src| && i.inq == [Link([], true, false)]
    requires m.action == Compressing && !m.redo
    requires e.held <= |output| && 0 < |output| <= Room(o) && |output| <= e.debt + perByte * (|i.src| - i.pos)
    ensures var a := Answer(|i.src| - i.pos, output, 0, 0, 0);
            Documented(perByte, i, o, m, e, [], a) && DirectiveOf(i, m, false) == Continue
            && var (_, i1, o1, m1) := CompressStep(i, o, m, false, a, true);
               var f := After(e, i.src[i.pos..], Continue, a);
               var (_, i2, rest) := AddDataStep(i1, [], m1.redo);
               var o2 := GetBufStep(cfg, o1, None).1;
               var c := FlushCall(i2, o2, m1, Answer(0, [], 0, 0, 0));
               && rest == [] && FlushRun(perByte, f, [c]) && !Tells(c)
               && var (_, i3, o3, m3) := CompressStep(i2, o2, m1, true, c.a, true);
                  && !i3.flush && !m3.buffered
                  && o3.out == o.out + [o.outBuf.value.(data := o.outBuf.value.data + output)]
                  && !o3.out[|o.out|].flush
  {
  }

  // ----- the environment -----

  /** ZSTD_compressBound: below the input ceiling its argument, a 256th of it, and some margin. */
  method CompressBound(cfg: Config) returns (bound: nat)
    requires cfg.pledged >= 0
    ensures bound == cfg.pledged + cfg.pledged / 256 + cfg.margin
  {
    bound := cfg.pledged + cfg.pledged / 256 + cfg.margin;
  }

  /** Capacity left to the compressor in the first buffer: the configured size, or less when the
      pledged length is known and small, but never nothing. */
  method FirstBufferSize(cfg: Config) returns (r: nat)
    requires cfg.Valid()
    ensures 1 <= r <= cfg.size && r == FirstSize(cfg)
    ensures r < cfg.size ==> r >= 256 && 0 <= cfg.pledged < r
  {
    r := cfg.size;
    if 0 <= cfg.pledged < ZSTD_MAX_INPUT_SIZE && cfg.pledged < r {
      var bound := CompressBound(cfg);
      bound := bound + BOUND_FRAME_SLACK;
      if bound < BOUND_MIN {
        bound := BOUND_MIN;
      }
      if bound < r {
        r := bound;
      }
    }
  }

  /** The compression bound of the pledged length and 64 bytes, between 256 and the configured size. */
  ghost function FirstSize(cfg: Config): nat
    requires cfg.Valid()
  {
    var wanted := cfg.pledged + cfg.pledged / 256 + cfg.margin + 64;
    if cfg.pledged < 0 || cfg.pledged >= 0xFF00FF00FF00FF00 then cfg.size
    else if wanted < 256 <= cfg.size then 256
    else if 256 <= wanted < cfg.size then wanted
    else cfg.size
  }

  /** How a turn of the inner loop ends. */
  datatype Turn = Proceed | Drained | NoBuffer | Finished | Failed

  class Filter {
    const cfg: Config
    const enc: Encoder
    /** Whenever it is called again, downstream has drained something of what was in flight. */
    const prompt: bool

    var i: Input
    var o: Output
    var m: Mode
    var aborted: bool
    ghost var passed: seq<Link>     // links passed through after the end
    /** How often an allocation was refused, the encoder reported an error, or the next filter did. */
    ghost var faults: nat
    /** How often the encoder was configured. */
    ghost var configured: nat

    /** Between callbacks. */
    ghost predicate Valid()
      reads this, enc
    {
      && cfg.Valid()
      && Safe(cfg, i, o, enc.history)
      && (aborted ==> m.done)
      && (!aborted ==> Live(cfg, i, o, m, enc.history, []) && Settled(o) && passed == []
                       && o.out == [] && (!m.ready ==> Fresh(m, i, o)))
    }

    constructor (cfg: Config, enc: Encoder, prompt: bool)
      requires cfg.Valid()
      requires enc.history == History([], [], {}, false, 0, enc.history.debt)
      ensures Valid() && this.cfg == cfg && this.enc == enc && this.prompt == prompt
      ensures i.received == [] && o.sent == [] && !o.nomem && !m.done && !aborted && !m.ready
    {
      this.cfg, this.enc, this.prompt := cfg, enc, prompt;
      i := Input([], [], 0, false, false, 0, [], []);
      o := Output(None, [], [], [], 0, false, false, 0, []);
      m := Mode(Compressing, false, false, false, false);
      aborted, passed, faults, configured := false, [], 0, 0;
      new;
      assert Live(cfg, i, o, m, enc.history, []);
      LiveIsSafe(cfg, i, o, m, enc.history, []);
    }

    /** A pool allocation, which may fail. */
    method Alloc() returns (ok: bool)
      modifies this`faults
      ensures faults == old(faults) + if ok then 0 else 1
    {
      ok := *;
      if !ok {
        faults := faults + 1;
      }
    }

    /** Acquire a context and set its parameters, which may fail. */
    method Configure() returns (ok: bool)
      modifies this`faults, this`configured
      ensures faults == old(faults) + if ok then 0 else 1
      ensures configured == old(configured) + if ok then 1 else 0
    {
      ok := Alloc();
      if ok {
        configured := configured + 1;
      }
    }

    /** The next body filter takes the chain; it may report backpressure or an error. */
    method NextBodyFilter() returns (rc: Rc)
      modifies this`faults
      ensures rc in {OK, AGAIN, ERROR}
      ensures faults == old(faults) + if rc == ERROR then 1 else 0
    {
      rc :| rc in {OK, AGAIN, ERROR};
      if rc == ERROR {
        faults := faults + 1;
      }
    }

    /** Load the next link when the encoder has nothing left to do. */
    method AddData(cur: seq<Link>) returns (rc: Rc, rest: seq<Link>)
      requires i.pos <= |i.src|
      modifies this`i
      ensures (rc, i, rest) == AddDataStep(old(i), cur, m.redo)
    {
      rest := cur;
      if i.pos < |i.src| || i.flush || i.last || m.redo {
        return OK, rest;
      }
      if i.inq == [] && rest == [] {
        return DECLINED, rest;
      }

      // links retained by an earlier callback come first
      var link;
      if i.inq != [] {
        link := i.inq[0];
        i := i.(inq := i.inq[1..]);
      } else {
        link := rest[0];
        rest := rest[1..];
      }
      i := i.(taken := i.taken + [link]);

      if link.last {
        i := i.(last := true);
      } else if link.flush {
        i := i.(flush := true);
      }

      if |link.bytes| == 0 {
        return if i.last || i.flush then OK else AGAIN, rest;
      }

      i := i.(src := link.bytes, pos := 0, bytesIn := (i.bytesIn + |link.bytes|) % TWO64);
      return OK, rest;
    }

    /** Make sure there is an output buffer with room. */
    method GetBuf() returns (rc: Rc, ghost space: Option<nat>)
      requires cfg.Valid()
      modifies this`o, this`faults
      ensures space.Some? ==> 1 <= space.value <= cfg.size
      ensures space.Some? ==> space.value == if old(o).bufs == 0 then FirstSize(cfg) else cfg.size
      ensures (rc, o) == GetBufStep(cfg, old(o), space)
      ensures faults == old(faults) + if rc == ERROR then 1 else 0
    {
      space := None;
      if o.outBuf.Some? && |o.outBuf.value.data| < o.outBuf.value.cap {
        return OK, space;
      }

      if o.free != [] {
        o := o.(outBuf := Some(o.free[0].(flush := false, last := false)), free := o.free[1..]);

      } else if o.bufs < cfg.num {
        var size := cfg.size;
        if o.bufs == 0 {
          size := FirstBufferSize(cfg);
        }
        var wantPrefix := o.bufs == 0 && cfg.prefix.Some? && !o.headerSent;
        var ok := Alloc();
        if !ok {
          return ERROR, space;
        }
        space := Some(size);
        var b := Buf(o.bufs, size, [], false, false, true);
        if wantPrefix {
          b := b.(cap := size + DCZ_HEADER_LEN, data := cfg.prefix.value);
          o := o.(headerSent := true);
        }
        o := o.(outBuf := Some(b), bufs := o.bufs + 1);

      } else {
        o := o.(nomem := true);
        return DECLINED, space;
      }
      return OK, space;
    }

    /** Queue the current buffer unless it is empty and not terminal. */
    method Emit(zero: bool, terminal: bool) returns (rc: Rc, ghost linked: bool)
      requires o.outBuf.Some?
      modifies this`i, this`o, this`m, this`faults
      ensures faults == old(faults) + if rc == ERROR then 1 else 0
      ensures (rc, i, o, m) == EmitStep(old(i), old(o), old(m), zero, terminal, linked)
    {
      linked := true;
      var b := o.outBuf.value;
      if |b.data| == 0 && !terminal {
        if zero && i.flush {
          m := m.(buffered := false);
          i := i.(flush := false);
        }
        return AGAIN, linked;
      }

      var ok := Alloc();
      linked := ok;
      if !ok {
        return ERROR, linked;
      }

      if zero && (i.flush || terminal) {
        m := m.(buffered := false, done := terminal);
        b := b.(flush := i.flush && !i.last, last := terminal);
        i := i.(flush := false);
      }
      if |b.data| == 0 {
        b := b.(inMemory := false);
      }
      o := o.(bytesOut := (o.bytesOut + |b.data|) % TWO64, out := o.out + [b], outBuf := None);
      return if terminal then OK else AGAIN, linked;
    }

    /** Account for the encoder's answer: positions and the action state machine. */
    method Apply(directive: Directive, a: Answer, noMore: bool)
      requires o.outBuf.Some?
      requires directive == DirectiveOf(i, m, noMore)
      modifies this`i, this`o, this`m
      ensures (i, o, m) == ApplyStep(old(i), old(o), old(m), directive, a)
    {
      var b := o.outBuf.value;
      i := i.(pos := i.pos + a.consumed);
      o := o.(outBuf := Some(b.(data := b.data + a.output)));

      m := m.(redo := false);
      if a.remaining > 0 {
        if directive == End {
          m := m.(action := Ending);
        } else if m.action == Compressing {
          m := m.(action := Flushing);
        }
        m := m.(redo := true);
      } else if i.last && m.action != Ending && directive != End && i.pos >= |i.src| && noMore {
        // the late transition to END: excluded by the choice of the directive
        assert false;
      } else if m.action != Ending {
        m := m.(action := Compressing);
      }
    }

    /** One encoder call and what follows from its answer. */
    method Compress(noMore: bool, ghost queued: nat) returns (rc: Rc, ghost answer: Option<Answer>, ghost linked: bool)
      requires o.outBuf.Some? && |o.outBuf.value.data| <= o.outBuf.value.cap && i.pos <= |i.src|
      requires !enc.history.ended && enc.history.held <= enc.history.debt
      requires DirectiveOf(i, m, noMore) == End ==> queued == 0
      modifies this`i, this`o, this`m, this`faults, enc
      ensures faults == old(faults) + if rc == ERROR then 1 else 0
      ensures answer.None? ==> rc == ERROR && i == old(i) && o == old(o) && m == old(m)
                               && enc.history == old(enc.history)
      ensures answer.Some? ==>
                && Allowed(enc.perByte, old(enc.history), old(|i.src| - i.pos),
                           old(o.outBuf.value.cap - |o.outBuf.value.data|), DirectiveOf(old(i), old(m), noMore),
                           answer.value)
                && enc.history == After(old(enc.history), old(i.src[i.pos..]), DirectiveOf(old(i), old(m), noMore),
                                        answer.value)
                && (rc, i, o, m) == CompressStep(old(i), old(o), old(m), noMore, answer.value, linked)
    {
      linked := true;
      var directive;
      if m.action == Ending || (i.last && noMore) {
        directive := End;
      } else if m.action == Flushing || i.flush {
        directive := Flush;
      } else {
        directive := Continue;
      }

      var room := o.outBuf.value.cap - |o.outBuf.value.data|;
      var r := enc.CompressStream2(i.src[i.pos..], room, directive, queued);
      answer := r;
      if r.None? {
        faults := faults + 1;
        return ERROR, answer, linked;
      }

      Apply(directive, r.value, noMore);
      rc, linked := Emit(r.value.remaining == 0, r.value.remaining == 0 && i.last && directive == End);
    }

    /** Retain the links this call could not consume; an allocation may fail half way. */
    method CopyInput(cur: seq<Link>) returns (ok: bool)
      modifies this`i, this`faults
      ensures faults == old(faults) + if ok then 0 else 1
      ensures ok ==> i == old(i).(inq := old(i.inq) + cur)
      ensures !ok ==> i == old(i).(inq := i.inq)
    {
      var rest := cur;
      while rest != []
        invariant i == old(i).(inq := i.inq) && faults == old(faults)
        invariant i.inq + rest == old(i.inq) + cur
      {
        ok := Alloc();
        if !ok {
          return false;
        }
        i := i.(inq := i.inq + [rest[0]]);
        rest := rest[1..];
      }
      return true;
    }

    /** ngx_chain_update_chains: what was queued is now in flight; some drained head of it is recycled. */
    method UpdateChains() returns (ghost k: nat)
      modifies this`o
      ensures k <= |old(o.busy + o.out)| && (prompt && old(o.busy) != [] ==> k > 0)
      ensures var all := old(o.busy + o.out);
              o == old(o).(out := [], busy := all[k..], free := Recycle(all[..k], old(o.free)))
    {
      hide Recycle;
      k := 0;
      NoneRecycled(o.free);
      var headDrained := prompt && o.busy != [];
      o := o.(busy := o.busy + o.out, out := []);
      ghost var all, free0 := o.busy, o.free;
      while o.busy != []
        invariant k <= |all|
        invariant o == old(o).(out := [], busy := all[k..], free := Recycle(all[..k], free0))
        invariant !headDrained ==> k > 0 || !(prompt && old(o.busy) != [])
        decreases |o.busy|
      {
        var drained: bool := *;
        if !drained && !headDrained {
          return;
        }
        headDrained := false;
        RecycleStep(all, k, free0);
        o := o.(busy := o.busy[1..], free := [o.busy[0].(data := [])] + o.free);
        k := k + 1;
      }
    }

    /** Check the input cap, get an output buffer and compress into it. */
    method Pump(ghost cur: seq<Link>, noMore: bool) returns (t: Turn)
      requires cfg.Valid() && Going(cfg, i, o, m, enc.history, cur) && HasWork(i, m.redo) && i.pos <= |i.src|
      requires noMore <==> i.inq == [] && cur == []
      modifies this`i, this`o, this`m, this`faults, enc
      ensures faults >= old(faults) && (t == Failed ==> faults > old(faults) || OverCap(cfg, i))
      ensures i.received == old(i.received) && m.ready == old(m.ready) && o.sent == old(o.sent)
      ensures t == Failed ==> Safe(cfg, i, o, enc.history)
      ensures t != Failed ==> Live(cfg, i, o, m, enc.history, cur) && Settled(o) && o.busy == old(o.busy)
      ensures t == NoBuffer ==> o.nomem && (o.out != [] || o.busy != []) && !enc.history.ended && o.out == old(o.out)
                                && i == old(i) && m == old(m) && enc.history == old(enc.history) && old(o.free) == []
      ensures t == Finished ==> enc.history.ended && o.out != []
      ensures t == Proceed ==> Going(cfg, i, o, m, enc.history, cur) && i.pos <= |i.src|
                               && LessWork(i, m, enc.history, cur, old(i), old(m), old(enc.history), cur)
      ensures t != Drained
    {
      hide Live, Safe, Settled, GetBufStep, CompressStep, After, LessWork, HasWork, DirectiveOf, Allowed;
      if cfg.maxLength >= 0 && i.bytesIn > cfg.maxLength {
        CapIsExceeded(cfg, i, o, m, enc.history, cur);
        LiveIsSafe(cfg, i, o, m, enc.history, cur);
        return Failed;
      }

      ghost var o0 := o;
      var rc;
      ghost var space;
      rc, space := GetBuf();
      GetBufLive(cfg, i, o0, m, enc.history, cur, space);
      if rc == ERROR {
        LiveIsSafe(cfg, i, o, m, enc.history, cur);
        return Failed;
      }
      if rc == DECLINED {
        return NoBuffer;
      }

      ghost var i1, o1, m1, e1 := i, o, m, enc.history;
      ghost var answer, linked;
      EndIsFinal(cfg, i, o, m, enc.history, cur);
      rc, answer, linked := Compress(noMore, |i.inq| + |cur|);
      if answer.None? {
        LiveIsSafe(cfg, i, o, m, enc.history, cur);
      } else {
        CompressLive(cfg, i1, o1, m1, e1, cur, enc.perByte, answer.value, linked);
      }
      t := if rc == ERROR then Failed else if rc == OK then Finished else Proceed;
    }

    /** The inner loop: feed and compress until there is nothing left to feed, no output buffer is left, the
        stream is complete, or something failed. */
    method Fill(cur: seq<Link>) returns (t: Turn, rest: seq<Link>)
      requires Going(cfg, i, o, m, enc.history, cur) && i.pos <= |i.src|
      modifies this`i, this`o, this`m, this`faults, enc
      ensures faults >= old(faults) && (t == Failed ==> faults > old(faults) || OverCap(cfg, i))
      ensures i.received == old(i.received) && m.ready == old(m.ready) && o.sent == old(o.sent)
      ensures t == Failed ==> Safe(cfg, i, o, enc.history)
      ensures t != Failed ==> Live(cfg, i, o, m, enc.history, rest) && Settled(o) && o.busy == old(o.busy)
      ensures t == Drained ==> Going(cfg, i, o, m, enc.history, []) && rest == [] && i.inq == [] && !HasWork(i, m.redo)
      ensures t == NoBuffer ==> o.nomem && (o.out != [] || o.busy != []) && !enc.history.ended
      ensures t == Finished ==> enc.history.ended && o.out != []
      ensures t in {Drained, NoBuffer} ==>
                && i.pos <= |i.src|
                && (|| LessWork(i, m, enc.history, rest, old(i), old(m), old(enc.history), cur)
                    || (o.out == old(o.out) && i == old(i) && m == old(m) && enc.history == old(enc.history)
                        && rest == cur && (t == NoBuffer ==> old(o.free) == [])))
      ensures t != Proceed
    {
      hide Live, Safe, Settled, AddDataStep;
      rest := cur;
      while true
        invariant Going(cfg, i, o, m, enc.history, rest) && i.pos <= |i.src|
        invariant i.received == old(i.received) && m.ready == old(m.ready) && o.sent == old(o.sent)
        invariant o.busy == old(o.busy) && faults >= old(faults)
        invariant || LessWork(i, m, enc.history, rest, old(i), old(m), old(enc.history), cur)
                  || (o == old(o) && i == old(i) && m == old(m) && enc.history == old(enc.history) && rest == cur)
        decreases InputLeft(i, rest), enc.history.debt, FlagsLeft(i, m)
      {
        AddDataLive(cfg, i, o, m, enc.history, rest);
        var rc;
        rc, rest := AddData(rest);
        if rc == DECLINED {
          return Drained, rest;
        }
        if rc == AGAIN {
          continue;
        }
        t := Pump(rest, i.inq == [] && rest == []);
        if t != Proceed {
          return;
        }
      }
    }

    /** Hand the queued buffers to the next filter and take back what has drained. */
    method Deliver(ghost cur: seq<Link>) returns (rc: Rc)
      requires Live(cfg, i, o, m, enc.history, cur) && Settled(o)
      requires o.outBuf.None? || o.out != [] || o.busy != []
      modifies this`o, this`faults
      ensures faults == old(faults) + if rc == ERROR then 1 else 0
      ensures rc in {OK, AGAIN, ERROR}
      ensures rc == ERROR ==> Safe(cfg, i, o, enc.history)
      ensures rc != ERROR ==> Live(cfg, i, o, m, enc.history, cur) && Settled(o) && o.out == [] && !o.nomem
      // whatever has drained is free again
      ensures rc != ERROR && old(o.out) == [] ==> o.busy == old(o.busy) || o.free != []
      ensures rc != ERROR && prompt && old(o.busy) != [] ==> o.free != []
    {
      hide Live, Settled, Safe, Recycle;
      ghost var o0 := o;
      rc := NextBodyFilter();
      o := o.(sent := o.sent + o.out);
      if rc == ERROR {
        FailedDeliveryIsSafe(cfg, i, o0, m, enc.history, cur);
        return;
      }
      ghost var k := UpdateChains();
      // a recycled buffer must not be written to through outBuf
      o := o.(outBuf := None, nomem := false);
      assert o == Delivered(o0, k);
      RecycleCount((o0.busy + o0.out)[..k], o0.free);
      DeliverKeeps(cfg, i, o0, m, enc.history, cur, k);
    }

    method Fail() returns (rc: Rc)
      requires cfg.Valid() && Safe(cfg, i, o, enc.history)
      modifies this`aborted, this`m
      ensures rc == ERROR && aborted && Valid()
    {
      aborted := true;
      m := m.(done := true);
      rc := ERROR;
    }

    /** Leave the loops: keep the rest of the caller's chain and report whether output is in flight. */
    method Suspend(cur: seq<Link>) returns (rc: Rc)
      requires Live(cfg, i, o, m, enc.history, cur) && Settled(o) && o.out == []
      requires cfg.Valid() && m.ready && !aborted && passed == [] && i.pos <= |i.src|
      modifies this`i, this`m, this`aborted, this`faults
      ensures faults == old(faults) + if rc == ERROR then 1 else 0
      ensures Valid() && i.received == old(i.received) && (rc == ERROR <==> aborted)
      ensures rc == ERROR || (rc == if o.busy != [] then AGAIN else OK)
      ensures rc != ERROR ==> i == old(i).(inq := old(i.inq) + cur) && m == old(m)
      ensures rc != ERROR ==> i.pos <= |i.src| && InputLeft(i, []) == InputLeft(old(i), cur) && FlagsLeft(i, m) == FlagsLeft(old(i), m)
    {
      RetainLive(cfg, i, o, m, enc.history, cur);
      LiveIsSafe(cfg, i, o, m, enc.history, cur);
      WeightAppend(i.inq, cur);
      hide Live;
      var ok := CopyInput(cur);
      if !ok {
        rc := Fail();
        return;
      }
      LiveIsSafe(cfg, i, o, m, enc.history, []);
      return if o.busy != [] then AGAIN else OK;
    }

    /** The two nested loops: fill output buffers, deliver them, and repeat while that makes progress. */
    method Cycle(input: seq<Link>, pending: bool) returns (rc: Rc)
      requires Going(cfg, i, o, m, enc.history, input) && i.pos <= |i.src| && m.ready && !aborted && passed == []
      requires cfg.Valid()
      requires pending ==> o.busy != []
      requires o.out == []
      modifies this`i, this`o, this`m, this`aborted, this`faults, enc
      ensures faults >= old(faults) && (rc == ERROR ==> faults > old(faults) || OverCap(cfg, i))
      ensures Valid() && i.received == old(i.received) && (rc == ERROR <==> aborted)
      ensures rc == OK && !m.done ==> Idle(i, o, m)
      ensures rc == AGAIN && !m.done ==> o.busy != []
      ensures rc in {OK, AGAIN, ERROR}
      // after the last link only a lack of buffers ends the loops early, and a free one is used
      ensures rc != ERROR && !m.done && EndsStream(i.received) ==> o.nomem
      ensures rc != ERROR && !m.done && EndsStream(i.received) && !pending ==>
                || Progress(i, m, enc.history, old(i), old(m), old(enc.history), input)
                || (o.busy == old(o.busy) && old(o.free) == [])
    {
      hide Live, Safe, Settled, HasWork, EndsStream, InputLeft, FlagsLeft;
      var cur, flushing := input, pending;
      while true
        invariant Going(cfg, i, o, m, enc.history, cur) && i.pos <= |i.src| && m.ready && !aborted && passed == []
        invariant i.received == old(i.received) && faults >= old(faults)
        invariant flushing ==> o.busy != [] && pending
        invariant o.out == []
        invariant || LessWork(i, m, enc.history, cur, old(i), old(m), old(enc.history), input)
                  || (i == old(i) && m == old(m) && enc.history == old(enc.history) && cur == input
                      && (pending || o == old(o)))
        decreases InputLeft(i, cur), enc.history.debt, FlagsLeft(i, m), if flushing then 1 else 0
      {
        var turn;
        turn, cur := Fill(cur);
        if turn == Failed {
          rc := Fail();
          return;
        }

        if o.out == [] && !flushing {
          if turn == Drained {
            IdleAfterDrained(cfg, i, o, m, enc.history);
          }
          rc := Suspend(cur);
          return;
        }

        rc := Deliver(cur);
        if rc == ERROR {
          rc := Fail();
          return;
        }
        flushing := false;
        DoneMeansEnded(cfg, i, o, m, enc.history, cur);
        if m.done {
          return;
        }
      }
    }

    /** Take over the caller's chain; configure the encoder on the first call, which may fail. */
    method Enter(input: seq<Link>) returns (ok: bool)
      requires Valid() && !m.done && LastOnlyFinal(i.received + input)
      modifies this`i, this`m, this`faults, this`configured
      ensures faults == old(faults) + if ok then 0 else 1
      ensures configured == old(configured) + if ok && !old(m.ready) then 1 else 0
      ensures if ok then m.ready else m == old(m) && !m.ready
      ensures i.received == old(i.received) + input && m.done == old(m.done)
      ensures Safe(cfg, i, o, enc.history)
      ensures ok ==> Live(cfg, i, o, m, enc.history, input)
      ensures i == old(i).(received := i.received)
      ensures ok ==> m == old(m).(ready := true, buffered := old(m.buffered) || input != [])
    {
      i := i.(received := i.received + input);
      ReceiveLive(cfg, old(i), o, m, enc.history, input);
      LiveIsSafe(cfg, i, o, m, enc.history, input);
      ok := true;
      if !m.ready {
        ok := Configure();
        if !ok {
          return;
        }
        m := m.(ready := true);
      }
      if input != [] {
        m := m.(buffered := true);
      }
    }

    /** A callback of a live stream. */
    method Process(input: seq<Link>) returns (rc: Rc)
      requires Valid() && !m.done && LastOnlyFinal(i.received + input)
      modifies this, enc
      ensures Valid() && rc in {OK, AGAIN, ERROR} && (rc == ERROR <==> aborted)
      ensures faults >= old(faults) && (rc == ERROR ==> faults > old(faults) || OverCap(cfg, i))
      ensures i.received == old(i.received) + input
      ensures rc == OK && !m.done ==> Idle(i, o, m)
      ensures rc == AGAIN && !m.done ==> o.busy != []
      ensures rc != ERROR && !m.done && EndsStream(i.received) ==> o.nomem
      ensures rc != ERROR && !m.done && EndsStream(i.received) && old(o.nomem && o.busy != []) ==>
                || Progress(i, m, enc.history, old(i), old(m), old(enc.history), input)
                || (!prompt && o.busy == old(o.busy))
    {
      NotDone();
      hide Live, Safe, Settled, Idle, HasWork, LastOnlyFinal, EndsStream, Progress;
      var pending := o.busy != [] && !o.nomem;
      var ok := Enter(input);
      if !ok {
        rc := Fail();
        return;
      }
      ghost var i1, m1 := i, m;
      rc := Resume(input, pending);
      SameWorkLeft(i, m, enc.history, i1, m1, old(i), old(m), old(enc.history), input);
    }

    /** Deliver what kept an earlier callback from getting a buffer, and go on. */
    method Resume(input: seq<Link>, pending: bool) returns (rc: Rc)
      requires cfg.Valid() && Live(cfg, i, o, m, enc.history, input) && Settled(o) && o.out == []
      requires m.ready && !m.done && !aborted && passed == []
      requires (o.nomem ==> o.outBuf.None?) && (pending ==> o.busy != [] && !o.nomem)
      modifies this, enc
      ensures Valid() && rc in {OK, AGAIN, ERROR} && (rc == ERROR <==> aborted)
      ensures faults >= old(faults) && (rc == ERROR ==> faults > old(faults) || OverCap(cfg, i))
      ensures i.received == old(i.received)
      ensures rc == OK && !m.done ==> Idle(i, o, m)
      ensures rc == AGAIN && !m.done ==> o.busy != []
      ensures rc != ERROR && !m.done && EndsStream(i.received) ==> o.nomem
      ensures rc != ERROR && !m.done && EndsStream(i.received) && old(o.nomem && o.busy != []) ==>
                || Progress(i, m, enc.history, old(i), old(m), old(enc.history), input)
                || (!prompt && o.busy == old(o.busy))
    {
      hide Live, Safe, Settled, Idle, HasWork, EndsStream, Progress;
      if o.nomem {
        rc := Deliver(input);
        if rc == ERROR {
          rc := Fail();
          return;
        }
      }
      DoneMeansEnded(cfg, i, o, m, enc.history, input);
      rc := Cycle(input, pending);
    }

    /** The body filter callback. */
    method Body(input: seq<Link>) returns (rc: Rc)
      requires Valid()
      requires !aborted ==> LastOnlyFinal(i.received + input)
      modifies this, enc
      ensures Valid() && rc in {OK, AGAIN, ERROR}
      // after the end of the stream, links pass through untouched
      ensures old(m.done) ==> i == old(i) && o == old(o) && m == old(m) && aborted == old(aborted)
                              && enc.history == old(enc.history) && passed == old(passed) + input
      ensures !old(m.done) ==> i.received == old(i.received) + input && (rc == ERROR <==> aborted)
      // an empty callback before anything has come does nothing, and configures nothing
      ensures !old(m.done) && !old(m.ready) && input == [] ==>
                rc == OK && (i, o, m, configured) == old((i, o, m, configured)) && enc.history == old(enc.history)
      // nothing fails but for a fault of the environment or a body over the cap
      ensures faults >= old(faults)
      ensures rc == ERROR ==> faults > old(faults) || (!old(m.done) && OverCap(cfg, i))
      // no stall: OK leaves nothing behind, AGAIN always has output in flight that will call back
      ensures !old(m.done) && rc == OK && !m.done ==> Idle(i, o, m)
      ensures !old(m.done) && rc == AGAIN && !m.done ==> o.busy != []
      // after the last link a stream that is not done waits for a buffer, and each callback makes progress, unless
      // nothing of what was in flight had drained
      ensures !old(m.done) && rc != ERROR && !m.done && EndsStream(i.received) ==> o.nomem
      ensures !old(m.done) && rc != ERROR && !m.done && EndsStream(i.received) && old(o.nomem && o.busy != []) ==>
                || Progress(i, m, enc.history, old(i), old(m), old(enc.history), input)
                || (!prompt && o.busy == old(o.busy))
    {
      if m.done {
        DoneIsFinal(input);
        passed := passed + input;
        rc := NextBodyFilter();
        return;
      }
      if !m.ready && input == [] && i.inq == [] && o.busy == [] {
        return OK;
      }
      rc := Process(input);
    }

    lemma DoneIsFinal(input: seq<Link>)
      requires Valid() && (!aborted ==> LastOnlyFinal(i.received + input))
      ensures !aborted && m.done ==> input == []
    {
      if !aborted && m.done {
        LastIsFinal(cfg, i, enc.history, []);
        var k := |i.received| - 1;
        assert (i.received + input)[k].last;
      }
    }

    lemma NotDone()
      requires Valid() && !m.done
      ensures !aborted && passed == [] && o.out == [] && Settled(o) && cfg.Valid()
      ensures o.nomem ==> o.outBuf.None?
    {
    }
  }

  // ----- whole runs -----

  lemma {:induction false} FlattenPrefix(calls: seq<seq<Link>>, n: nat)
    requires n <= |calls|
    ensures Flatten(calls[..n]) <= Flatten(calls)
  {
    if n == |calls| {
      assert calls[..n] == calls;
    } else {
      var front := calls[..|calls| - 1];
      FlattenLast(calls);
      assert front[..n] == calls[..n];
      FlattenPrefix(front, n);
    }
  }

  /** What every reachable state of the filter guarantees about the whole stream so far. */
  ghost predicate StreamSafe(cfg: Config, received: seq<Link>, sent: seq<Buf>, e: History) {
    // the encoder was fed the links' bytes in order, and no further than the cap
    && e.fed <= LinkBytes(received)
    && (cfg.maxLength >= 0 && |LinkBytes(received)| < TWO64 ==> |e.fed| <= cfg.maxLength)
    // no byte after a flush link was fed before an e_flush call had returned 0 exactly there
    && (forall p :: p in FlushPoints(received) && p < |e.fed| ==> p in e.flushedAt)
    // the frame is closed only after every byte of a complete stream
    && (e.ended ==> EndsStream(received) && e.fed == LinkBytes(received))
    // emitted: the prefix, once and first, then the encoder's output; nothing else and nothing twice
    && Data(sent) <= Prefix(cfg) + e.produced
    // last_buf at most once, on the final buffer, and only after e_end returned 0
    && (forall k :: 0 <= k < |sent| && sent[k].last ==> k == |sent| - 1 && e.ended)
    // no empty buffer goes downstream, but for a terminal one that nginx accepts as special
    && (forall k :: 0 <= k < |sent| && sent[k].data == [] ==> sent[k].last && !sent[k].inMemory)
  }

  /** A finished stream lost nothing. */
  ghost predicate StreamComplete(cfg: Config, received: seq<Link>, sent: seq<Buf>, e: History) {
    && e.ended && e.held == 0
    && e.fed == LinkBytes(received)
    && Data(sent) == Prefix(cfg) + e.produced
    && sent != [] && sent[|sent| - 1].last
  }

  lemma ValidMeansSafe(f: Filter)
    requires f.Valid()
    ensures StreamSafe(f.cfg, f.i.received, f.o.sent, f.enc.history)
    ensures f.m.done && !f.aborted ==> StreamComplete(f.cfg, f.i.received, f.o.sent, f.enc.history)
  {
    var sent, e := f.o.sent, f.enc.history;
    forall k | 0 <= k < |sent|
      ensures BufferOk(sent[k], e.ended) && (sent[k].last ==> k == |sent| - 1)
    {
    }
    if !f.aborted {
      assert f.o.sent + f.o.out == sent;
    }
  }

  /** What is known between the callbacks of a run. */
  ghost predicate Between(f: Filter, given: seq<Link>, rc: Rc)
    reads f, f.enc
  {
    && f.Valid()
    && rc in {OK, AGAIN, ERROR}
    && (!f.aborted ==> f.i.received == given)
    && (!f.aborted && !f.m.done ==>
          && rc != ERROR && (rc == OK ==> Idle(f.i, f.o, f.m)) && (rc == AGAIN ==> f.o.busy != [])
          && (EndsStream(given) ==> f.o.nomem))
  }

  lemma Conclude(f: Filter, given: seq<Link>, rc: Rc)
    requires Between(f, given, rc)
    ensures f.Valid() && (!f.aborted ==> f.i.received == given)
    ensures !f.aborted && rc == AGAIN && !f.m.done ==> f.o.busy != []
    ensures StreamSafe(f.cfg, f.i.received, f.o.sent, f.enc.history)
    ensures !f.aborted && rc == OK && EndsStream(given) ==> StreamComplete(f.cfg, given, f.o.sent, f.enc.history)
    ensures !f.aborted && rc == OK && !EndsStream(given) ==>
              && f.enc.history.fed == LinkBytes(given)
              && FlushPoints(given) <= f.enc.history.flushedAt
              && (|LinkBytes(given)| in FlushPoints(given) ==> f.enc.history.held == 0)
              && Data(f.o.sent) == Pre(f.cfg, f.o) + f.enc.history.produced
  {
    ValidMeansSafe(f);
    if !f.aborted && !f.m.done && rc == OK {
      IdleMeansMoreToCome(f.cfg, f.i, f.o, f.m, f.enc.history);
    }
  }

  /** One callback of a run. */
  method Callback(f: Filter, ghost given: seq<Link>, input: seq<Link>, rc0: Rc) returns (rc: Rc)
    requires Between(f, given, rc0) && LastOnlyFinal(given + input)
    modifies f, f.enc
    ensures Between(f, given + input, rc)
    ensures f.faults >= old(f.faults)
    ensures f.faults == old(f.faults) && !old(f.aborted) && WithinCap(f.cfg, given + input) ==> !f.aborted
    ensures !f.m.done && EndsStream(given) ==>
              || Progress(f.i, f.m, f.enc.history, old(f.i), old(f.m), old(f.enc.history), input)
              || (!f.prompt && f.o.busy == old(f.o.busy))
  {
    f.DoneIsFinal(input);
    ghost var ends := EndsStream(given);
    if ends && !f.m.done {
      NotIdleAfterEnd(f, given, rc0);
    }
    rc := f.Body(input);
    WithinIsNotOver(f.cfg, f.i);
    if ends && !f.m.done {
      NothingAfterEnd(given, input);
    }
  }

  lemma NothingAfterEnd(given: seq<Link>, input: seq<Link>)
    requires EndsStream(given) && LastOnlyFinal(given + input)
    ensures given + input == given
  {
    var k := |given| - 1;
    assert (given + input)[k] == given[k];
  }

  /** After the last link: a callback with an empty chain ends the stream or leaves strictly less work, unless nothing
      of what was in flight has drained before it. So if something always has, finitely many callbacks complete the
      stream downstream, or fail. */
  method Finish(f: Filter, ghost given: seq<Link>, rc0: Rc) returns (rc: Rc)
    requires Between(f, given, rc0) && EndsStream(given) && LastOnlyFinal(given) && f.prompt
    modifies f, f.enc
    ensures Between(f, given, rc) && f.m.done
    ensures f.faults >= old(f.faults)
    ensures f.faults == old(f.faults) && !old(f.aborted) && WithinCap(f.cfg, given) ==> !f.aborted
    ensures !f.aborted ==> StreamComplete(f.cfg, given, f.o.sent, f.enc.history)
  {
    hide StreamSafe, StreamComplete, WithinCap, LastOnlyFinal, EndsStream, OutputInv, InputInv, Idle;
    rc := rc0;
    while !f.m.done
      invariant Between(f, given, rc) && f.faults >= old(f.faults)
      invariant f.faults == old(f.faults) && !old(f.aborted) && WithinCap(f.cfg, given) ==> !f.aborted
      decreases !f.m.done, WorkLeft(f.i), f.enc.history.debt, FlagsLeft(f.i, f.m)
    {
      assert given + [] == given;
      rc := Callback(f, given, [], rc);
    }
    ValidMeansSafe(f);
  }

  ghost function WorkLeft(i: Input): nat {
    if i.pos <= |i.src| then InputLeft(i, []) else 0
  }

  lemma NotIdleAfterEnd(f: Filter, given: seq<Link>, rc: Rc)
    requires Between(f, given, rc) && EndsStream(given) && !f.m.done
    ensures !f.aborted && rc == AGAIN && f.o.nomem && f.o.busy != []
  {
    if rc == OK {
      IdleMeansMoreToCome(f.cfg, f.i, f.o, f.m, f.enc.history);
    }
  }

  lemma NothingGiven(f: Filter, calls: seq<seq<Link>>)
    requires f.Valid() && f.i.received == [] && !f.m.done && !f.aborted && !f.m.ready
    ensures Between(f, Flatten(calls[..0]), OK)
  {
    assert Flatten(calls[..0]) == [];
  }

  lemma NextCall(cfg: Config, calls: seq<seq<Link>>, n: nat)
    requires n < |calls| && LastOnlyFinal(Flatten(calls))
    ensures Flatten(calls[..n]) + calls[n] == Flatten(calls[..n + 1]) && LastOnlyFinal(Flatten(calls[..n + 1]))
    ensures WithinCap(cfg, Flatten(calls)) ==> WithinCap(cfg, Flatten(calls[..n + 1]))
  {
    hide LastOnlyFinal, WithinCap;
    assert calls[..n + 1][..n] == calls[..n];
    FlattenLast(calls[..n + 1]);
    FlattenPrefix(calls, n + 1);
    PrefixLast(Flatten(calls[..n + 1]), Flatten(calls));
    if WithinCap(cfg, Flatten(calls)) {
      PrefixWithin(cfg, Flatten(calls[..n + 1]), Flatten(calls));
    }
  }

  /** Every sequence of callbacks over any splitting of a stream into chains: safety holds throughout; when
      the final callback reports NGX_OK after the last link, the stream is complete downstream, and when it
      reports NGX_OK earlier, everything given so far was fed, every flush asked for was done, everything the
      encoder produced went downstream, and if no byte came after the last flush, nothing is held back. */
  method Run(f: Filter, calls: seq<seq<Link>>) returns (rc: Rc)
    requires f.Valid() && f.i.received == [] && !f.m.done && !f.aborted && !f.m.ready
    requires LastOnlyFinal(Flatten(calls))
    modifies f, f.enc
    ensures f.Valid()
    ensures StreamSafe(f.cfg, f.i.received, f.o.sent, f.enc.history)
    ensures !f.aborted ==> f.i.received == Flatten(calls)
    ensures !f.aborted && rc == OK && EndsStream(Flatten(calls)) ==>
              StreamComplete(f.cfg, Flatten(calls), f.o.sent, f.enc.history)
    ensures !f.aborted && rc == OK && !EndsStream(Flatten(calls)) ==>
              && f.enc.history.fed == LinkBytes(Flatten(calls))
              && FlushPoints(Flatten(calls)) <= f.enc.history.flushedAt
              && (|LinkBytes(Flatten(calls))| in FlushPoints(Flatten(calls)) ==> f.enc.history.held == 0)
              && Data(f.o.sent) == Pre(f.cfg, f.o) + f.enc.history.produced
    ensures !f.aborted && rc == AGAIN && !f.m.done ==> f.o.busy != []
    ensures Between(f, Flatten(calls), rc) && f.faults >= old(f.faults)
    ensures f.faults == old(f.faults) && WithinCap(f.cfg, Flatten(calls)) ==> !f.aborted
  {
    hide StreamSafe, StreamComplete, LinkBytes, FlushPoints, WithinCap, Between, Filter.Valid, Flatten, LastOnlyFinal, EndsStream, Data;
    rc := OK;
    var n := 0;
    NothingGiven(f, calls);
    while n < |calls|
      invariant n <= |calls|
      invariant Between(f, Flatten(calls[..n]), rc) && f.faults >= old(f.faults)
      invariant f.faults == old(f.faults) && WithinCap(f.cfg, Flatten(calls)) ==> !f.aborted
    {
      NextCall(f.cfg, calls, n);
      rc := Callback(f, Flatten(calls[..n]), calls[n], rc);
      n := n + 1;
    }
    assert calls[..n] == calls;
    Conclude(f, Flatten(calls), rc);
  }

  /** A whole response: without a fault of the environment, and within the cap or with no cap set, every stream that
      ends is compressed to its end and all of it goes downstream. */
  method Respond(f: Filter, calls: seq<seq<Link>>) returns (rc: Rc)
    requires f.Valid() && f.i.received == [] && !f.m.done && !f.aborted && !f.m.ready && f.prompt
    requires LastOnlyFinal(Flatten(calls)) && EndsStream(Flatten(calls))
    modifies f, f.enc
    ensures f.m.done
    ensures f.faults == old(f.faults) && WithinCap(f.cfg, Flatten(calls)) ==>
              !f.aborted && StreamComplete(f.cfg, Flatten(calls), f.o.sent, f.enc.history)
  {
    hide StreamComplete, StreamSafe, WithinCap, Between;
    rc := Run(f, calls);
    rc := Finish(f, Flatten(calls), rc);
  }

  lemma PrefixWithin(cfg: Config, a: seq<Link>, b: seq<Link>)
    requires a <= b && WithinCap(cfg, b)
    ensures WithinCap(cfg, a)
  {
    LinkBytesAppend(a, b[|a|..]);
    assert b == a + b[|a|..];
  }

  lemma PrefixLast(a: seq<Link>, b: seq<Link>)
    requires a <= b && LastOnlyFinal(b)
    ensures LastOnlyFinal(a)
  {
    forall k | 0 <= k < |a| - 1
      ensures !a[k].last
    {
      assert a[k] == b[k];
    }
  }
}
