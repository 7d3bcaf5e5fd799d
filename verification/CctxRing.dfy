/** The worker's ring of cached compression contexts: packed profile keys, lending and returning. */
module CctxRing {
  import opened Basics
  import opened DczWindow

  const SLOTS: nat := 4
  const LEVEL_BIAS: int := 131072
  const LEVEL_SPAN: int := 0x40000        // 1 << 18
  const WLOG_SPAN: int := 64              // 1 << 6
  const LONG_UNIT: nat := 0x1000000       // 1 << 24
  const INVALID: nat := 0x8000_0000_0000_0000

  // ----- packed profiles -----

  /** Level, window log and long mode in disjoint bit ranges; out-of-domain values are refused, not masked. */
  function Pack(level: int, longMode: bool, wlog: int): nat {
    var biased := level + LEVEL_BIAS;
    if level < -LEVEL_BIAS || biased >= LEVEL_SPAN || wlog < 0 || wlog >= WLOG_SPAN then INVALID
    else biased + wlog * LEVEL_SPAN + (if longMode then LONG_UNIT else 0)
  }

  function Unpack(key: nat): (int, bool, int) {
    (key % LEVEL_SPAN - LEVEL_BIAS, (key / LONG_UNIT) % 2 == 1, (key / LEVEL_SPAN) % WLOG_SPAN)
  }

  predicate InDomain(level: int, wlog: int) {
    -LEVEL_BIAS <= level < LEVEL_SPAN - LEVEL_BIAS && 0 <= wlog < WLOG_SPAN
  }

  /** Unpacking inverts packing, and INVALID is no packed profile. */
  lemma UnpackInverts(level: int, longMode: bool, wlog: int)
    ensures -131072 <= level < 131072 && 0 <= wlog < 64 <==> Pack(level, longMode, wlog) != INVALID
    ensures InDomain(level, wlog) ==> Unpack(Pack(level, longMode, wlog)) == (level, longMode, wlog)
  {
    if InDomain(level, wlog) {
      var biased, long := level + LEVEL_BIAS, if longMode then 1 else 0;
      var key := Pack(level, longMode, wlog);
      assert key == biased + LEVEL_SPAN * (wlog + WLOG_SPAN * long);
      DivUnique(key, LEVEL_SPAN, wlog + WLOG_SPAN * long, biased);
      DivUnique(wlog + WLOG_SPAN * long, WLOG_SPAN, long, wlog);
      DivUnique(key, LONG_UNIT, long, biased + LEVEL_SPAN * wlog);
    }
  }

  /** So distinct profiles never share a key. */
  lemma PackIsInjective(l1: int, m1: bool, w1: int, l2: int, m2: bool, w2: int)
    requires Pack(l1, m1, w1) == Pack(l2, m2, w2) != INVALID
    ensures l1 == l2 && m1 == m2 && w1 == w2
  {
    UnpackInverts(l1, m1, w1);
    UnpackInverts(l2, m2, w2);
  }

  // ----- requests -----

  /** The parameters that make a context fit for one request and unfit for another. */
  datatype Params = Params(level: int, longMode: bool, window: int) {
    function Key(): nat {
      Pack(level, longMode, window)
    }
  }

  /** What a location configures. */
  datatype Conf = Conf(level: int, longMode: bool, windowLog: int, dczCap: int)

  class Request {
    const id: nat
    const conf: Conf
    const dictLen: Option<nat>      // the negotiated dcz dictionary
    const pledged: int
    var wlogCache: int              // 0 until computed
    var cctx: Option<nat>           // the context held, if any
    var lender: Option<nat>         // the slot it is lent from
    /** How often the window was computed. */
    ghost var computed: nat

    constructor (id: nat, conf: Conf, dictLen: Option<nat>, pledged: int)
      ensures this.id == id && this.conf == conf && this.dictLen == dictLen && this.pledged == pledged
      ensures cctx == None && lender == None && wlogCache == 0 && computed == 0
    {
      this.id, this.conf, this.dictLen, this.pledged := id, conf, dictLen, pledged;
      wlogCache, cctx, lender, computed := 0, None, None, 0;
    }

    /** The window this request really compresses at. */
    ghost function EffectiveWindow(): int {
      if dictLen.Some? then Window(dictLen.value, pledged, conf.windowLog, conf.dczCap) else conf.windowLog
    }

    ghost function Asked(): Params {
      Params(conf.level, conf.longMode, EffectiveWindow())
    }

    ghost function Profile(): nat {
      Asked().Key()
    }

    ghost predicate CacheOk()
      reads this
    {
      if wlogCache == 0 then computed == 0
      else computed == 1 && dictLen.Some? && wlogCache == EffectiveWindow()
    }

    /** Computed at most once a request. */
    method DczWlog(sizeMax: nat) returns (w: int)
      requires CacheOk() && dictLen.Some? && dictLen.value <= sizeMax && sizeMax >= 0xFFFF_FFFF
      modifies this`wlogCache, this`computed
      ensures CacheOk() && w == wlogCache == EffectiveWindow() && computed == 1
    {
      if wlogCache == 0 {
        wlogCache := DczWindowLog(dictLen.value, pledged, conf.windowLog, conf.dczCap, sizeMax, true);
        computed := computed + 1;
      }
      w := wlogCache;
    }

    /** The window log init_cctx sets on the context: none when unset, and for dcz the memoised one. */
    method AppliedWindow(sizeMax: nat) returns (w: Option<int>)
      requires CacheOk() && sizeMax >= 0xFFFF_FFFF && (dictLen.Some? ==> dictLen.value <= sizeMax)
      modifies this`wlogCache, this`computed
      ensures CacheOk()
      ensures w == if dictLen.None? && conf.windowLog <= 0 then None else Some(EffectiveWindow())
      ensures dictLen.None? && conf.windowLog > 0 ==> w == Some(conf.windowLog)
      ensures dictLen.Some? ==> w == Some(Window(dictLen.value, pledged, conf.windowLog, conf.dczCap))
    {
      w := None;
      if conf.windowLog > 0 && dictLen.None? {
        w := Some(conf.windowLog);
      }
      if dictLen.Some? {
        var d := DczWlog(sizeMax);
        w := Some(d);
      }
    }
  }

  /** Two requests with one valid key want the same context: their own level, long mode and window are equal. */
  lemma SameProfile(r: Request, q: Request)
    requires r.Profile() == q.Profile() != INVALID
    ensures r.conf.level == q.conf.level && r.conf.longMode == q.conf.longMode
    ensures r.EffectiveWindow() == q.EffectiveWindow()
  {
    PackIsInjective(r.conf.level, r.conf.longMode, r.EffectiveWindow(), q.conf.level, q.conf.longMode, q.EffectiveWindow());
  }

  // ----- the ring, as a value -----

  datatype Slot = Slot(cctx: Option<nat>, profile: nat, busy: bool)

  /** A context in the hands of a request: from which slot, and what it was asked for. */
  datatype Loan = Loan(cctx: nat, lender: Option<nat>, asked: Params)

  /** `loans` is keyed by request; contexts are numbered in order of creation, and `built` says what each was first
      made for. */
  datatype Ring = Ring(slots: seq<Slot>, loans: map<nat, Loan>, created: nat, freed: set<nat>, exited: bool,
                       built: map<nat, Params>)

  /** Contexts in slots are real, distinct and alive, and were seeded under a valid profile. */
  ghost predicate SlotsOk(g: Ring) {
    && |g.slots| == SLOTS
    && (forall i :: 0 <= i < SLOTS ==> SlotOk(g, i))
    && (forall i, j :: 0 <= i < j < SLOTS && g.slots[i].cctx.Some? ==> g.slots[i].cctx != g.slots[j].cctx)
    && (forall c :: c in g.freed ==> c < g.created)
  }

  ghost predicate SlotOk(g: Ring, i: nat)
    requires i < |g.slots|
  {
    var s := g.slots[i];
    && (s.cctx.Some? ==> s.cctx.value < g.created && s.cctx.value !in g.freed && s.profile != INVALID)
    && (s.cctx.Some? ==> s.cctx.value in g.built && s.profile == g.built[s.cctx.value].Key())
    && (s.busy ==> s.cctx.Some?)
    && (g.exited ==> s.cctx.None?)
  }

  /** No context is lent to two requests; one lent from a slot is that slot's, under the slot's profile, and the
      slot is busy; one held outside the ring is in no slot. */
  ghost predicate LoansOk(g: Ring)
    requires |g.slots| == SLOTS
  {
    && (forall r :: r in g.loans ==> LoanOk(g, g.loans[r]))
    && (forall r, q :: r in g.loans && q in g.loans && r != q ==>
          && g.loans[r].cctx != g.loans[q].cctx
          && (g.loans[r].lender.Some? ==> g.loans[r].lender != g.loans[q].lender))
  }

  ghost predicate LoanOk(g: Ring, l: Loan)
    requires |g.slots| == SLOTS
  {
    && l.cctx < g.created
    && l.cctx in g.built && g.built[l.cctx] == l.asked
    && (l.lender.None? ==> l.cctx !in g.freed && forall i :: 0 <= i < SLOTS ==> g.slots[i].cctx != Some(l.cctx))
    && (l.lender.Some? ==> l.lender.value < SLOTS)
    && (l.lender.Some? && !g.exited ==> g.slots[l.lender.value] == Slot(Some(l.cctx), l.asked.Key(), true))
    && (l.lender.Some? && g.exited ==> l.cctx in g.freed)
  }

  /** Each busy slot has a borrower. */
  ghost predicate Borrowed(g: Ring)
    requires |g.slots| == SLOTS
  {
    forall i :: 0 <= i < SLOTS && g.slots[i].busy ==> exists r :: r in g.loans && g.loans[r].lender == Some(i)
  }

  /** Every context ever created is in a slot, in the hands of a request, or freed. */
  ghost predicate NoLeak(g: Ring)
    requires |g.slots| == SLOTS
  {
    forall c: nat :: c < g.created ==> c in g.freed || InSlot(g, c) || InHand(g, c)
  }

  ghost predicate InSlot(g: Ring, c: nat)
    requires |g.slots| == SLOTS
  {
    exists i :: 0 <= i < SLOTS && g.slots[i].cctx == Some(c)
  }

  ghost predicate InHand(g: Ring, c: nat) {
    exists r :: r in g.loans && g.loans[r].cctx == c
  }

  ghost predicate RingOk(g: Ring) {
    SlotsOk(g) && LoansOk(g) && Borrowed(g) && NoLeak(g)
  }

  predicate Idle(s: Slot, key: nat) {
    !s.busy && s.cctx.Some? && s.profile == key
  }

  predicate Empty(s: Slot) {
    !s.busy && s.cctx.None?
  }

  ghost predicate IsFirst(slots: seq<Slot>, p: Slot -> bool, at: Option<nat>) {
    match at
    case Some(i) => i < |slots| && p(slots[i]) && forall k :: 0 <= k < i ==> !p(slots[k])
    case None => forall k :: 0 <= k < |slots| ==> !p(slots[k])
  }

  const EMPTY: Slot := Slot(None, 0, false)

  ghost function Start(): Ring {
    Ring([EMPTY, EMPTY, EMPTY, EMPTY], map[], 0, {}, false, map[])
  }

  /** Lend the idle context of slot `i`. */
  ghost function Lend(g: Ring, r: nat, i: nat, asked: Params): Ring
    requires i < |g.slots| && g.slots[i].cctx.Some?
  {
    var s := g.slots[i];
    g.(slots := g.slots[i := s.(busy := true)], loans := g.loans[r := Loan(s.cctx.value, Some(i), asked)])
  }

  /** Create a context for `r`, kept outside the ring. */
  ghost function Create(g: Ring, r: nat, asked: Params): Ring {
    g.(loans := g.loans[r := Loan(g.created, None, asked)], created := g.created + 1, built := g.built[g.created := asked])
  }

  /** Create a context for `r` and seed slot `f` with it. */
  ghost function Seed(g: Ring, r: nat, f: nat, asked: Params): Ring
    requires f < |g.slots|
  {
    g.(slots := g.slots[f := Slot(Some(g.created), asked.Key(), true)],
       loans := g.loans[r := Loan(g.created, Some(f), asked)], created := g.created + 1,
       built := g.built[g.created := asked])
  }

  /** Give back what `r` holds. After exit_process an emptied slot is left alone. */
  ghost function GiveBack(g: Ring, r: nat): Ring
    requires r in g.loans && (g.loans[r].lender.Some? ==> g.loans[r].lender.value < |g.slots|)
  {
    var l := g.loans[r];
    var loans := map q | q in g.loans && q != r :: g.loans[q];
    match l.lender
    case None => g.(loans := loans, freed := g.freed + {l.cctx})
    case Some(i) =>
      if g.slots[i].cctx.Some? then g.(loans := loans, slots := g.slots[i := g.slots[i].(busy := false)])
      else g.(loans := loans)
  }

  /** What a successful acquire does: an idle context of this very profile is lent if there is one; failing that
      a new one is created, cached unless the ring has no empty slot or the profile is out of its domain. */
  ghost predicate Acquired(g: Ring, h: Ring, r: nat, asked: Params) {
    exists lend: Option<nat>, empty: Option<nat> ::
      && IsFirst(g.slots, s => Idle(s, asked.Key()), lend)
      && (lend.Some? ==> h == Lend(g, r, lend.value, asked))
      && (lend.None? ==> IsFirst(g.slots, Empty, empty))
      && (lend.None? ==>
            h == if empty.Some? && asked.Key() != INVALID then Seed(g, r, empty.value, asked) else Create(g, r, asked))
  }

  lemma LendKeeps(g: Ring, r: nat, i: nat, asked: Params)
    requires RingOk(g) && !g.exited && r !in g.loans
    requires i < SLOTS && Idle(g.slots[i], asked.Key())
    ensures RingOk(Lend(g, r, i, asked))
  {
    var h := Lend(g, r, i, asked);
    assert SlotOk(g, i);
    var b := g.built[g.slots[i].cctx.value];
    PackIsInjective(b.level, b.longMode, b.window, asked.level, asked.longMode, asked.window);
    forall q | q in g.loans
      ensures g.loans[q].cctx != h.loans[r].cctx && g.loans[q].lender != Some(i)
      ensures LoanOk(h, g.loans[q])
    {
      assert LoanOk(g, g.loans[q]);
    }
    forall k | 0 <= k < SLOTS
      ensures SlotOk(h, k)
    {
      assert SlotOk(g, k);
    }
    assert LoanOk(h, h.loans[r]);
    KeptBorrowers(g, h, r);
    KeptContexts(g, h, r);
  }

  lemma CreateKeeps(g: Ring, r: nat, asked: Params)
    requires RingOk(g) && !g.exited && r !in g.loans
    ensures RingOk(Create(g, r, asked))
  {
    var h := Create(g, r, asked);
    forall k | 0 <= k < SLOTS
      ensures SlotOk(h, k) && g.slots[k].cctx != Some(g.created)
    {
      assert SlotOk(g, k);
    }
    forall q | q in g.loans
      ensures LoanOk(h, g.loans[q]) && g.loans[q].cctx != g.created
    {
      assert LoanOk(g, g.loans[q]);
    }
    assert LoanOk(h, h.loans[r]);
    KeptBorrowers(g, h, r);
    KeptContexts(g, h, r);
  }

  lemma SeedKeeps(g: Ring, r: nat, f: nat, asked: Params)
    requires RingOk(g) && !g.exited && r !in g.loans && asked.Key() != INVALID
    requires f < SLOTS && g.slots[f].cctx.None? && !g.slots[f].busy
    ensures RingOk(Seed(g, r, f, asked))
  {
    var h := Seed(g, r, f, asked);
    forall k | 0 <= k < SLOTS
      ensures SlotOk(h, k) && g.slots[k].cctx != Some(g.created)
    {
      assert SlotOk(g, k);
    }
    forall q | q in g.loans
      ensures LoanOk(h, g.loans[q]) && g.loans[q].cctx != g.created && g.loans[q].lender != Some(f)
    {
      assert LoanOk(g, g.loans[q]);
    }
    assert LoanOk(h, h.loans[r]);
    KeptBorrowers(g, h, r);
    KeptContexts(g, h, r);
  }

  /** Adding a loan keeps every borrower there was. */
  lemma KeptBorrowers(g: Ring, h: Ring, r: nat)
    requires |g.slots| == |h.slots| == SLOTS && Borrowed(g) && r !in g.loans && r in h.loans
    requires forall q :: q in g.loans ==> q in h.loans && h.loans[q] == g.loans[q]
    requires forall i :: 0 <= i < SLOTS && h.slots[i].busy ==> g.slots[i].busy || h.loans[r].lender == Some(i)
    ensures Borrowed(h)
  {
    forall i | 0 <= i < SLOTS && h.slots[i].busy
      ensures exists q :: q in h.loans && h.loans[q].lender == Some(i)
    {
      if g.slots[i].busy {
        var q :| q in g.loans && g.loans[q].lender == Some(i);
        assert q in h.loans && h.loans[q].lender == Some(i);
      } else {
        assert h.loans[r].lender == Some(i);
      }
    }
  }

  /** ... and loses no context. */
  lemma KeptContexts(g: Ring, h: Ring, r: nat)
    requires |g.slots| == |h.slots| == SLOTS && NoLeak(g) && r !in g.loans && r in h.loans
    requires forall q :: q in g.loans ==> q in h.loans && h.loans[q] == g.loans[q]
    requires forall i :: 0 <= i < SLOTS && g.slots[i].cctx.Some? ==> h.slots[i].cctx == g.slots[i].cctx
    requires g.freed <= h.freed
    requires h.created == g.created || (h.created == g.created + 1 && h.loans[r].cctx == g.created)
    ensures NoLeak(h)
  {
    forall c: nat | c < h.created
      ensures c in h.freed || InSlot(h, c) || InHand(h, c)
    {
      if c < g.created {
        if InSlot(g, c) {
          var i :| 0 <= i < SLOTS && g.slots[i].cctx == Some(c);
          assert h.slots[i].cctx == Some(c);
        } else if InHand(g, c) {
          var q :| q in g.loans && g.loans[q].cctx == c;
          assert q in h.loans && h.loans[q].cctx == c;
        }
      } else {
        assert r in h.loans && h.loans[r].cctx == c;
      }
    }
  }

  /** Returning never frees what is freed already or still in a slot, and frees no one else's context. */
  lemma GiveBackKeeps(g: Ring, r: nat)
    requires RingOk(g) && r in g.loans
    ensures g.loans[r].cctx < g.created && (g.loans[r].lender.None? ==> g.loans[r].cctx !in g.freed)
    ensures g.loans[r].lender.Some? ==> g.loans[r].lender.value < SLOTS
    ensures RingOk(GiveBack(g, r))
  {
    assert LoanOk(g, g.loans[r]);
    GiveBackSlots(g, r);
    GiveBackLoans(g, r);
    GiveBackBorrowers(g, r);
    GiveBackContexts(g, r);
    hide GiveBack, SlotsOk, LoansOk, Borrowed, NoLeak;
  }

  lemma GiveBackSlots(g: Ring, r: nat)
    requires RingOk(g) && r in g.loans && (g.loans[r].lender.Some? ==> g.loans[r].lender.value < SLOTS)
    ensures SlotsOk(GiveBack(g, r))
  {
    assert LoanOk(g, g.loans[r]);
    var h := GiveBack(g, r);
    forall k | 0 <= k < SLOTS
      ensures SlotOk(h, k)
    {
      assert SlotOk(g, k);
    }
  }

  lemma GiveBackLoans(g: Ring, r: nat)
    requires RingOk(g) && r in g.loans && (g.loans[r].lender.Some? ==> g.loans[r].lender.value < SLOTS)
    ensures LoansOk(GiveBack(g, r))
  {
    assert LoanOk(g, g.loans[r]);
    var h := GiveBack(g, r);
    forall q | q in h.loans
      ensures LoanOk(h, h.loans[q])
    {
      assert LoanOk(g, g.loans[q]);
    }
  }

  lemma GiveBackBorrowers(g: Ring, r: nat)
    requires RingOk(g) && r in g.loans && (g.loans[r].lender.Some? ==> g.loans[r].lender.value < SLOTS)
    ensures Borrowed(GiveBack(g, r))
  {
    var h := GiveBack(g, r);
    forall i | 0 <= i < SLOTS && h.slots[i].busy
      ensures exists q :: q in h.loans && h.loans[q].lender == Some(i)
    {
      assert SlotOk(g, i);
      var q :| q in g.loans && g.loans[q].lender == Some(i);
      assert q in h.loans && h.loans[q].lender == Some(i);
    }
  }

  lemma GiveBackContexts(g: Ring, r: nat)
    requires RingOk(g) && r in g.loans && (g.loans[r].lender.Some? ==> g.loans[r].lender.value < SLOTS)
    ensures NoLeak(GiveBack(g, r))
  {
    var h := GiveBack(g, r);
    var l := g.loans[r];
    assert LoanOk(g, l);
    forall c: nat | c < h.created
      ensures c in h.freed || InSlot(h, c) || InHand(h, c)
    {
      if InSlot(g, c) {
        var i :| 0 <= i < SLOTS && g.slots[i].cctx == Some(c);
        assert h.slots[i].cctx == Some(c);
      } else if InHand(g, c) {
        var q :| q in g.loans && g.loans[q].cctx == c;
        if q != r {
          assert q in h.loans && h.loans[q].cctx == c;
        }
      }
    }
  }

  /** The contexts that stand in slots. */
  ghost function Stored(slots: seq<Slot>): set<nat> {
    set i | 0 <= i < |slots| && slots[i].cctx.Some? :: slots[i].cctx.value
  }

  lemma NothingStored()
    ensures Stored([]) == {}
  {
  }

  lemma StoredStep(slots: seq<Slot>, i: nat)
    requires i < |slots|
    ensures Stored(slots[..i + 1]) == Stored(slots[..i]) + if slots[i].cctx.Some? then {slots[i].cctx.value} else {}
  {
    var less, more := slots[..i], slots[..i + 1];
    assert forall k :: 0 <= k < i ==> more[k] == less[k];
    assert more[i] == slots[i];
  }

  /** What exit_process leaves: every slot's context freed, lent or not, and every slot empty. */
  ghost function Exit(g: Ring): Ring {
    g.(slots := seq(|g.slots|, i requires 0 <= i < |g.slots| => Slot(None, g.slots[i].profile, false)),
       freed := g.freed + Stored(g.slots),
       exited := true)
  }

  /** A slot's context can be freed after those of the slots before it. */
  lemma NotYetFreed(g: Ring, i: nat)
    requires RingOk(g) && i < SLOTS && g.slots[i].cctx.Some?
    ensures var c := g.slots[i].cctx.value; c < g.created && c !in g.freed + Stored(g.slots[..i])
  {
    assert SlotOk(g, i);
  }

  lemma ExitKeeps(g: Ring)
    requires RingOk(g) && !g.exited
    ensures RingOk(Exit(g))
  {
    var h := Exit(g);
    forall i | 0 <= i < SLOTS && g.slots[i].cctx.Some?
      ensures g.slots[i].cctx.value in h.freed && g.slots[i].cctx.value < g.created
    {
      assert SlotOk(g, i);
    }
    forall q | q in g.loans
      ensures LoanOk(h, g.loans[q])
    {
      assert LoanOk(g, g.loans[q]);
    }
    forall c: nat | c < h.created
      ensures c in h.freed || InSlot(h, c) || InHand(h, c)
    {
      if InSlot(g, c) {
        var i :| 0 <= i < SLOTS && g.slots[i].cctx == Some(c);
      } else if InHand(g, c) {
        var q :| q in g.loans && g.loans[q].cctx == c;
        assert q in h.loans && h.loans[q].cctx == c;
      }
    }
  }

  // ----- the worker -----

  class Worker {
    const sizeMax: nat
    var slots: array<Slot>
    var created: nat
    ghost var loans: map<nat, Loan>
    ghost var freed: set<nat>
    ghost var exited: bool
    ghost var built: map<nat, Params>
    /** How often a cleanup or a context could not be had. */
    ghost var faults: nat

    ghost function G(): Ring
      reads this, slots
    {
      Ring(slots[..], loans, created, freed, exited, built)
    }

    ghost predicate Valid()
      reads this, slots
    {
      sizeMax >= 0xFFFF_FFFF && slots.Length == SLOTS && RingOk(G())
    }

    /** The request holds exactly what the books say. */
    ghost predicate Tied(r: Request)
      reads this, r
    {
      && r.CacheOk()
      && (r.cctx.None? ==> r.id !in loans && r.lender == None)
      && (r.cctx.Some? ==> r.id in loans && loans[r.id] == Loan(r.cctx.value, r.lender, r.Asked()))
    }

    constructor (sizeMax: nat)
      requires sizeMax >= 0xFFFF_FFFF
      ensures Valid() && G() == Start() && fresh(slots) && slots.Length == 4
    {
      this.sizeMax := sizeMax;
      slots := new Slot[SLOTS](_ => EMPTY);
      created, freed, loans, exited, built, faults := 0, {}, map[], false, map[], 0;
      new;
      assert slots[..] == [EMPTY, EMPTY, EMPTY, EMPTY];
      StartOk();
    }

    /** A pool cleanup, or a context: either may be refused. */
    method Attempt() returns (ok: bool)
      modifies this`faults
      ensures faults == old(faults) + if ok then 0 else 1
    {
      ok := *;
      if !ok {
        faults := faults + 1;
      }
    }

    /** ZSTD_freeCCtx: freeing twice would break this precondition. */
    ghost method FreeCCtx(c: nat)
      requires c < created && c !in freed
      modifies this`freed
      ensures freed == old(freed) + {c}
    {
      freed := freed + {c};
    }

    /** One walk: the first idle slot built under `key`, and the first empty slot passed on the way. */
    method FindSlot(key: nat) returns (lend: Option<nat>, empty: Option<nat>)
      requires slots.Length == SLOTS
      ensures IsFirst(slots[..], s => Idle(s, key), lend)
      ensures lend.None? ==> IsFirst(slots[..], Empty, empty)
    {
      lend, empty := None, None;
      for i := 0 to SLOTS
        invariant lend.None?
        invariant forall k :: 0 <= k < i ==> !Idle(slots[k], key)
        invariant empty.None? ==> forall k :: 0 <= k < i ==> !Empty(slots[k])
        invariant empty.Some? ==> empty.value < i && Empty(slots[empty.value])
                                  && forall k :: 0 <= k < empty.value ==> !Empty(slots[k])
      {
        var slot := slots[i];
        if slot.busy {
          continue;
        }
        if slot.cctx.None? {
          if empty.None? {
            empty := Some(i);
          }
          continue;
        }
        if slot.profile == key {
          lend := Some(i);
          return;
        }
      }
    }

    /** Borrow the idle context of slot `i`. */
    method Borrow(r: Request, i: nat)
      requires Valid() && !exited && r.cctx == None && r.id !in loans && r.CacheOk()
      requires i < SLOTS && Idle(slots[i], r.Profile())
      modifies this`loans, slots, r`cctx, r`lender
      ensures Valid() && Tied(r) && r.cctx.Some?
      ensures G() == Lend(old(G()), r.id, i, r.Asked())
    {
      ghost var g := G();
      LendKeeps(g, r.id, i, r.Asked());
      var slot := slots[i];
      r.cctx := slot.cctx;
      slots[i] := slot.(busy := true);
      r.lender := Some(i);
      loans := loans[r.id := Loan(slot.cctx.value, Some(i), r.Asked())];
      assert G() == Lend(g, r.id, i, r.Asked());
    }

    /** A fresh context, cached in the empty slot when there is one and the profile is a valid one. */
    method Make(r: Request, key: nat, empty: Option<nat>)
      requires Valid() && !exited && r.cctx == None && r.lender == None && r.id !in loans && r.CacheOk()
      requires key == r.Profile() && (empty.Some? ==> empty.value < SLOTS && Empty(slots[empty.value]))
      modifies this`loans, this`created, this`built, slots, r`cctx, r`lender
      ensures Valid() && Tied(r) && r.cctx.Some?
      ensures G() == if empty.Some? && key != INVALID then Seed(old(G()), r.id, empty.value, r.Asked())
                     else Create(old(G()), r.id, r.Asked())
    {
      ghost var g := G();
      r.cctx := Some(created);
      if empty.Some? && key != INVALID {
        SeedKeeps(g, r.id, empty.value, r.Asked());
        slots[empty.value] := Slot(r.cctx, key, true);
        r.lender := empty;
      } else {
        CreateKeeps(g, r.id, r.Asked());
      }
      loans := loans[r.id := Loan(created, r.lender, r.Asked())];
      built := built[created := r.Asked()];
      created := created + 1;
      assert G() == if empty.Some? && key != INVALID then Seed(g, r.id, empty.value, r.Asked()) else Create(g, r.id, r.Asked());
    }

    /** Lend the first matching idle context, or create one and seed the first empty slot with it. */
    method Acquire(r: Request) returns (ok: bool)
      requires Valid() && !exited && Tied(r) && r.cctx == None
      requires r.dictLen.Some? ==> r.dictLen.value <= sizeMax
      modifies this`created, this`loans, this`built, this`faults, slots, r
      ensures Valid() && Tied(r) && ok == r.cctx.Some?
      ensures ok <==> faults == old(faults)
      ensures !ok ==> G() == old(G())
      ensures ok ==> Acquired(old(G()), G(), r.id, r.Asked())
      // the context was made for this very level, long mode and window
      ensures ok ==> r.cctx.value in built && built[r.cctx.value].level == r.conf.level
                     && built[r.cctx.value].longMode == r.conf.longMode && built[r.cctx.value].window == r.EffectiveWindow()
    {
      hide RingOk;
      var cleanup := Attempt();   // ngx_pool_cleanup_add, before anything is claimed
      if !cleanup {
        return false;
      }
      var window := r.conf.windowLog;
      if r.dictLen.Some? {
        window := r.DczWlog(sizeMax);
      }
      var key := Pack(r.conf.level, r.conf.longMode, window);
      var lend, empty := FindSlot(key);
      ghost var g := G();
      if lend.Some? {
        Borrow(r, lend.value);
        assert Acquired(g, G(), r.id, r.Asked());
        BuiltAsAsked(G(), r.id);
        return true;
      }
      var made := Attempt();      // ZSTD_createCCtx
      if !made {
        return false;
      }
      Make(r, key, empty);
      assert Acquired(g, G(), r.id, r.Asked());
      BuiltAsAsked(G(), r.id);
      ok := true;
    }

    /** Give the context back: on completion, on error, or from the pool cleanup; the second time does nothing. */
    method Return(r: Request)
      requires Valid() && Tied(r)
      modifies this`freed, this`loans, slots, r`cctx, r`lender
      ensures Valid() && Tied(r) && r.cctx == None
      ensures old(r.cctx).None? ==> G() == old(G())
      ensures old(r.cctx).Some? ==> old(r.id in G().loans) && G() == GiveBack(old(G()), r.id)
    {
      if r.cctx.None? {
        return;
      }
      hide RingOk, Request.EffectiveWindow, Request.CacheOk, Window;
      ghost var g := G();
      GiveBackKeeps(g, r.id);
      if r.lender.Some? {
        var i := r.lender.value;
        if slots[i].cctx.Some? {
          slots[i] := slots[i].(busy := false);
        }
      } else {
        FreeCCtx(r.cctx.value);
      }
      loans := map q | q in loans && q != r.id :: loans[q];
      r.cctx, r.lender := None, None;
      assert G() == GiveBack(g, r.id);
    }

    /** exit_process: free every slot's context, lent or not. */
    method ExitProcess()
      requires Valid() && !exited
      modifies this`freed, this`exited, slots
      ensures Valid() && G() == Exit(old(G()))
    {
      ghost var g := G();
      ExitKeeps(g);
      hide RingOk, Stored;
      assert g.slots[..0] == [];
      NothingStored();
      for i := 0 to SLOTS
        invariant loans == g.loans && created == g.created && !exited
        invariant forall k :: 0 <= k < i ==> slots[k] == Slot(None, g.slots[k].profile, false)
        invariant forall k :: i <= k < SLOTS ==> slots[k] == g.slots[k]
        invariant freed == g.freed + Stored(g.slots[..i])
      {
        var s := slots[i];
        if s.cctx.Some? {
          NotYetFreed(g, i);
          FreeCCtx(s.cctx.value);
          s := s.(cctx := None);
        }
        slots[i] := s.(busy := false);
        StoredStep(g.slots, i);
      }
      assert g.slots[..SLOTS] == g.slots;
      exited := true;
      assert slots[..] == Exit(g).slots;
    }
  }

  lemma StartOk()
    ensures RingOk(Start())
  {
  }

  // ----- what the invariant means for any interleaving -----

  /** No context is lent to two live requests, and none that is held is freed before the worker exits. */
  lemma NoContextIsShared(g: Ring, r: nat, q: nat)
    requires RingOk(g) && r in g.loans && q in g.loans && r != q
    ensures g.loans[r].cctx != g.loans[q].cctx
    ensures !g.exited ==> g.loans[r].cctx !in g.freed
  {
    assert LoanOk(g, g.loans[r]);
    if g.loans[r].lender.Some? && !g.exited {
      assert SlotOk(g, g.loans[r].lender.value);
    }
  }

  /** Whoever holds a context asked for exactly the level, long mode and window it was first made for, whoever had it
      in between. */
  lemma BuiltAsAsked(g: Ring, r: nat)
    requires RingOk(g) && r in g.loans
    ensures g.loans[r].cctx in g.built && g.built[g.loans[r].cctx] == g.loans[r].asked
  {
    assert LoanOk(g, g.loans[r]);
  }

  /** A busy slot has exactly one borrower, and that borrower asked for the slot's profile. */
  lemma BusySlotHasOneBorrower(g: Ring, i: nat)
    requires RingOk(g) && i < SLOTS && g.slots[i].busy
    ensures exists r :: r in g.loans && g.loans[r].lender == Some(i) && g.loans[r].asked.Key() == g.slots[i].profile
                        && g.slots[i].profile != INVALID
                        && forall q :: q in g.loans && g.loans[q].lender == Some(i) ==> q == r
  {
    assert SlotOk(g, i);
    var r :| r in g.loans && g.loans[r].lender == Some(i);
    assert LoanOk(g, g.loans[r]);
  }

  // ----- every interleaving of every number of requests -----

  /** One step of the worker: some request acquires, some request returns, or the process exits. */
  ghost predicate Step(g: Ring, h: Ring)
    requires |g.slots| == SLOTS
  {
    || (!g.exited && exists r, asked :: r !in g.loans && Acquired(g, h, r, asked))
    || (exists r :: Returns(g, h, r))
    || (!g.exited && h == Exit(g))
  }

  ghost predicate Returns(g: Ring, h: Ring, r: nat)
    requires |g.slots| == SLOTS
  {
    r in g.loans && (g.loans[r].lender.Some? ==> g.loans[r].lender.value < SLOTS) && h == GiveBack(g, r)
  }

  /** A slot once seeded keeps its profile, and its context until the exit; what a context was made for is never
      rewritten. */
  ghost predicate Settled(g: Ring, h: Ring)
    requires |g.slots| == |h.slots| == SLOTS
  {
    && g.freed <= h.freed && (g.exited ==> h.exited) && g.created <= h.created
    && (forall c :: c in g.built && c < g.created ==> c in h.built && h.built[c] == g.built[c])
    && forall i :: 0 <= i < SLOTS && g.slots[i].cctx.Some? ==>
         && h.slots[i].profile == g.slots[i].profile
         && (h.slots[i].cctx == g.slots[i].cctx || (h.exited && h.slots[i].cctx == None))
  }

  lemma AcquiredKeeps(g: Ring, h: Ring, r: nat, asked: Params)
    requires RingOk(g) && !g.exited && r !in g.loans && Acquired(g, h, r, asked)
    ensures RingOk(h) && Settled(g, h)
  {
    hide RingOk;
    var lend: Option<nat>, empty: Option<nat> :|
      && IsFirst(g.slots, s => Idle(s, asked.Key()), lend)
      && (lend.Some? ==> h == Lend(g, r, lend.value, asked))
      && (lend.None? ==> IsFirst(g.slots, Empty, empty))
      && (lend.None? ==>
            h == if empty.Some? && asked.Key() != INVALID then Seed(g, r, empty.value, asked) else Create(g, r, asked));
    assert |g.slots| == SLOTS by { SlotCount(g); }
    if lend.Some? {
      LendKeeps(g, r, lend.value, asked);
    } else if empty.Some? && asked.Key() != INVALID {
      SeedKeeps(g, r, empty.value, asked);
    } else {
      CreateKeeps(g, r, asked);
    }
  }

  lemma SlotCount(g: Ring)
    requires RingOk(g)
    ensures |g.slots| == SLOTS
    ensures forall i :: 0 <= i < SLOTS && g.exited ==> g.slots[i].cctx.None?
  {
    forall i | 0 <= i < SLOTS && g.exited
      ensures g.slots[i].cctx.None?
    {
      assert SlotOk(g, i);
    }
  }

  lemma StepKeeps(g: Ring, h: Ring)
    requires |g.slots| == SLOTS && RingOk(g) && Step(g, h)
    ensures RingOk(h) && |h.slots| == SLOTS && Settled(g, h)
    ensures g.exited ==> h.slots == g.slots
  {
    hide RingOk, Acquired;
    SlotCount(g);
    if r, asked :| !g.exited && r !in g.loans && Acquired(g, h, r, asked) {
      AcquiredKeeps(g, h, r, asked);
    } else if r :| Returns(g, h, r) {
      GiveBackKeeps(g, r);
    } else {
      ExitKeeps(g);
    }
    SlotCount(h);
  }

  lemma SettledTrans(f: Ring, g: Ring, h: Ring)
    requires |f.slots| == |g.slots| == |h.slots| == SLOTS
    requires Settled(f, g) && Settled(g, h) && (g.exited ==> h.slots == g.slots)
    ensures Settled(f, h)
  {
  }

  lemma SettledSelf(g: Ring)
    requires |g.slots| == SLOTS
    ensures Settled(g, g)
  {
  }

  lemma StillExited(g: Ring, h: Ring)
    requires |g.slots| == |h.slots| == SLOTS && Settled(g, h)
    ensures g.exited ==> h.exited
  {
  }

  ghost predicate IsRun(run: seq<Ring>) {
    && |run| > 0 && run[0] == Start()
    && forall k :: 0 <= k < |run| ==> |run[k].slots| == SLOTS && (k + 1 < |run| ==> Step(run[k], run[k + 1]))
  }

  /** The invariant holds at every point of every run, and between any two points no seeded slot changed its
      profile: a later borrower gets a context built for exactly what it asked for. */
  lemma {:induction false} EveryRunIsSafe(run: seq<Ring>, i: nat, j: nat)
    requires IsRun(run) && i <= j < |run|
    ensures RingOk(run[j])
    ensures Settled(run[i], run[j])
    ensures run[i].exited ==> run[j].slots == run[i].slots
    decreases j
  {
    hide RingOk, Step, Settled;
    if j == 0 {
      StartOk();
      SettledSelf(run[0]);
    } else if i == j {
      EveryRunIsSafe(run, j - 1, j - 1);
      assert j - 1 + 1 < |run|;
      StepKeeps(run[j - 1], run[j]);
      SettledSelf(run[j]);
    } else {
      EveryRunIsSafe(run, i, j - 1);
      assert j - 1 + 1 < |run|;
      StepKeeps(run[j - 1], run[j]);
      SettledTrans(run[i], run[j - 1], run[j]);
      StillExited(run[i], run[j - 1]);
    }
  }

  /** Why nothing may be acquired after exit: a request that still holds a slot's freed context would, on
      returning it, release whatever was seeded into that slot since. */
  lemma AcquireAfterExitWouldShare()
    ensures var p := Params(6, false, 20);
            var held := Loan(0, Some(0), p);
            var g := Ring([EMPTY, EMPTY, EMPTY, EMPTY], map[7 := held], 1, {0}, true, map[0 := p]);
            && RingOk(g)
            && var h := GiveBack(Seed(g, 8, 0, p), 7);
               8 in h.loans && h.slots[0].cctx == Some(h.loans[8].cctx) && !h.slots[0].busy
  {
    var p := Params(6, false, 20);
    var held := Loan(0, Some(0), p);
    var g := Ring([EMPTY, EMPTY, EMPTY, EMPTY], map[7 := held], 1, {0}, true, map[0 := p]);
    assert LoanOk(g, held);
  }
}
