/** Window sizing for dictionary-compressed responses: the clamped ceiling logarithm in both of its builds,
    the request's window, the budget cap and the dictionary cache prepared at configuration load. */
module DczWindow {
  import opened Basics
  import opened FrameProbe

  const MIN_LOG: nat := 10
  const MAX_LOG: nat := 23
  const UNKNOWN_SIZE_GUESS: nat := 1024 * 1024
  const CACHE_BYTES: nat := 64 * 1024 * 1024

  // ----- the clamped ceiling logarithm -----

  /** `w` is the smallest exponent in MIN_LOG..MAX_LOG with x <= 2^w, or MAX_LOG when there is none. */
  ghost predicate IsCeilLog(x: nat, w: nat) {
    && MIN_LOG <= w <= MAX_LOG
    && (x <= Pow2(w) || w == MAX_LOG)
    && (w > MIN_LOG ==> x > Pow2(w - 1))
  }

  lemma {:induction false} Pow2Monotone(a: nat, b: nat)
    requires a <= b
    ensures Pow2(a) <= Pow2(b)
    ensures a < b ==> 2 * Pow2(a) <= Pow2(b)
    decreases b
  {
    if a < b {
      Pow2Monotone(a, b - 1);
    }
  }

  lemma Pow2Doubles(n: nat)
    ensures Pow2(n + 1) == 2 * Pow2(n)
  {
  }

  lemma CeilLogUnique(x: nat, v: nat, w: nat)
    requires IsCeilLog(x, v) && IsCeilLog(x, w)
    ensures v == w
  {
    if v < w {
      Pow2Monotone(v, w - 1);
    } else if w < v {
      Pow2Monotone(w, v - 1);
    }
  }

  lemma CeilLogMonotone(x: nat, y: nat, v: nat, w: nat)
    requires x <= y && IsCeilLog(x, v) && IsCeilLog(y, w)
    ensures v <= w
  {
    if w < v {
      Pow2Monotone(w, v - 1);
    }
  }

  lemma Pow2Values()
    ensures Pow2(10) == 1024 && Pow2(23) == 8388608
  {
    assert Pow2(4) == 16;
    assert Pow2(8) == 256;
    assert Pow2(12) == 4096;
    assert Pow2(16) == 65536;
    assert Pow2(20) == 1048576;
  }

  /** Number of significant bits; __builtin_clzll(x) is 64 minus this for a non-zero 64-bit x. */
  function BitLength(x: nat): (r: nat)
    ensures x > 0 ==> r > 0
  {
    if x == 0 then 0 else 1 + BitLength(x / 2)
  }

  /** Bitwise and. */
  function And(a: nat, b: nat): nat {
    if a == 0 || b == 0 then 0 else 2 * And(a / 2, b / 2) + (a % 2) * (b % 2)
  }

  lemma {:induction false} BitLengthBounds(x: nat)
    requires x > 0
    ensures Pow2(BitLength(x) - 1) <= x < Pow2(BitLength(x))
  {
    hide Pow2;
    var h := x / 2;
    if h > 0 {
      BitLengthBounds(h);
      NextPower(h, x % 2, BitLength(h) - 1);
    } else {
      Pow2Zero();
    }
  }

  lemma Pow2Zero()
    ensures Pow2(0) == 1 && Pow2(1) == 2
  {
  }

  /** One more bit, one more power. */
  lemma NextPower(h: nat, bit: nat, n: nat)
    requires bit < 2 && Pow2(n) <= h < Pow2(n + 1)
    ensures Pow2(n + 1) <= 2 * h + bit < Pow2(n + 2)
  {
    Pow2Doubles(n);
    Pow2Doubles(n + 1);
  }

  lemma AndStep(a: nat, b: nat)
    ensures And(a, b) == if a == 0 || b == 0 then 0 else 2 * And(a / 2, b / 2) + (a % 2) * (b % 2)
  {
  }

  lemma {:induction false} AndSelf(x: nat)
    ensures And(x, x) == x
  {
    if x > 0 {
      AndSelf(x / 2);
      AndStep(x, x);
      BitSquared(x % 2);
    }
  }

  lemma BitSquared(b: nat)
    requires b < 2
    ensures b * b == b
  {
  }

  /** x & (x - 1) vanishes exactly on the powers of two. */
  lemma {:induction false} PowerOfTwoTest(x: nat)
    requires x > 0
    ensures And(x, x - 1) == 0 <==> x == Pow2(BitLength(x) - 1)
  {
    if x == 1 {
      assert BitLength(1) == 1 + BitLength(0) == 1;
    } else {
      var h, n := x / 2, BitLength(x / 2);
      assert BitLength(x) == n + 1 && Pow2(n) == 2 * Pow2(n - 1);
      if x % 2 == 1 {
        // x - 1 keeps every higher bit of x
        AndOdd(h);
      } else {
        AndEven(h);
        PowerOfTwoTest(h);
      }
    }
  }

  lemma Halves(h: nat)
    ensures (2 * h) / 2 == (2 * h + 1) / 2 == h && (2 * h) % 2 == 0 && (2 * h + 1) % 2 == 1
    ensures h > 0 ==> (2 * h - 1) / 2 == h - 1
  {
  }

  lemma AndOdd(h: nat)
    ensures And(2 * h + 1, 2 * h) == 2 * h
  {
    hide And;
    AndSelf(h);
    AndStep(2 * h + 1, 2 * h);
    Halves(h);
  }

  lemma AndEven(h: nat)
    requires h > 0
    ensures And(2 * h, 2 * h - 1) == 2 * And(h, h - 1)
  {
    hide And;
    AndStep(2 * h, 2 * h - 1);
    Halves(h);
  }

  /** The build with the compiler builtin. */
  method CeilLog2Builtin(x: nat) returns (wlog: nat)
    ensures IsCeilLog(x, wlog)
  {
    Pow2Values();
    if x <= 1024 {
      return 10;
    }
    if x > 8388608 {
      Pow2Monotone(22, 23);
      return 23;
    }
    var leadingZeros := 64 - BitLength(x);
    wlog := 64 - leadingZeros;
    if And(x, x - 1) == 0 {
      wlog := wlog - 1;
    }
    BuiltinIsCeilLog(x, wlog);
  }

  /** The bit length, one less on a power of two, is the ceiling of the logarithm. */
  lemma BuiltinIsCeilLog(x: nat, w: nat)
    requires 1024 < x <= 8388608 && w == BitLength(x) - if And(x, x - 1) == 0 then 1 else 0
    ensures IsCeilLog(x, w)
  {
    Pow2Values();
    BitLengthBounds(x);
    PowerOfTwoTest(x);
    hide And, BitLength, Pow2;
    var n := BitLength(x);
    Pow2Doubles(n - 1);
    if w < 10 {
      Pow2Monotone(w, 10);
    } else if w > 23 {
      Pow2Monotone(23, w - 1);
    }
    if w == n - 1 && w > 0 {
      Pow2Doubles(w - 1);
    }
  }

  /** The fallback build: shift and count. */
  method CeilLog2Loop(x: nat) returns (wlog: nat)
    ensures IsCeilLog(x, wlog)
  {
    Pow2Values();
    if x <= 1024 {
      return 10;
    }
    if x > 8388608 {
      Pow2Monotone(22, 23);
      return 23;
    }
    wlog := 10;
    var pow2 := 1024;
    while pow2 < x && wlog < 23
      invariant 10 <= wlog <= 23 && pow2 == Pow2(wlog)
      invariant wlog > 10 ==> x > Pow2(wlog - 1)
    {
      pow2 := pow2 * 2;
      wlog := wlog + 1;
    }
  }

  /** The two builds agree. */
  method CeilLog2(x: nat, builtin: bool) returns (wlog: nat)
    ensures wlog == CeilLog(x)
  {
    if builtin {
      wlog := CeilLog2Builtin(x);
    } else {
      wlog := CeilLog2Loop(x);
    }
    CeilLogIs(x);
    CeilLogUnique(x, wlog, CeilLog(x));
  }

  function CeilLogFrom(x: nat, w: nat): nat
    decreases MAX_LOG - w
  {
    if w >= MAX_LOG || x <= Pow2(w) then w else CeilLogFrom(x, w + 1)
  }

  function CeilLog(x: nat): nat {
    CeilLogFrom(x, MIN_LOG)
  }

  lemma {:induction false} CeilLogFromIs(x: nat, w: nat)
    requires MIN_LOG <= w <= MAX_LOG && (w > MIN_LOG ==> x > Pow2(w - 1))
    ensures IsCeilLog(x, CeilLogFrom(x, w))
    decreases MAX_LOG - w
  {
    if !(w >= MAX_LOG || x <= Pow2(w)) {
      CeilLogFromIs(x, w + 1);
    }
  }

  lemma CeilLogIs(x: nat)
    ensures IsCeilLog(x, CeilLog(x))
  {
    CeilLogFromIs(x, MIN_LOG);
  }

  // ----- the request's window -----

  /** The window in unbounded arithmetic; `pledged` is -1 when unknown, and 0 means "no ceiling". */
  function Window(dictLen: nat, pledged: int, confLog: int, budgetCap: int): nat {
    var w := CeilLog(dictLen + if pledged < 0 then UNKNOWN_SIZE_GUESS else pledged);
    var w1: int := if 0 < confLog < w then confLog else w;
    var w2: int := if 0 < budgetCap < w1 then budgetCap else w1;
    if w2 < MIN_LOG then MIN_LOG else w2
  }

  /** As computed, with a size_t that wraps at `sizeMax` + 1: both the cast and the sum saturate. */
  method DczWindowLog(dictLen: nat, pledged: int, confLog: int, budgetCap: int, sizeMax: nat, builtin: bool)
    returns (wlog: nat)
    requires dictLen <= sizeMax && sizeMax >= 0xFFFF_FFFF
    ensures wlog == Window(dictLen, pledged, confLog, budgetCap)
  {
    hide CeilLog, CeilLogFrom, Pow2;
    var contribution: nat;
    if pledged < 0 {
      contribution := UNKNOWN_SIZE_GUESS;
    } else if pledged > sizeMax {
      contribution := sizeMax;
    } else {
      contribution := pledged;
    }

    var required := (dictLen + contribution) % (sizeMax + 1);
    if required < dictLen {
      required := sizeMax;
    }
    var total := dictLen + if pledged < 0 then UNKNOWN_SIZE_GUESS else pledged;
    SaturationIsExact(dictLen, contribution, sizeMax, total);

    var w: int := CeilLog2(required, builtin);
    if confLog > 0 && confLog < w {
      w := confLog;
    }
    if budgetCap > 0 && budgetCap < w {
      w := budgetCap;
    }
    if w < MIN_LOG {
      w := MIN_LOG;
    }
    wlog := w;
  }

  /** Saturating instead of wrapping keeps the logarithm of the true sum. */
  lemma SaturationIsExact(dictLen: nat, contribution: nat, sizeMax: nat, total: nat)
    requires dictLen <= sizeMax && sizeMax >= 0xFFFF_FFFF && contribution <= sizeMax
    requires total == dictLen + contribution || (contribution == sizeMax && total >= dictLen + contribution)
    ensures var sum := (dictLen + contribution) % (sizeMax + 1);
            CeilLog(if sum < dictLen then sizeMax else sum) == CeilLog(total)
  {
    hide CeilLog, CeilLogFrom, Pow2;
    var sum := (dictLen + contribution) % (sizeMax + 1);
    if dictLen + contribution <= sizeMax {
      DivUnique(dictLen + contribution, sizeMax + 1, 0, dictLen + contribution);
    } else {
      DivUnique(dictLen + contribution, sizeMax + 1, 1, dictLen + contribution - (sizeMax + 1));
    }
    var required := if sum < dictLen then sizeMax else sum;
    Pow2Values();
    if required != total {
      LargeLog(required);
      LargeLog(total);
    }
  }

  lemma LargeLog(x: nat)
    requires x > 8388608
    ensures CeilLog(x) == MAX_LOG
  {
    hide CeilLog, CeilLogFrom, Pow2;
    CeilLogIs(x);
    Pow2Values();
    var w := CeilLog(x);
    if w < MAX_LOG {
      Pow2Monotone(w, 23);
    }
  }

  ghost function Total(dictLen: nat, pledged: int): nat {
    dictLen + if pledged < 0 then 1048576 else pledged
  }

  /** The window is in range and honours both ceilings, down to the floor. */
  lemma WindowHonours(dictLen: nat, pledged: int, confLog: int, budgetCap: int)
    ensures var w := Window(dictLen, pledged, confLog, budgetCap);
            && 10 <= w <= 23
            && (confLog > 0 ==> w <= confLog || w == 10)
            && (budgetCap > 0 ==> w <= budgetCap || w == 10)
            && (w == CeilLog(Total(dictLen, pledged)) || w == confLog || w == budgetCap
                || (w == 10 && (0 < confLog < 10 || 0 < budgetCap < 10)))
            && w <= CeilLog(Total(dictLen, pledged))
  {
    CeilLogIs(Total(dictLen, pledged));
    hide CeilLog, Pow2;
  }

  /** It covers the dictionary and the body, a mebibyte of it when the length is unknown, unless a ceiling or the top of
      the range forbids that; and it is no larger than that takes. */
  lemma WindowCovers(dictLen: nat, pledged: int, confLog: int, budgetCap: int)
    ensures var w := Window(dictLen, pledged, confLog, budgetCap);
            && (Total(dictLen, pledged) <= Pow2(w) || w == 23 || w == confLog || w == budgetCap
                || (w == 10 && (0 < confLog < 10 || 0 < budgetCap < 10)))
            && (w > 10 ==> Pow2(w - 1) < Total(dictLen, pledged))
  {
    var c, w := CeilLog(Total(dictLen, pledged)), Window(dictLen, pledged, confLog, budgetCap);
    CeilLogIs(Total(dictLen, pledged));
    WindowHonours(dictLen, pledged, confLog, budgetCap);
    hide CeilLog, CeilLogFrom, Pow2, Window, Total;
    if w > 10 {
      Pow2Monotone(w - 1, c - 1);
    }
  }

  lemma WindowInRange(dictLen: nat, pledged: int, confLog: int, budgetCap: int)
    ensures MIN_LOG <= Window(dictLen, pledged, confLog, budgetCap) <= MAX_LOG
  {
    hide CeilLog, CeilLogFrom, Pow2;
    CeilLogIs(dictLen + if pledged < 0 then UNKNOWN_SIZE_GUESS else pledged);
  }

  lemma WindowMonotone(dictLen: nat, a: nat, b: nat, confLog: int, budgetCap: int)
    requires CeilLog(dictLen + a) <= CeilLog(dictLen + b)
    ensures Window(dictLen, a, confLog, budgetCap) <= Window(dictLen, b, confLog, budgetCap)
  {
    hide CeilLog, CeilLogFrom, Pow2;
  }

  /** Every request's window, for any pledged length, lies in the range prepared at configuration load, whose
      ends are the windows for an empty body and for one of 2^23 bytes. */
  lemma RequestWindowIsPrepared(dictLen: nat, pledged: int, confLog: int, budgetCap: int)
    ensures Window(dictLen, 0, confLog, budgetCap)
         <= Window(dictLen, pledged, confLog, budgetCap)
         <= Window(dictLen, Pow2(MAX_LOG), confLog, budgetCap)
  {
    hide CeilLog, CeilLogFrom, Pow2;
    var body: nat := if pledged < 0 then UNKNOWN_SIZE_GUESS else pledged;
    CeilLogIs(dictLen);
    CeilLogIs(dictLen + body);
    CeilLogIs(dictLen + Pow2(MAX_LOG));
    CeilLogMonotone(dictLen, dictLen + body, CeilLog(dictLen), CeilLog(dictLen + body));
    assert CeilLog(dictLen + Pow2(MAX_LOG)) == MAX_LOG by {
      Pow2Values();
      if dictLen > 0 {
        LargeLog(dictLen + Pow2(MAX_LOG));
      } else {
        Pow2Monotone(22, 23);
        TopLog();
      }
    }
    WindowMonotone(dictLen, 0, body, confLog, budgetCap);
    WindowMonotone(dictLen, body, Pow2(MAX_LOG), confLog, budgetCap);
    assert Window(dictLen, pledged, confLog, budgetCap) == Window(dictLen, body, confLog, budgetCap);
  }

  lemma TopLog()
    ensures CeilLog(Pow2(MAX_LOG)) == MAX_LOG
  {
    hide CeilLog, CeilLogFrom, Pow2;
    CeilLogIs(Pow2(MAX_LOG));
    var w := CeilLog(Pow2(MAX_LOG));
    if w < MAX_LOG {
      Pow2Monotone(w, MAX_LOG);
    }
  }

  // ----- the budget cap -----

  /** The largest window in range whose estimate fits the budget, searched downwards; 0 when there is no budget.
      `est` is libzstd's memory estimate by window log. */
  method WindowCap(est: nat -> nat, budget: int) returns (cap: nat)
    ensures budget <= 0 ==> cap == 0
    ensures budget > 0 ==> MIN_LOG <= cap <= MAX_LOG
    ensures budget > 0 ==> forall w :: cap < w <= MAX_LOG ==> est(w) > budget
    ensures budget > 0 && cap > MIN_LOG ==> est(cap) <= budget
    ensures budget > 0 && est(MIN_LOG) <= budget ==> est(cap) <= budget
  {
    if budget <= 0 {
      return 0;
    }
    var w: int := MAX_LOG;
    while w >= MIN_LOG
      invariant MIN_LOG - 1 <= w <= MAX_LOG
      invariant forall v :: w < v <= MAX_LOG ==> est(v) > budget
    {
      if est(w) <= budget {
        break;
      }
      w := w - 1;
    }
    if w < MIN_LOG {
      w := MIN_LOG;
    }
    cap := w;
  }

  ghost predicate MonotoneEstimate(est: nat -> nat) {
    forall v, w :: v <= w ==> est(v) <= est(w)
  }

  /** Under a monotone estimate, once the configuration gate has accepted some window that is not below the
      floor, every window a dcz request can compress at fits the budget. */
  lemma EveryDczWindowFits(est: nat -> nat, budget: int, gate: nat, cap: nat,
                           dictLen: nat, pledged: int, confLog: int)
    requires MonotoneEstimate(est) && budget > 0 && gate >= MIN_LOG && est(gate) <= budget
    requires MIN_LOG <= cap <= MAX_LOG && (est(MIN_LOG) <= budget ==> est(cap) <= budget)
    ensures est(Window(dictLen, pledged, confLog, cap)) <= budget
  {
    assert est(MIN_LOG) <= est(gate);
    var w := Window(dictLen, pledged, confLog, cap);
    assert w <= cap;
    assert est(w) <= est(cap);
  }

  // ----- the dictionary cache -----

  datatype CDict = CDict(level: int, wlog: nat, size: nat)

  datatype Dict = Dict(len: nat, cdicts: seq<CDict>)

  function Sizes(cs: seq<CDict>): nat {
    if cs == [] then 0 else Sizes(cs[..|cs| - 1]) + cs[|cs| - 1].size
  }

  function Retained(ds: seq<Dict>): nat {
    if ds == [] then 0 else Retained(ds[..|ds| - 1]) + Sizes(ds[|ds| - 1].cdicts)
  }

  lemma {:induction false} RetainedUpdate(ds: seq<Dict>, i: nat, c: CDict)
    requires i < |ds|
    ensures Retained(ds[i := ds[i].(cdicts := ds[i].cdicts + [c])]) == Retained(ds) + c.size
    decreases |ds|
  {
    var d := ds[i].(cdicts := ds[i].cdicts + [c]);
    var n := |ds| - 1;
    assert (ds[i].cdicts + [c])[..|ds[i].cdicts|] == ds[i].cdicts;
    if i == n {
      assert ds[i := d][..n] == ds[..n];
    } else {
      assert ds[i := d][..n] == ds[..n][i := d];
      RetainedUpdate(ds[..n], i, c);
    }
  }

  lemma {:induction false} NothingRetained(ds: seq<Dict>)
    requires forall i :: 0 <= i < |ds| ==> ds[i].cdicts == []
    ensures Retained(ds) == 0
  {
    if ds != [] {
      NothingRetained(ds[..|ds| - 1]);
    }
  }

  ghost predicate KeysUnique(cs: seq<CDict>) {
    forall j, k :: 0 <= j < k < |cs| ==> cs[j].level != cs[k].level || cs[j].wlog != cs[k].wlog
  }

  ghost predicate CacheOk(ds: seq<Dict>) {
    && Retained(ds) <= 64 * 1048576
    && forall i :: 0 <= i < |ds| ==> KeysUnique(ds[i].cdicts)
  }

  /** The bytes retained for the dictionaries at some places, each counted once. */
  function RetainedAt(ds: seq<Dict>, places: seq<nat>): nat {
    if ds == [] then 0
    else
      var n := |ds| - 1;
      RetainedAt(ds[..n], places) + if n in places then Sizes(ds[n].cdicts) else 0
  }

  lemma {:induction false} PartRetained(ds: seq<Dict>, places: seq<nat>)
    ensures RetainedAt(ds, places) <= Retained(ds)
    ensures (forall i :: 0 <= i < |ds| ==> i in places) ==> RetainedAt(ds, places) == Retained(ds)
  {
    if ds != [] {
      PartRetained(ds[..|ds| - 1], places);
    }
  }

  /** The limit holds for the sets of any locations taken together, what they share counted once; and together, if
      every dictionary is in one of them, they come to what is retained. */
  lemma LocationsFit(ds: seq<Dict>, sets: seq<seq<nat>>)
    requires CacheOk(ds)
    ensures RetainedAt(ds, Flatten(sets)) <= 64 * 1048576
    ensures (forall i :: 0 <= i < |ds| ==> i in Flatten(sets)) ==> RetainedAt(ds, Flatten(sets)) == Retained(ds)
  {
    PartRetained(ds, Flatten(sets));
  }

  /** The prepared dictionary for exactly this level and window, if one was built; none for a request whose other
      parameters a prepared dictionary would discard. */
  method CDictLookup(d: Dict, level: int, wlog: int, longMode: bool, targetBlock: int) returns (r: Option<CDict>)
    ensures r.Some? ==> r.value in d.cdicts && r.value.level == level && r.value.wlog == wlog
    ensures r.Some? ==> !longMode && targetBlock <= 0
    ensures r.None? ==> longMode || targetBlock > 0 || forall c :: c in d.cdicts ==> c.level != level || c.wlog != wlog
  {
    if longMode || targetBlock > 0 {
      return None;
    }
    for i := 0 to |d.cdicts|
      invariant forall k :: 0 <= k < i ==> d.cdicts[k].level != level || d.cdicts[k].wlog != wlog
    {
      if d.cdicts[i].level == level && d.cdicts[i].wlog == wlog {
        return Some(d.cdicts[i]);
      }
    }
    r := None;
  }

  /** An estimate, or the measured size, that did not fit. */
  datatype Refusal = Refusal(place: nat, level: int, wlog: int, size: nat)

  /** A configuration cycle: every dictionary object of every location, each once. A location's own set is a list of
      places here; a location that inherits its set has the same places, and shares what is prepared there. */
  class Cycle {
    const sizeMax: nat        // SIZE_MAX of the build
    var dicts: seq<Dict>
    var bytes: nat            // dcz_cdict_bytes
    /** Set when a failure makes the whole configuration be discarded. */
    var rejected: bool
    /** What was left unprepared for its size, and how often libzstd or an allocation failed. */
    ghost var refused: set<Refusal>
    ghost var failures: nat

    /** The counter is exactly the bytes retained for all locations together, and never above the limit, so the
        remaining budget is a subtraction that cannot wrap. What was refused would not fit to this day. */
    ghost predicate Valid()
      reads this
    {
      && CacheOk(dicts) && bytes == Retained(dicts)
      && (forall r :: r in refused ==> bytes + r.size > 64 * 1048576)
      && sizeMax >= 0xFFFF_FFFF && forall i :: 0 <= i < |dicts| ==> dicts[i].len <= sizeMax
    }

    constructor (sizeMax: nat, lengths: seq<nat>)
      requires sizeMax >= 0xFFFF_FFFF && forall i :: 0 <= i < |lengths| ==> lengths[i] <= sizeMax
      ensures Valid() && bytes == 0 && !rejected && |dicts| == |lengths| && refused == {} && failures == 0
    {
      this.sizeMax := sizeMax;
      dicts := seq(|lengths|, i requires 0 <= i < |lengths| => Dict(lengths[i], []));
      bytes, rejected, refused, failures := 0, false, {}, 0;
      new;
      NothingRetained(dicts);
    }

    /** Prepare what one location, with the set `own`, can select: unless something fails, every window that one of its
        requests can ask for, but for those that would not fit. */
    method BuildCDicts(own: seq<nat>, enable: bool, longMode: bool, targetBlock: int, level: int, confLog: int,
                       budgetCap: int)
      requires Valid() && forall j :: 0 <= j < |own| ==> own[j] < |dicts|
      modifies this
      ensures Valid()
      ensures |dicts| == |old(dicts)|
      ensures forall i :: 0 <= i < |dicts| && i !in own ==> dicts[i] == old(dicts)[i]
      ensures forall i :: 0 <= i < |dicts| ==>
                dicts[i].len == old(dicts)[i].len && old(dicts)[i].cdicts <= dicts[i].cdicts
      ensures forall i, c :: 0 <= i < |dicts| && c in dicts[i].cdicts && c !in old(dicts)[i].cdicts ==>
                && c.level == level
                && Window(dicts[i].len, 0, confLog, budgetCap) <= c.wlog
                   <= Window(dicts[i].len, Pow2(MAX_LOG), confLog, budgetCap)
      ensures !enable || longMode || targetBlock > 0 ==> dicts == old(dicts)
      ensures old(refused) <= refused && (rejected <==> old(rejected) || failures > old(failures))
      ensures enable && !longMode && targetBlock <= 0 && failures == old(failures) ==>
                forall j :: 0 <= j < |own| ==> Complete(dicts[own[j]], refused, own[j], level, confLog, budgetCap)
    {
      if !enable || |own| == 0 {
        return;
      }
      if longMode || targetBlock > 0 {
        return;
      }
      var ok := BuildOwn(own, level, confLog, budgetCap);
      if !ok {
        rejected := true;
      }
    }

    /** The loop over the location's set; a failure ends it. */
    method BuildOwn(own: seq<nat>, level: int, confLog: int, budgetCap: int) returns (ok: bool)
      requires Valid() && forall j :: 0 <= j < |own| ==> own[j] < |dicts|
      modifies this`dicts, this`bytes, this`refused, this`failures
      ensures Valid() && |dicts| == |old(dicts)| && old(refused) <= refused
      ensures failures == old(failures) + if ok then 0 else 1
      ensures forall i :: 0 <= i < |dicts| && i !in own ==> dicts[i] == old(dicts)[i]
      ensures forall i :: 0 <= i < |dicts| ==> Extends(old(dicts)[i], dicts[i], level, confLog, budgetCap)
      ensures ok ==> forall j :: 0 <= j < |own| ==> Complete(dicts[own[j]], refused, own[j], level, confLog, budgetCap)
    {
      hide Complete, CacheOk, Retained, Window;
      ok := true;
      for j := 0 to |own|
        invariant ok && Valid() && |dicts| == |old(dicts)|
        invariant forall k :: 0 <= k < |dicts| && k !in own ==> dicts[k] == old(dicts)[k]
        invariant forall k :: 0 <= k < |dicts| ==> Extends(old(dicts)[k], dicts[k], level, confLog, budgetCap)
        invariant old(refused) <= refused && failures == old(failures)
        invariant forall k :: 0 <= k < j ==> Complete(dicts[own[k]], refused, own[k], level, confLog, budgetCap)
      {
        hide Extends;
        ghost var i, was, before := own[j], dicts, refused;
        ok := BuildFor(own[j], level, confLog, budgetCap);
        ExtendsTwice(old(dicts)[i], was[i], dicts[i], level, confLog, budgetCap);
        if !ok {
          return;
        }
        forall k | 0 <= k < j
          ensures Complete(dicts[own[k]], refused, own[k], level, confLog, budgetCap)
        {
          CompleteStays(was[own[k]], dicts[own[k]], before, refused, own[k], level, confLog, budgetCap);
        }
      }
    }

    /** There is a dictionary for this level and window, or it would not fit. */
    ghost static predicate Settled(d: Dict, refused: set<Refusal>, i: nat, level: int, wlog: int) {
      || (exists c :: c in d.cdicts && c.level == level && c.wlog == wlog)
      || (exists r :: r in refused && r.place == i && r.level == level && r.wlog == wlog)
    }

    ghost static predicate Complete(d: Dict, refused: set<Refusal>, i: nat, level: int, confLog: int, budgetCap: int) {
      forall w :: Window(d.len, 0, confLog, budgetCap) <= w <= Window(d.len, Pow2(MAX_LOG), confLog, budgetCap) ==>
        Settled(d, refused, i, level, w)
    }

    static lemma SettledStays(d: Dict, e: Dict, r: set<Refusal>, s: set<Refusal>, i: nat, level: int, wlog: int)
      requires d.cdicts <= e.cdicts && r <= s && Settled(d, r, i, level, wlog)
      ensures Settled(e, s, i, level, wlog)
    {
      if c :| c in d.cdicts && c.level == level && c.wlog == wlog {
        assert c in e.cdicts;
      }
    }

    static lemma CompleteStays(d: Dict, e: Dict, r: set<Refusal>, s: set<Refusal>, i: nat, level: int, confLog: int,
                               budgetCap: int)
      requires d.len == e.len && d.cdicts <= e.cdicts && r <= s && Complete(d, r, i, level, confLog, budgetCap)
      ensures Complete(e, s, i, level, confLog, budgetCap)
    {
      hide Window, Settled;
      forall w | Window(d.len, 0, confLog, budgetCap) <= w <= Window(d.len, Pow2(MAX_LOG), confLog, budgetCap)
        ensures Settled(e, s, i, level, w)
      {
        SettledStays(d, e, r, s, i, level, w);
      }
    }

    /** Nothing is lost, and what is new is prepared. */
    ghost static predicate Extends(d: Dict, e: Dict, level: int, confLog: int, budgetCap: int) {
      && e.len == d.len && d.cdicts <= e.cdicts
      && forall c :: c in e.cdicts && c !in d.cdicts ==> Prepared(e, c, level, confLog, budgetCap)
    }

    static lemma ExtendsTwice(d: Dict, e: Dict, f: Dict, level: int, confLog: int, budgetCap: int)
      requires Extends(d, e, level, confLog, budgetCap) && Extends(e, f, level, confLog, budgetCap)
      ensures Extends(d, f, level, confLog, budgetCap)
    {
      forall c | c in f.cdicts && c !in d.cdicts
        ensures Prepared(f, c, level, confLog, budgetCap)
      {
        if c in e.cdicts {
          assert Prepared(e, c, level, confLog, budgetCap);
        }
      }
    }

    ghost static predicate Prepared(d: Dict, c: CDict, level: int, confLog: int, budgetCap: int) {
      && c.level == level
      && Window(d.len, 0, confLog, budgetCap) <= c.wlog <= Window(d.len, Pow2(MAX_LOG), confLog, budgetCap)
    }

    method BuildFor(i: nat, level: int, confLog: int, budgetCap: int) returns (ok: bool)
      requires Valid() && i < |dicts|
      modifies this`dicts, this`bytes, this`refused, this`failures
      ensures Valid() && |dicts| == |old(dicts)|
      ensures forall k :: 0 <= k < |dicts| && k != i ==> dicts[k] == old(dicts)[k]
      ensures dicts[i].len == old(dicts)[i].len && old(dicts)[i].cdicts <= dicts[i].cdicts
      ensures Extends(old(dicts)[i], dicts[i], level, confLog, budgetCap)
      ensures old(refused) <= refused && failures == old(failures) + if ok then 0 else 1
      ensures ok ==> Complete(dicts[i], refused, i, level, confLog, budgetCap)
    {
      var len := dicts[i].len;
      var minLog := DczWindowLog(len, 0, confLog, budgetCap, sizeMax, true);
      var maxLog := DczWindowLog(len, 8388608, confLog, budgetCap, sizeMax, true);
      Pow2Values();
      RequestWindowIsPrepared(len, 0, confLog, budgetCap);
      var wlog := minLog;
      ok := true;
      while ok && wlog <= maxLog
        invariant minLog <= wlog <= maxLog + 1
        invariant Valid() && |dicts| == |old(dicts)|
        invariant forall k :: 0 <= k < |dicts| && k != i ==> dicts[k] == old(dicts)[k]
        invariant dicts[i].len == len && old(dicts)[i].cdicts <= dicts[i].cdicts
        invariant forall c :: c in dicts[i].cdicts && c !in old(dicts)[i].cdicts ==>
                    c.level == level && minLog <= c.wlog <= maxLog
        invariant old(refused) <= refused && failures == old(failures) + if ok then 0 else 1
        invariant ok ==> forall w :: minLog <= w < wlog ==> Settled(dicts[i], refused, i, level, w)
      {
        hide Settled;
        ghost var was, before := dicts[i], refused;
        ghost var added;
        ok, added := BuildOne(i, level, wlog);
        forall w | minLog <= w < wlog
          ensures Settled(dicts[i], refused, i, level, w)
        {
          SettledStays(was, dicts[i], before, refused, i, level, w);
        }
        wlog := wlog + 1;
      }
    }

    /** ZSTD_createCDict_advanced and then its measured size; only what is estimated to fit may be asked for. */
    method CreateCDict(estimated: nat) returns (size: Option<nat>)
      requires bytes + estimated <= 64 * 1048576
      modifies this`failures
      ensures failures == old(failures) + if size.Some? then 0 else 1
    {
      var fails: bool := *;
      if fails {
        failures := failures + 1;
        return None;
      }
      var n: nat := *;
      size := Some(n);
    }

    /** A cleanup for it and a place in the array. */
    method Register() returns (ok: bool)
      modifies this`failures
      ensures failures == old(failures) + if ok then 0 else 1
    {
      ok := *;
      if !ok {
        failures := failures + 1;
      }
    }

    /** Prepare one profile, unless it is there already or would exceed the limit. libzstd's estimate and the
        measured size are arbitrary; creation and registration may fail. */
    method BuildOne(i: nat, level: int, wlog: nat) returns (ok: bool, ghost added: Option<nat>)
      requires Valid() && i < |dicts|
      modifies this`dicts, this`bytes, this`refused, this`failures
      ensures Valid()
      ensures |dicts| == |old(dicts)|
      ensures old(refused) <= refused && failures == old(failures) + if ok then 0 else 1
      ensures ok ==> Settled(dicts[i], refused, i, level, wlog)
      ensures added.None? ==> dicts == old(dicts)
      ensures added.Some? ==>
                dicts == old(dicts)[i := old(dicts)[i].(cdicts := old(dicts)[i].cdicts + [CDict(level, wlog, added.value)])]
    {
      added := None;
      var found := CDictLookup(dicts[i], level, wlog, false, 0);
      if found.Some? {
        return true, added;
      }
      var estimated: nat := *;
      if estimated > CACHE_BYTES - bytes {
        refused := refused + {Refusal(i, level, wlog, estimated)};
        return true, added;
      }
      var created := CreateCDict(estimated);
      if created == None {
        return false, added;
      }
      var size := created.value;
      if size > CACHE_BYTES - bytes {
        refused := refused + {Refusal(i, level, wlog, size)};
        return true, added;
      }
      var registered := Register();
      if !registered {
        return false, added;
      }
      RetainedUpdate(dicts, i, CDict(level, wlog, size));
      dicts := dicts[i := dicts[i].(cdicts := dicts[i].cdicts + [CDict(level, wlog, size)])];
      bytes := bytes + size;
      ok, added := true, Some(size);
      assert dicts[i].cdicts[|dicts[i].cdicts| - 1] == CDict(level, wlog, size);
    }
  }
}
