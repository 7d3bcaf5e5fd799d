/** The worker's ring of probe verdicts for static .zst files, keyed on the identity of the opened file. */
module VerdictCache {
  import opened Basics
  import opened FrameProbe
  import opened StaticProbe
  import opened StaticRead

  const SLOTS: nat := 64
  const MAX_PATH: nat := 4096

  datatype Verdict = Unknown | Bad | Good

  datatype Identity = Identity(path: seq<byte>, uniq: nat, mtime: int, size: int)

  datatype Entry = Entry(id: Identity, checked: int, verdict: Verdict)

  /** A verdict that a probe of `id` produced at time `time`, from the bytes the file had then, read directly or not. */
  datatype Probed = Probed(id: Identity, verdict: Verdict, time: int, file: seq<byte>, direct: bool)

  /** What a verdict is worth: GOOD means servable, and BAD, unless the file was read directly, that it is not. */
  ghost predicate Honest(p: Probed) {
    && (p.verdict == Good ==> Servable(p.file, 0, MAX_SKIP_FRAMES))
    && (p.verdict == Bad && !p.direct ==> !Servable(p.file, 0, MAX_SKIP_FRAMES))
  }

  predicate Young(checked: int, now: int, goodValid: int) {
    goodValid != 0 && checked <= now && now - checked < goodValid
  }

  /** Some recorded probe of the identity came to that verdict, and a GOOD one is young enough. */
  ghost predicate Justifies(p: Probed, recorded: set<Probed>, id: Identity, v: Verdict, now: int, goodValid: int) {
    p in recorded && p.id == id && p.verdict == v && (v == Good ==> Young(p.time, now, goodValid))
  }

  ghost predicate Backed(recorded: set<Probed>, e: Entry) {
    exists p :: p in recorded && p.id == e.id && p.verdict == e.verdict && p.time == e.checked
  }

  lemma StillBacked(less: set<Probed>, more: set<Probed>, e: Entry)
    requires less <= more && Backed(less, e)
    ensures Backed(more, e)
  {
  }

  predicate Stale(e: Entry, now: int, goodValid: int) {
    e.verdict == Good && (goodValid == 0 || now < e.checked || now - e.checked >= goodValid)
  }

  ghost predicate LiveAt(s: seq<Entry>, i: int, id: Identity) {
    0 <= i < |s| && s[i].verdict != Unknown && s[i].id == id
  }

  /** Is there a live entry for `id`? */
  ghost predicate LiveIn(s: seq<Entry>, id: Identity) {
    exists i :: LiveAt(s, i, id)
  }

  /** An identity has at most one live entry. */
  ghost predicate Unique(s: seq<Entry>) {
    forall i, j, id :: LiveAt(s, i, id) && LiveAt(s, j, id) ==> i == j
  }

  /** Replacing entries by dead ones, or one entry by a live one of an identity not live before. */
  lemma RetireKeepsUnique(s: seq<Entry>, t: seq<Entry>)
    requires |s| == |t| && Unique(s)
    requires forall i :: 0 <= i < |s| ==> t[i] == s[i] || t[i].verdict == Unknown
    ensures Unique(t)
  {
    forall i, j, id | LiveAt(t, i, id) && LiveAt(t, j, id)
      ensures i == j
    {
      assert LiveAt(s, i, id) && LiveAt(s, j, id);
    }
  }

  lemma RecordKeepsUnique(s: seq<Entry>, k: nat, e: Entry)
    requires k < |s| && Unique(s) && !LiveIn(s, e.id)
    ensures Unique(s[k := e])
    ensures e.verdict != Unknown ==> LiveIn(s[k := e], e.id)
  {
    var t := s[k := e];
    forall i, j, id | LiveAt(t, i, id) && LiveAt(t, j, id)
      ensures i == j
    {
      assert i != k ==> LiveAt(s, i, id);
      assert j != k ==> LiveAt(s, j, id);
    }
    if e.verdict != Unknown {
      assert LiveAt(t, k, e.id);
    }
  }

  class Cache {
    const slots: array<Entry>
    var count: nat
    var next: nat
    /** Every verdict ever recorded. */
    ghost var recorded: set<Probed>

    ghost predicate Live(id: Identity)
      reads slots
    {
      LiveIn(slots[..], id)
    }

    /** While the ring is filling, the cursor is the count and everything after it is empty; an identity has at
        most one live entry; every live entry is what some probe of that identity reported; and what was reported is
        true of the file as it was. */
    ghost predicate Valid()
      reads this, slots
    {
      && slots.Length == SLOTS && count <= SLOTS && next < SLOTS
      && (count < SLOTS ==> next == count)
      && (forall i :: count <= i < SLOTS ==> slots[i].verdict == Unknown)
      && Unique(slots[..])
      && (forall i :: 0 <= i < SLOTS && slots[i].verdict != Unknown ==>
            |slots[i].id.path| < MAX_PATH && Backed(recorded, slots[i]))
      && (forall p :: p in recorded ==> Honest(p))
    }

    constructor ()
      ensures Valid() && recorded == {} && fresh(slots)
      ensures forall id :: !Live(id)
    {
      slots := new Entry[SLOTS](_ => Entry(Identity([], 0, 0, 0), 0, Unknown));
      count, next, recorded := 0, 0, {};
    }

    /** The cached verdict of this exact file, or Unknown when a probe must run. A stale GOOD entry is retired on
        the way, so that it cannot mask the fresh verdict recorded later. */
    method Lookup(id: Identity, now: int, goodValid: int) returns (v: Verdict, ghost probe: Option<Probed>)
      requires Valid()
      modifies slots
      ensures Valid()
      ensures v != Unknown <==> Live(id)
      ensures v != Unknown ==> probe.Some? && Justifies(probe.value, recorded, id, v, now, goodValid)
      // a BAD verdict, right or wrong, answers at any later time
      ensures |id.path| < 4096 && (exists i :: 0 <= i < 64 && old(slots[i]).id == id && old(slots[i]).verdict == Bad) ==>
                v == Bad
      // and a GOOD one for as long as it is valid
      ensures |id.path| < 4096
              && (exists i :: 0 <= i < 64 && old(slots[i]).id == id && old(slots[i]).verdict == Good
                              && old(slots[i]).checked <= now < old(slots[i]).checked + goodValid) ==>
                v == Good
      ensures forall i :: 0 <= i < SLOTS ==>
                slots[i] == old(slots[i])
                || (old(slots[i]).id == id && Stale(old(slots[i]), now, goodValid)
                    && slots[i] == old(slots[i]).(verdict := Unknown))
    {
      probe := None;
      if |id.path| >= MAX_PATH {
        return Unknown, probe;
      }
      if count == 0 {
        return Unknown, probe;
      }
      hide Honest;
      ghost var s := slots[..];
      for i := 0 to count
        invariant Valid()
        invariant forall j :: 0 <= j < i ==> slots[j].verdict == Unknown || slots[j].id != id
        invariant forall j :: i <= j < SLOTS ==> slots[j] == s[j]
        invariant forall j :: 0 <= j < i ==>
                    slots[j] == s[j]
                    || (s[j].id == id && Stale(s[j], now, goodValid) && slots[j] == s[j].(verdict := Unknown))
      {
        var e := slots[i];
        if e.verdict != Unknown && e.id == id {
          if Stale(e, now, goodValid) {
            slots[i] := e.(verdict := Unknown);
            RetireKeepsUnique(s, slots[..]);
            continue;
          }
          assert Backed(recorded, e);
          ghost var p :| p in recorded && p.id == id && p.verdict == e.verdict && p.time == e.checked;
          assert LiveAt(slots[..], i, id);
          assert LiveAt(s, i, id);
          assert forall j :: 0 <= j < SLOTS && s[j].id == id && s[j].verdict != Unknown ==> LiveAt(s, j, id);
          return e.verdict, Some(p);
        }
      }
      v := Unknown;
      forall j
        ensures !LiveAt(slots[..], j, id)
      {
        if count <= j < SLOTS {
          assert slots[j].verdict == Unknown;
        }
      }
    }

    /** Record a fresh verdict at the round-robin cursor, evicting what stands there. `file` and `direct` say what was
        probed. */
    method Remember(id: Identity, verdict: Verdict, now: int, goodValid: int, ghost file: seq<byte>, ghost direct: bool)
      requires Valid() && verdict != Unknown && Honest(Probed(id, verdict, now, file, direct))
      requires !Live(id)
      modifies this, slots
      ensures Valid()
      ensures recorded == old(recorded) + {Probed(id, verdict, now, file, direct)}
      ensures slots.Length == 64 && (Live(id) <==> |id.path| < 4096 && (verdict == Good ==> goodValid != 0))
      ensures forall i :: 0 <= i < SLOTS && i != old(next) ==> slots[i] == old(slots[i])
      // what is recorded takes the place of the oldest slot, and the cursor goes round
      ensures if Live(id) then slots[old(next)] == Entry(id, now, verdict) && next == (old(next) + 1) % 64
              else slots[old(next)] == old(slots[next]) && next == old(next)
    {
      hide Honest;
      ghost var p := Probed(id, verdict, now, file, direct);
      recorded := recorded + {p};
      forall i | 0 <= i < SLOTS && slots[i].verdict != Unknown
        ensures Backed(recorded, slots[i])
      {
        StillBacked(old(recorded), recorded, slots[i]);
      }
      if |id.path| >= MAX_PATH || (verdict == Good && goodValid == 0) {
        return;
      }
      var e := slots[next];
      if e.verdict == Unknown {
        if count < SLOTS {
          count := count + 1;
        }
      }
      ghost var s := slots[..];
      RecordKeepsUnique(s, next, Entry(id, now, verdict));
      assert p in recorded && Backed(recorded, Entry(id, now, verdict));
      slots[next] := Entry(id, now, verdict);
      assert slots[..] == s[next := Entry(id, now, verdict)];
      next := next + 1;
      if next == SLOTS {
        next := 0;
      }
    }

    /** One request for an opened file: the cached verdict, or else the probe's, which is then recorded. `probe` is the
        probe that decided: what is served, from the cache or not, was servable when it was probed, and what is declined
        as malformed was not, unless it was read directly. */
    method Decide(fs: FileSystem, id: Identity, directio: bool, alignment: nat, scratch: Scratch, now: int, goodValid: int)
      returns (rc: ProbeRc, ghost probe: Option<Probed>, ghost turns: seq<Turn>)
      requires Valid() && scratch.Valid()
      modifies this, slots, fs, scratch, if scratch.buf != null then {scratch.buf} else {}
      ensures Valid() && scratch.Valid() && scratch.busy == old(scratch.busy)
      ensures recorded == old(recorded) || (probe.Some? && recorded == old(recorded) + {probe.value})
      ensures probe == None ==> rc != Serve
      // a request goes without a verdict only when the probe could not be made
      ensures probe == None && rc == Decline ==>
                turns != [] && turns[|turns| - 1].Read? && Failed in turns[|turns| - 1].answers
      // and with one it leaves it in the ring, as far as the ring takes it
      ensures probe.Some? && |id.path| < 4096 && (probe.value.verdict == Good ==> goodValid != 0) ==> Live(id)
      ensures probe.Some? ==> var p := probe.value;
                && Honest(p) && p.id == id && p.verdict != Unknown && rc == (if p.verdict == Good then Serve else Decline)
                && (|| p == Probed(id, p.verdict, now, fs.file, directio)
                    || Justifies(p, old(recorded), id, p.verdict, now, goodValid))
    {
      hide Honest;
      var v;
      turns := [];
      v, probe := Lookup(id, now, goodValid);
      if v != Unknown {
        return if v == Good then Serve else Decline, probe, turns;
      }
      probe := None;
      var malformed;
      ghost var align;
      rc, malformed, align, turns := ProbeFile(fs, directio, alignment, scratch);
      if rc == Serve || malformed {
        v := if rc == Serve then Good else Bad;
        probe := Some(Probed(id, v, now, fs.file, directio));
        ProbeIsHonest(probe.value, rc);
        Remember(id, v, now, goodValid, fs.file, directio);
      }
    }
  }

  lemma ProbeIsHonest(p: Probed, rc: ProbeRc)
    requires p.verdict == if rc == Serve then Good else Bad
    requires rc == Serve ==> Servable(p.file, 0, MAX_SKIP_FRAMES)
    requires rc != Serve && !p.direct ==> !Servable(p.file, 0, MAX_SKIP_FRAMES)
    ensures Honest(p)
  {
  }
}
