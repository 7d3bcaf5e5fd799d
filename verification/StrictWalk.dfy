/**
 The strict open of a dictionary: one path component at a time, every directory vetted before it is used.

 The kernel here answers anything it likes and may change its mind between two calls; what is proved is read off
 its log: which descriptors were opened from which, under which names, and what had been vetted before. The last
 part says what such a log means for a directory tree that holds still.
 */
module StrictWalk {
  import opened Basics

  const MAX_PATH: nat := 4096
  const NUL: char := '\0'

  // ----- paths -----

  function SkipSlashes(t: string): (r: string)
    ensures |r| <= |t| && (r != "" ==> r[0] != '/')
  {
    if t != "" && t[0] == '/' then SkipSlashes(t[1..]) else t
  }

  /** Length of the component at the front of `t`. */
  function Run(t: string): (k: nat)
    ensures k <= |t| && (k < |t| ==> t[k] == '/') && forall i :: 0 <= i < k ==> t[i] != '/'
  {
    if t == "" || t[0] == '/' then 0 else 1 + Run(t[1..])
  }

  /** The '/'-separated parts of a path. */
  function Parts(t: string): seq<string>
    decreases |t|
  {
    var s := SkipSlashes(t);
    if s == "" then [] else assert Run(s) > 0; [s[..Run(s)]] + Parts(s[Run(s)..])
  }

  /** What the parts are, for every string: runs of '/' separate them, wherever they stand. */
  lemma PartsAre(slashes: string, name: string, rest: string)
    requires (forall i :: 0 <= i < |slashes| ==> slashes[i] == '/') && '/' !in name && (rest == "" || rest[0] == '/')
    ensures Parts(slashes + name + rest) == (if name == "" then [] else [name]) + Parts(rest)
  {
    var t := name + rest;
    assert slashes + name + rest == slashes + t;
    SlashesOver(slashes, t);
    if name != "" {
      RunUnique(t, |name|);
      assert t[..|name|] == name && t[|name|..] == rest;
      assert SkipSlashes(t) == t;
    } else {
      assert t == rest;
    }
  }

  lemma RunUnique(t: string, k: nat)
    requires k <= |t| && (k < |t| ==> t[k] == '/') && forall i :: 0 <= i < k ==> t[i] != '/'
    ensures Run(t) == k
  {
    var r := Run(t);
    assert r < |t| ==> t[r] == '/';
  }

  lemma {:induction false} SlashesOver(slashes: string, t: string)
    requires forall i :: 0 <= i < |slashes| ==> slashes[i] == '/'
    ensures SkipSlashes(slashes + t) == SkipSlashes(t)
  {
    if slashes == "" {
      assert slashes + t == t;
    } else {
      assert (slashes + t)[1..] == slashes[1..] + t;
      SlashesOver(slashes[1..], t);
    }
  }

  /** What a system call sees of a buffer: it stops at the first NUL. */
  function CStr(s: string): (c: string)
    ensures |c| <= |s| && c == s[..|c|] && NUL !in c && (|c| < |s| ==> s[|c|] == NUL)
  {
    if s == "" || s[0] == NUL then "" else [s[0]] + CStr(s[1..])
  }

  predicate IsDot(name: string) {
    name == "." || name == ".."
  }

  // ----- the kernel -----

  datatype Stat = Stat(uid: nat, mode: nat)

  /** Owned by root or by the loader, and writable by neither group (020) nor other (002). */
  predicate Trusted(st: Stat, euid: nat) {
    (st.uid == 0 || st.uid == euid) && (st.mode / 16) % 2 == 0 && (st.mode / 2) % 2 == 0
  }

  /** In the digits of the mode, with `high` for everything above the group's: the group's and the others' digit lack
      the write bit, which is in 2, 3, 6 and 7. */
  lemma TrustedMode(uid: nat, high: nat, group: nat, other: nat, euid: nat)
    requires group < 8 && other < 8
    ensures Trusted(Stat(uid, 64 * high + 8 * group + other), euid) <==>
              (uid == 0 || uid == euid) && group !in {2, 3, 6, 7} && other !in {2, 3, 6, 7}
  {
    var mode := 64 * high + 8 * group + other;
    DivUnique(mode, 16, 4 * high + group / 2, 8 * (group % 2) + other);
    DivUnique(mode, 2, 32 * high + 4 * group + other / 2, other % 2);
    WriteBit(2 * high, group);
    WriteBit(16 * high + 2 * group, other);
  }

  /** The bit of weight 2 in an octal digit. */
  lemma WriteBit(above: nat, digit: nat)
    requires digit < 8
    ensures (2 * above + digit / 2) % 2 == 0 <==> digit !in {2, 3, 6, 7}
  {
  }

  /** `name` was opened relative to `base`, as the leaf or else as a directory, never through a symbolic link. */
  datatype Event =
    | Root(fd: nat)
    | Opened(base: nat, name: string, leaf: bool, fd: nat)
    | Statted(dir: nat, st: Stat)
    | Closed(gone: nat)

  /** The file system may answer anything, and may change between calls. Descriptors are numbered in order of
      creation; closing one that is not open would break a precondition. */
  class Kernel {
    const euid: nat
    var next: nat
    ghost var live: set<nat>
    ghost var log: seq<Event>

    ghost predicate Valid()
      reads this
    {
      forall fd :: fd in live ==> fd < next
    }

    constructor (euid: nat)
      ensures Valid() && this.euid == euid && live == {} && log == []
    {
      this.euid, next, live, log := euid, 0, {}, [];
    }

    method OpenRoot() returns (fd: Option<nat>)
      requires Valid()
      modifies this
      ensures Valid() && old(next) <= next
      ensures fd == None ==> live == old(live) && log == old(log)
      ensures fd.Some? ==> old(next) <= fd.value < next && fd.value !in old(live)
                           && live == old(live) + {fd.value} && log == old(log) + [Root(fd.value)]
    {
      fd := None;
      if * {
        fd := Some(next);
        live, log, next := live + {next}, log + [Root(next)], next + 1;
      }
    }

    method OpenAt(base: nat, name: string, leaf: bool) returns (fd: Option<nat>)
      requires Valid() && base in live && NUL !in name
      modifies this
      ensures Valid() && old(next) <= next
      ensures fd == None ==> live == old(live) && log == old(log)
      ensures fd.Some? ==> old(next) <= fd.value < next && fd.value !in old(live) && name != ""
                           && live == old(live) + {fd.value}
                           && log == old(log) + [Opened(base, name, leaf, fd.value)]
    {
      fd := None;
      if name != "" {
        if * {
          fd := Some(next);
          live, log, next := live + {next}, log + [Opened(base, name, leaf, next)], next + 1;
        }
      }
    }

    method Fstat(fd: nat) returns (st: Option<Stat>)
      requires Valid() && fd in live
      modifies this`log
      ensures Valid()
      ensures st == None ==> log == old(log)
      ensures st.Some? ==> log == old(log) + [Statted(fd, st.value)]
    {
      st := *;
      if st.Some? {
        log := log + [Statted(fd, st.value)];
      }
    }

    method Close(fd: nat)
      requires Valid() && fd in live
      modifies this`live, this`log
      ensures Valid() && live == old(live) - {fd} && log == old(log) + [Closed(fd)]
    {
      live := live - {fd};
      log := log + [Closed(fd)];
    }
  }

  // ----- the report -----

  datatype WalkRc =
    | Ok | Relative | OpenRootFailed | Directory | ComponentLong | Dot | OpenAtFailed | DirFstat | DirOwner | DirWritable

  datatype Walk = Walk(rc: WalkRc, uid: nat, component: string)

  // ----- properties of the log -----

  ghost predicate VettedIn(log: seq<Event>, fd: nat, euid: nat) {
    exists k :: 0 <= k < |log| && log[k].Statted? && log[k].dir == fd && Trusted(log[k].st, euid)
  }

  /** Every directory was vetted before anything was opened relative to it. */
  ghost predicate VettedFirst(log: seq<Event>, euid: nat) {
    forall k :: 0 <= k < |log| && log[k].Opened? ==> VettedIn(log[..k], log[k].base, euid)
  }

  /** The names opened, in order. */
  function Names(log: seq<Event>): seq<string> {
    if log == [] then []
    else Names(log[..|log| - 1]) + (if log[|log| - 1].Opened? then [log[|log| - 1].name] else [])
  }

  /** The descriptor a chain of opens has reached: each open starts where the last one ended. */
  ghost predicate Reaches(log: seq<Event>, fd: nat) {
    if log == [] then false
    else
      var last := log[|log| - 1];
      match last
      case Root(r) => fd == r && forall k :: 0 <= k < |log| - 1 ==> !log[k].Root? && !log[k].Opened?
      case Opened(base, _, _, r) => fd == r && Reaches(log[..|log| - 1], base)
      case _ => Reaches(log[..|log| - 1], fd)
  }

  /** Only the last open may be of a leaf. */
  ghost predicate DirectoriesSoFar(log: seq<Event>) {
    forall k :: 0 <= k < |log| && log[k].Opened? ==> !log[k].leaf
  }

  /** A chain of vetted opens, from the root to `fd`, of the components `names`. */
  ghost predicate Chain(log: seq<Event>, fd: nat, names: seq<string>, euid: nat) {
    Reaches(log, fd) && Names(log) == names && VettedFirst(log, euid)
  }

  lemma AddOpened(log: seq<Event>, base: nat, name: string, leaf: bool, fd: nat, names: seq<string>, euid: nat)
    requires Chain(log, base, names, euid) && VettedIn(log, base, euid)
    ensures Chain(log + [Opened(base, name, leaf, fd)], fd, names + [name], euid)
  {
    var l := log + [Opened(base, name, leaf, fd)];
    assert l[..|log|] == log;
    forall k | 0 <= k < |l| && l[k].Opened?
      ensures VettedIn(l[..k], l[k].base, euid)
    {
      if k < |log| {
        assert l[..k] == log[..k];
      }
    }
  }

  lemma AddOther(log: seq<Event>, e: Event, fd: nat, names: seq<string>, euid: nat)
    requires Chain(log, fd, names, euid) && (e.Statted? || e.Closed?)
    ensures Chain(log + [e], fd, names, euid)
    ensures e.Statted? && e.dir == fd && Trusted(e.st, euid) ==> VettedIn(log + [e], fd, euid)
    ensures VettedIn(log, fd, euid) ==> VettedIn(log + [e], fd, euid)
  {
    var l := log + [e];
    assert l[..|log|] == log;
    forall k | 0 <= k < |l| && l[k].Opened?
      ensures VettedIn(l[..k], l[k].base, euid)
    {
      assert l[..k] == log[..k];
    }
    assert l[|log|] == e;
    if VettedIn(log, fd, euid) {
      var k :| 0 <= k < |log| && log[k].Statted? && log[k].dir == fd && Trusted(log[k].st, euid);
      assert l[k] == log[k];
    }
  }

  // ----- the walk -----

  /** One component: what it is, whether it is the leaf, and where the next one starts. A refusal before the component
      is copied leaves the one of the directory walked last, `parent`, in the report. */
  method NextComponent(path: string, start: nat, parent: string)
    returns (rc: WalkRc, component: string, last: bool, next: nat)
    requires start <= |path|
    ensures rc == Ok ==> start < next <= |path| && last == (next == |path|)
                         && Parts(path[start..]) != []
                         && component == CStr(Parts(path[start..])[0]) && component != "." && component != ".."
                         && |Parts(path[start..])[0]| < 4096
                         && Parts(path[start..])[1..] == Parts(path[next..]) && (last <==> Parts(path[next..]) == [])
                         && (last ==> path[|path| - 1] != '/')
    ensures rc in {Ok, Directory, ComponentLong, Dot}
    ensures rc == Directory <==> Parts(path[start..]) == []
                                 || (|Parts(path[start..])| == 1 && path[|path| - 1] == '/'
                                     && |Parts(path[start..])[0]| < MAX_PATH && !IsDot(CStr(Parts(path[start..])[0])))
    ensures rc == ComponentLong <==> Parts(path[start..]) != [] && |Parts(path[start..])[0]| >= 4096
    ensures component == if Parts(path[start..]) == [] || rc == ComponentLong then parent else CStr(Parts(path[start..])[0])
    ensures rc == Dot <==> Parts(path[start..]) != [] && |Parts(path[start..])[0]| < MAX_PATH
                           && CStr(Parts(path[start..])[0]) in {".", ".."}
  {
    component, last, next := parent, false, start;
    var s := SkipSlashesAt(path, start);
    if s >= |path| {
      return Directory, component, last, next;
    }
    var p := RunAt(path, s);
    PartsAt(path, start, s, p);
    if p - s >= MAX_PATH {
      return ComponentLong, component, last, next;
    }
    component := CStr(path[s..p]);
    if IsDot(component) {
      return Dot, component, last, next;
    }
    var q := SkipSlashesAt(path, p);
    if p < |path| && q == |path| {
      TrailingSlash(path, p);
      return Directory, component, last, next;
    }
    rc, last, next := Ok, p == |path|, p;
  }

  method SkipSlashesAt(path: string, p: nat) returns (q: nat)
    requires p <= |path|
    ensures p <= q <= |path| && path[q..] == SkipSlashes(path[p..]) && (q < |path| ==> path[q] != '/')
    ensures forall i :: p <= i < q ==> path[i] == '/'
  {
    q := p;
    while q < |path| && path[q] == '/'
      invariant p <= q <= |path| && SkipSlashes(path[q..]) == SkipSlashes(path[p..])
      invariant forall i :: p <= i < q ==> path[i] == '/'
    {
      assert path[q..][1..] == path[q + 1..];
      q := q + 1;
    }
  }

  method RunAt(path: string, s: nat) returns (p: nat)
    requires s < |path| && path[s] != '/'
    ensures s < p <= |path| && (p < |path| ==> path[p] == '/') && p - s == Run(path[s..])
  {
    p := s;
    while p < |path| && path[p] != '/'
      invariant s <= p <= |path| && forall i :: s <= i < p ==> path[i] != '/'
    {
      p := p + 1;
    }
  }

  lemma PartsAt(path: string, start: nat, s: nat, p: nat)
    requires start <= s < p <= |path| && path[s..] == SkipSlashes(path[start..]) && p - s == Run(path[s..])
    ensures Parts(path[start..]) == [path[s..p]] + Parts(path[p..])
  {
    assert path[s..][..p - s] == path[s..p];
    assert path[s..][p - s..] == path[p..];
  }

  lemma TrailingSlash(path: string, p: nat)
    requires p < |path| && SkipSlashes(path[p..]) == ""
    ensures path[|path| - 1] == '/'
  {
    AllSlashes(path[p..]);
  }

  lemma {:induction false} AllSlashes(t: string)
    requires SkipSlashes(t) == ""
    ensures forall i :: 0 <= i < |t| ==> t[i] == '/'
  {
    if t != "" {
      AllSlashes(t[1..]);
      assert forall i :: 1 <= i < |t| ==> t[i] == t[1..][i - 1];
    }
  }

  /** Vet one directory. */
  method CheckDir(k: Kernel, fd: nat, walk: Walk) returns (r: Walk)
    requires k.Valid() && fd in k.live
    modifies k`log
    ensures k.Valid() && r.component == walk.component && r.rc in {Ok, DirFstat, DirOwner, DirWritable}
    ensures r.rc == DirFstat ==> k.log == old(k.log)
    ensures r.rc != DirFstat ==>
              exists st :: k.log == old(k.log) + [Statted(fd, st)] && (r.rc == Ok <==> Trusted(st, k.euid))
                           && (r.rc == DirOwner <==> st.uid != 0 && st.uid != k.euid)
                           && (r.rc == DirOwner ==> r.uid == st.uid)
  {
    var st := k.Fstat(fd);
    match st
    case None =>
      r := walk.(rc := DirFstat);
    case Some(st) =>
      if st.uid != 0 && st.uid != k.euid {
        r := walk.(rc := DirOwner, uid := st.uid);
      } else if (st.mode / 16) % 2 == 1 || (st.mode / 2) % 2 == 1 {
        r := walk.(rc := DirWritable);
      } else {
        r := walk.(rc := Ok);
      }
      assert k.log == old(k.log) + [Statted(fd, st)];
  }

  predicate Good(part: string) {
    |part| < MAX_PATH && !IsDot(CStr(part))
  }

  /** The paths the walk takes on: absolute, with a leaf, and no part that is too long, "." or "..". */
  ghost predicate Walkable(path: string) {
    && path != "" && path[0] == '/' && path[|path| - 1] != '/' && Parts(path) != []
    && forall i :: 0 <= i < |Parts(path)| ==> Good(Parts(path)[i])
  }

  function CStrs(parts: seq<string>): (r: seq<string>)
    ensures |r| == |parts|
  {
    if parts == [] then [] else CStrs(parts[..|parts| - 1]) + [CStr(parts[|parts| - 1])]
  }

  /** The walk's place: `fd` was reached by opening `done`, vetted, and nothing else has been left open. */
  ghost predicate At(k: Kernel, fd: nat, done: seq<string>, before: set<nat>)
    reads k
  {
    && k.Valid() && fd !in before && k.live == before + {fd}
    && Chain(k.log, fd, CStrs(done), k.euid) && DirectoriesSoFar(k.log)
  }

  lemma ClosingKeeps(log: seq<Event>, gone: nat, fd: nat, names: seq<string>, euid: nat)
    requires Chain(log, fd, names, euid)
    ensures Chain(log + [Closed(gone)], fd, names, euid)
    ensures DirectoriesSoFar(log) ==> DirectoriesSoFar(log + [Closed(gone)])
  {
    AddOther(log, Closed(gone), fd, names, euid);
  }

  lemma ChainNames(log: seq<Event>, fd: nat, names: seq<string>, euid: nat)
    requires Chain(log, fd, names, euid)
    ensures Names(log) == names
  {
  }

  /** Open the next component from a vetted directory, and let go of that directory. */
  method Descend(k: Kernel, fd: nat, name: string, ghost part: string, last: bool, ghost done: seq<string>, ghost before: set<nat>)
    returns (next: Option<nat>)
    requires At(k, fd, done, before) && VettedIn(k.log, fd, k.euid) && name == CStr(part)
    modifies k
    ensures k.Valid()
    ensures next == None ==> k.live == before && Names(k.log) == CStrs(done)
    ensures next.Some? ==> next.value !in before && k.live == before + {next.value}
                           && Chain(k.log, next.value, CStrs(done + [part]), k.euid)
                           && (!last ==> DirectoriesSoFar(k.log))
                           && k.log == old(k.log) + [Opened(fd, CStr(part), last, next.value), Closed(fd)]
  {
    hide Chain, VettedIn;
    next := k.OpenAt(fd, name, last);
    if next == None {
      k.Close(fd);
      ClosingKeeps(old(k.log), fd, fd, CStrs(done), k.euid);
      ChainNames(k.log, fd, CStrs(done), k.euid);
      return;
    }
    AddOpened(old(k.log), fd, CStr(part), last, next.value, CStrs(done), k.euid);
    ClosingKeeps(k.log, fd, next.value, CStrs(done + [part]), k.euid);
    k.Close(fd);
    assert k.log == old(k.log) + [Opened(fd, CStr(part), last, next.value), Closed(fd)];
  }

  /** Vet the directory just opened; when it fails, let go of it. */
  method Vet(k: Kernel, fd: nat, walk: Walk, ghost done: seq<string>, ghost before: set<nat>) returns (r: Walk)
    requires At(k, fd, done, before)
    modifies k
    ensures k.Valid() && r.component == walk.component && r.rc in {Ok, DirFstat, DirOwner, DirWritable}
    ensures r.rc == Ok ==> At(k, fd, done, before) && VettedIn(k.log, fd, k.euid)
    ensures r.rc != Ok ==> k.live == before
    ensures Names(k.log) == CStrs(done)
    ensures r.rc == DirOwner || r.rc == DirWritable ==> Distrusted(k.log, k.euid)
  {
    hide Chain, VettedIn, Names;
    r := CheckDir(k, fd, walk);
    if r.rc == Ok {
      ghost var st :| k.log == old(k.log) + [Statted(fd, st)] && Trusted(st, k.euid);
      AddOther(old(k.log), Statted(fd, st), fd, CStrs(done), k.euid);
    } else {
      k.Close(fd);
    }
    VettingNames(old(k.log), k.log, fd, CStrs(done), k.euid);
  }

  /** Looking at a directory, and letting go of it, opens nothing. */
  lemma VettingNames(was: seq<Event>, log: seq<Event>, fd: nat, names: seq<string>, euid: nat)
    requires Chain(was, fd, names, euid)
    requires || log == was + [Closed(fd)]
             || exists st :: log == was + [Statted(fd, st)] || log == was + [Statted(fd, st)] + [Closed(fd)]
    ensures Names(log) == names
  {
    if log == was + [Closed(fd)] {
      assert log[..|was|] == was;
    } else {
      var st :| log == was + [Statted(fd, st)] || log == was + [Statted(fd, st)] + [Closed(fd)];
      var looked := was + [Statted(fd, st)];
      assert looked[..|was|] == was;
      assert |log| > |looked| ==> log[..|looked|] == looked;
    }
  }

  lemma CStrsLast(done: seq<string>, part: string)
    ensures CStrs(done + [part]) == CStrs(done) + [CStr(part)]
  {
    assert (done + [part])[..|done|] == done;
  }

  lemma RootChain(fd: nat, euid: nat)
    ensures Chain([Root(fd)], fd, CStrs([]), euid) && DirectoriesSoFar([Root(fd)])
  {
  }

  lemma GoodPart(part: string)
    requires |part| < MAX_PATH && !IsDot(CStr(part))
    ensures Good(part)
  {
  }

  /** The syntactic refusals are refusals of the path. */
  lemma NotWalkable(path: string, done: seq<string>, start: nat, rc: WalkRc)
    requires 1 <= start <= |path| && path[0] == '/'
    requires Parts(path) == done + Parts(path[start..]) && (done == [] || Parts(path[start..]) != [])
    requires var rest := Parts(path[start..]);
             || (rc == Directory && (rest == [] || path[|path| - 1] == '/'))
             || (rc == ComponentLong && rest != [] && |rest[0]| >= MAX_PATH)
             || (rc == Dot && rest != [] && IsDot(CStr(rest[0])))
    ensures !Walkable(path)
  {
    if Parts(path[start..]) != [] {
      assert Parts(path)[|done|] == Parts(path[start..])[0];
    }
  }

  lemma RootSlash(path: string)
    requires path != "" && path[0] == '/'
    ensures Parts(path) == Parts(path[1..])
  {
  }

  lemma IsWalkable(path: string)
    requires path != "" && path[0] == '/' && path[|path| - 1] != '/' && Parts(path) != []
    requires forall i :: 0 <= i < |Parts(path)| ==> Good(Parts(path)[i])
    ensures Walkable(path)
  {
  }

  lemma NotAbsolute(path: string)
    requires path == "" || path[0] != '/'
    ensures !Walkable(path)
  {
  }

  /** How the walk ends: with a leaf reached by vetted opens of the path's own components, or with nothing open. */
  ghost predicate Ends(k: Kernel, path: string, leaf: Option<nat>, walk: Walk, before: set<nat>)
    reads k
  {
    && k.Valid() && (leaf.Some? <==> walk.rc == Ok)
    && (leaf == None ==> k.live == before)
    && (leaf.Some? ==> leaf.value !in before && k.live == before + {leaf.value})
    && (leaf.Some? ==> Walkable(path) && LeafLast(k.log, leaf.value))
    && (leaf.Some? ==> Chain(k.log, leaf.value, CStrs(Parts(path)), k.euid))
    && (walk.rc in {Relative, Directory, ComponentLong, Dot} ==> !Walkable(path))
    && (walk.rc == DirOwner || walk.rc == DirWritable ==> Distrusted(k.log, k.euid))
    && Reported(k.log, path, walk)
  }

  /** The report names the component that the walk ended at: the directory that was not vetted, the root's name being
      "/", or what could not be opened, or the dots. */
  ghost predicate Reported(log: seq<Event>, path: string, walk: Walk) {
    var names := Names(log);
    && (walk.rc in {DirFstat, DirOwner, DirWritable} ==>
          walk.component == if names == [] then "/" else names[|names| - 1])
    && (walk.rc == OpenAtFailed ==>
          |names| < |Parts(path)| && walk.component == CStr(Parts(path)[|names|]))
    && (walk.rc == Dot ==> walk.component in {".", ".."})
  }

  /** The last open, and only that one, was of the leaf; its directory was closed after it. */
  ghost predicate LeafLast(log: seq<Event>, leaf: nat) {
    && |log| >= 2 && log[|log| - 2].Opened? && log[|log| - 2].leaf && log[|log| - 2].fd == leaf
    && log[|log| - 1] == Closed(log[|log| - 2].base) && DirectoriesSoFar(log[..|log| - 2])
  }

  /** The last directory looked at was not to be trusted. */
  ghost predicate Distrusted(log: seq<Event>, euid: nat) {
    |log| >= 2 && log[|log| - 2].Statted? && !Trusted(log[|log| - 2].st, euid)
  }

  /** A refusal, with everything closed. */
  lemma Refuses(k: Kernel, path: string, walk: Walk, before: set<nat>)
    requires k.Valid() && k.live == before && walk.rc != Ok && Reported(k.log, path, walk)
    requires walk.rc in {Relative, Directory, ComponentLong, Dot} ==> !Walkable(path)
    requires walk.rc == DirOwner || walk.rc == DirWritable ==> Distrusted(k.log, k.euid)
    ensures Ends(k, path, None, walk, before)
  {
  }

  lemma DirReported(log: seq<Event>, path: string, walk: Walk, done: seq<string>, part: string)
    requires walk.rc in {DirFstat, DirOwner, DirWritable}
    requires Names(log) == CStrs(done + [part]) && walk.component == CStr(part)
    ensures Reported(log, path, walk)
  {
    hide Names, CStrs, CStr;
    CStrsLast(done, part);
  }

  lemma OpenReported(log: seq<Event>, path: string, walk: Walk, done: seq<string>, part: string, rest: seq<string>)
    requires walk.rc == OpenAtFailed && Names(log) == CStrs(done) && Parts(path) == done + [part] + rest
    requires walk.component == CStr(part)
    ensures Reported(log, path, walk)
  {
    hide Names, CStrs, CStr, Parts;
  }

  lemma SyntaxReported(log: seq<Event>, path: string, walk: Walk)
    requires walk.rc in {Directory, ComponentLong, Dot} && (walk.rc == Dot ==> walk.component in {".", ".."})
    ensures Reported(log, path, walk)
  {
  }

  /** The leaf, opened last from a directory that is closed by now. */
  lemma Arrives(k: Kernel, path: string, leaf: nat, walk: Walk, before: set<nat>, log: seq<Event>, fd: nat, name: string)
    requires k.Valid() && walk.rc == Ok && leaf !in before && k.live == before + {leaf} && Walkable(path)
    requires Chain(k.log, leaf, CStrs(Parts(path)), k.euid)
    requires DirectoriesSoFar(log) && k.log == log + [Opened(fd, name, true, leaf), Closed(fd)]
    ensures Ends(k, path, Some(leaf), walk, before)
  {
    hide Chain, Walkable, DirectoriesSoFar, Reported;
    assert k.log[..|k.log| - 2] == log;
    assert Reported(k.log, path, walk) by { OkReported(k.log, path, walk); }
  }

  lemma OkReported(log: seq<Event>, path: string, walk: Walk)
    requires walk.rc == Ok
    ensures Reported(log, path, walk)
  {
  }

  /** The loop over the components, from a vetted root directory. */
  method WalkDown(k: Kernel, path: string, root: nat, report: Walk, ghost before: set<nat>)
    returns (leaf: Option<nat>, walk: Walk)
    requires path != "" && path[0] == '/' && report.rc == Ok
    requires At(k, root, [], before) && VettedIn(k.log, root, k.euid) && report.component == "/"
    modifies k
    ensures Ends(k, path, leaf, walk, before) && walk.rc != Relative
  {
    hide Chain, VettedIn, Trusted, Good, CStrs, CStr, Names, Parts, Walkable, DirectoriesSoFar, Distrusted, Reported, Ends;
    leaf, walk := None, report;
    var fd, start := root, 1;
    ghost var done: seq<string> := [];
    RootSlash(path);
    while true
      invariant 1 <= start <= |path| && walk.rc == Ok
      invariant At(k, fd, done, before) && VettedIn(k.log, fd, k.euid)
      invariant Parts(path) == done + Parts(path[start..]) && (done == [] || Parts(path[start..]) != [])
      invariant forall i :: 0 <= i < |done| ==> Good(done[i])
      decreases |path| - start
    {
      var rc, component, last, next := NextComponent(path, start, walk.component);
      if rc != Ok {
        k.Close(fd);
        NotWalkable(path, done, start, rc);
        walk := walk.(rc := rc, component := component);
        SyntaxReported(k.log, path, walk);
        Refuses(k, path, walk, before);
        return None, walk;
      }
      ghost var part := Parts(path[start..])[0];
      assert Parts(path) == done + [part] + Parts(path[next..]);
      walk := walk.(component := component);
      assert Good(part) by { GoodPart(part); }
      ghost var log := k.log;
      leaf := Descend(k, fd, component, part, last, done, before);
      done := done + [part];
      start := next;
      if leaf == None {
        walk := walk.(rc := OpenAtFailed);
        OpenReported(k.log, path, walk, done[..|done| - 1], part, Parts(path[next..]));
        Refuses(k, path, walk, before);
        return None, walk;
      }
      if last {
        assert done == Parts(path);
        IsWalkable(path);
        Arrives(k, path, leaf.value, walk, before, log, fd, component);
        return;
      }
      fd := leaf.value;
      walk := Vet(k, fd, walk, done, before);
      if walk.rc != Ok {
        assert done == done[..|done| - 1] + [part];
        DirReported(k.log, path, walk, done[..|done| - 1], part);
        Refuses(k, path, walk, before);
        return None, walk;
      }
    }
  }

  /** A leaf is opened only of a walkable path, by a chain of exactly its components in which every directory, the
      root included, was vetted before it was used; every refusal closes whatever was opened, each once. */
  method OpenStrict(k: Kernel, path: string) returns (leaf: Option<nat>, walk: Walk)
    requires k.Valid() && k.log == []
    modifies k
    ensures Ends(k, path, leaf, walk, old(k.live))
    ensures walk.rc == Relative <==> path == "" || path[0] != '/'
  {
    hide Chain, VettedIn, CStrs, Parts, Walkable, DirectoriesSoFar;
    leaf, walk := None, Walk(Ok, 0, "/");
    if path == "" || path[0] != '/' {
      NotAbsolute(path);
      return None, walk.(rc := Relative);
    }
    ghost var before := k.live;
    var root := k.OpenRoot();
    if root == None {
      return None, walk.(rc := OpenRootFailed);
    }
    assert k.log == [Root(root.value)];
    RootChain(root.value, k.euid);
    walk := Vet(k, root.value, walk, [], before);
    if walk.rc != Ok {
      return;
    }
    leaf, walk := WalkDown(k, path, root.value, walk, before);
  }

  // ----- what a chain means in a tree that holds still -----

  datatype Node = File(id: nat) | Link | Dir(id: nat, children: map<string, Node>)

  /** Follow names from a directory; a symbolic link leads nowhere. */
  function Resolve(n: Node, names: seq<string>): Option<Node>
    decreases |names|
  {
    if n.Link? then None
    else if names == [] then Some(n)
    else
      match Resolve(n, names[..|names| - 1])
      case Some(Dir(_, c)) =>
        var name := names[|names| - 1];
        if name in c && !c[name].Link? then Some(c[name]) else None
      case _ => None
  }

  /** The descriptors of a log stand for nodes of one tree, as the flags of each open demand. */
  ghost predicate Explains(log: seq<Event>, root: Node, node: map<nat, Node>) {
    forall k :: 0 <= k < |log| ==>
      match log[k]
      case Root(fd) => fd in node && node[fd] == root && root.Dir?
      case Opened(base, name, leaf, fd) =>
        && base in node && fd in node && node[base].Dir?
        && name in node[base].children && node[fd] == node[base].children[name] && !node[fd].Link?
        && (!leaf ==> node[fd].Dir?)
      case _ => true
  }

  /** Then the leaf is the node the path's components lead to, and no link was on the way. */
  lemma {:induction false} ChainResolves(log: seq<Event>, root: Node, node: map<nat, Node>, fd: nat)
    requires Explains(log, root, node) && Reaches(log, fd)
    ensures fd in node && Resolve(root, Names(log)) == Some(node[fd])
  {
    var n := |log| - 1;
    var front, last := log[..n], log[n];
    assert forall k :: 0 <= k < n ==> front[k] == log[k];
    if last.Root? {
      NoNames(front);
      assert Names(log) == [];
    } else if last.Opened? {
      ChainResolves(front, root, node, last.base);
      var names := Names(log);
      assert names[..|names| - 1] == Names(front) && names[|names| - 1] == last.name;
    } else {
      ChainResolves(front, root, node, fd);
      assert Names(log) == Names(front);
    }
  }

  lemma {:induction false} NoNames(log: seq<Event>)
    requires forall k :: 0 <= k < |log| ==> !log[k].Opened?
    ensures Names(log) == []
  {
    if log != [] {
      NoNames(log[..|log| - 1]);
    }
  }
}
