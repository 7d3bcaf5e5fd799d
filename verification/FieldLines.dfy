/**
 The weight over all Accept-Encoding field lines of a request. Section 5.3 of RFC 9110 makes the lines
 equivalent to one line that joins their values in order with commas.
 */
module FieldLines {
  import opened Basics
  import opened AcceptEncoding
  import opened AcceptEncodingGrammar
  import opened AcceptEncodingJoin
  import opened AcceptEncodingLaws
  import opened AcceptEncodingWalk

  /** One line's weights folded into those of the lines before it. */
  function Compose(w: Weights, line: Weights, allowWildcard: bool): Weights {
    if line.coding >= 0 then w.(coding := line.coding)
    else if allowWildcard && line.star >= 0 then w.(star := line.star)
    else w
  }

  function ChainWeights(lines: seq<Bytes>, w: Weights, coding: Bytes, allowWildcard: bool): Weights {
    if lines == [] then w
    else ChainWeights(lines[1..], Compose(w, Walk(lines[0], NONE, coding), allowWildcard), coding, allowWildcard)
  }

  function ChainWeight(lines: seq<Bytes>, coding: Bytes, allowWildcard: bool): int {
    Effective(ChainWeights(lines, NONE, coding, allowWildcard), allowWildcard)
  }

  /** The field lines joined in order with commas. */
  function Join(lines: seq<Bytes>): Bytes {
    if lines == [] then []
    else if |lines| == 1 then lines[0]
    else lines[0] + ([COMMA] + Join(lines[1..]))
  }

  // ----- the loops of the source -----

  /** The walk over the chained duplicate lines of nginx 1.23 and later. */
  method ChainCodingWeight(lines: seq<Bytes>, coding: Bytes, allowWildcard: bool) returns (weight: int)
    ensures weight == ChainWeight(lines, coding, allowWildcard)
  {
    var codingQ, starQ := -1, -1;
    var n := 0;
    while n < |lines|
      invariant n <= |lines|
      invariant ChainWeights(lines[n..], Weights(codingQ, starQ), coding, allowWildcard)
             == ChainWeights(lines, NONE, coding, allowWildcard)
    {
      assert lines[n..][1..] == lines[n + 1..];
      var _, lineCoding, lineStar := CodingWeightEx(lines[n], coding, allowWildcard);
      n := n + 1;
      if lineCoding >= 0 {
        codingQ := lineCoding;
        continue;
      }
      if allowWildcard && lineStar >= 0 {
        starQ := lineStar;
      }
    }
    weight := if codingQ >= 0 then codingQ else if allowWildcard && starQ >= 0 then starQ else -1;
  }

  datatype Header = Header(key: Bytes, value: Bytes)

  function LinesOf(headers: seq<Header>): seq<Bytes> {
    if headers == [] then []
    else if SameName(headers[0].key, ACCEPT_ENCODING) then [headers[0].value] + LinesOf(headers[1..])
    else LinesOf(headers[1..])
  }

  /** The headers not yet visited when the walk stands at index `i` of part `k`. */
  ghost function Rest(parts: seq<seq<Header>>, k: nat, i: nat): seq<Header>
    requires k < |parts| && i <= |parts[k]|
  {
    parts[k][i..] + Flatten(parts[k + 1..])
  }

  lemma RestNextPart(parts: seq<seq<Header>>, k: nat)
    requires k + 1 < |parts|
    ensures Rest(parts, k, |parts[k]|) == Rest(parts, k + 1, 0)
  {
    assert parts[k + 1..][0] == parts[k + 1] && parts[k + 1..][1..] == parts[k + 2..];
  }

  lemma RestStep(parts: seq<seq<Header>>, k: nat, i: nat)
    requires k < |parts| && i < |parts[k]|
    ensures var h := parts[k][i];
            LinesOf(Rest(parts, k, i)) ==
              (if SameName(h.key, ACCEPT_ENCODING) then [h.value] else []) + LinesOf(Rest(parts, k, i + 1))
  {
    var here := Rest(parts, k, i);
    assert here[0] == parts[k][i] && here[1..] == Rest(parts, k, i + 1);
  }

  lemma ChainStep(value: Bytes, lines: seq<Bytes>, w: Weights, coding: Bytes, allowWildcard: bool)
    ensures ChainWeights([value] + lines, w, coding, allowWildcard)
         == ChainWeights(lines, Compose(w, Walk(value, NONE, coding), allowWildcard), coding, allowWildcard)
  {
    assert ([value] + lines)[1..] == lines;
  }

  /** nginx 1.22 and earlier keep duplicates only in the header list: a list of parts, of which only the
      first may be empty. The index walks the parts in place. */
  method ListCodingWeight(parts: seq<seq<Header>>, coding: Bytes, allowWildcard: bool) returns (weight: int)
    requires |parts| >= 1 && forall k :: 1 <= k < |parts| ==> parts[k] != []
    ensures weight == ChainWeight(LinesOf(Flatten(parts)), coding, allowWildcard)
  {
    hide Walk, SameName, LinesOf, Rest;
    var codingQ, starQ := -1, -1;
    var k, i := 0, 0;
    ghost var total := ChainWeights(LinesOf(Flatten(parts)), NONE, coding, allowWildcard);
    assert Flatten(parts) == Rest(parts, 0, 0) by {
      WholeList(parts);
    }
    while true
      invariant k < |parts| && i <= |parts[k]|
      invariant ChainWeights(LinesOf(Rest(parts, k, i)), Weights(codingQ, starQ), coding, allowWildcard) == total
      decreases |parts| - k, |parts[k]| - i
    {
      if i >= |parts[k]| {
        if k + 1 == |parts| {
          NothingLeft(parts);
          break;
        }
        RestNextPart(parts, k);
        k := k + 1;
        i := 0;
      }
      var h := parts[k][i];
      RestStep(parts, k, i);
      i := i + 1;
      ghost var w, lines := Weights(codingQ, starQ), LinesOf(Rest(parts, k, i));
      if !SameName(h.key, ACCEPT_ENCODING) {
        assert [] + lines == lines;
        continue;
      }
      ChainStep(h.value, lines, w, coding, allowWildcard);
      var _, lineCoding, lineStar := CodingWeightEx(h.value, coding, allowWildcard);
      if lineCoding >= 0 {
        codingQ := lineCoding;
        continue;
      }
      if allowWildcard && lineStar >= 0 {
        starQ := lineStar;
      }
    }
    weight := if codingQ >= 0 then codingQ else if allowWildcard && starQ >= 0 then starQ else -1;
  }

  lemma WholeList(parts: seq<seq<Header>>)
    requires |parts| >= 1
    ensures Flatten(parts) == Rest(parts, 0, 0)
  {
  }

  lemma NothingLeft(parts: seq<seq<Header>>)
    requires |parts| >= 1
    ensures LinesOf(Rest(parts, |parts| - 1, |parts[|parts| - 1]|)) == []
  {
  }

  // ----- the law of section 5.3 -----

  /** The two accumulations agree on everything that can decide the answer. */
  ghost predicate Agree(chain: Weights, walk: Weights, allowWildcard: bool) {
    && SameSeen(chain, walk, allowWildcard)
    && -1 <= walk.coding && -1 <= walk.star && -1 <= chain.star
  }

  /** A line that another line may follow: its quoted-strings end within it, and what it says about the coding does
      not hang on a parameter walk that ends inside quotes. */
  predicate Joinable(line: Bytes, coding: Bytes, allowWildcard: bool) {
    Closed(line) && Steady(line, coding, allowWildcard)
  }

  ghost predicate AllJoinable(lines: seq<Bytes>, coding: Bytes, allowWildcard: bool) {
    forall k :: 0 <= k < |lines| - 1 ==> Joinable(lines[k], coding, allowWildcard)
  }

  lemma LineAgrees(line: Bytes, c: Weights, w: Weights, x: Weights, y: Weights, allowWildcard: bool)
    requires Agree(c, w, allowWildcard) && SameSeen(x, y, allowWildcard)
    requires -1 <= x.coding && -1 <= x.star && -1 <= y.star
    ensures Agree(Compose(c, y, allowWildcard), Over(w, x), allowWildcard)
  {
  }

  lemma {:induction false} ChainAgrees(lines: seq<Bytes>, c: Weights, w: Weights, coding: Bytes, allowWildcard: bool)
    requires AllJoinable(lines, coding, allowWildcard) && Agree(c, w, allowWildcard)
    ensures Agree(ChainWeights(lines, c, coding, allowWildcard), Walk(Join(lines), w, coding), allowWildcard)
    decreases |lines|
  {
    if lines != [] {
      var line, rest := lines[0], lines[1..];
      var f := if rest == [] then Kept else FateOf(Join(rest));
      var y := Walk(line, NONE, coding);
      hide Walk, WalkWith, FateOf, Closed, Steady, Agree, Compose, Over;
      KeptWalk(line, NONE, coding);
      KeptWalk(line, w, coding);
      WeightsInRange(line, NONE, coding);
      if rest != [] {
        assert Joinable(line, coding, allowWildcard);
        WalkMore(line, w, coding, Join(rest));
        SteadyAlways(line, coding, allowWildcard, Join(rest));
        assert forall k :: 0 <= k < |rest| - 1 ==> rest[k] == lines[k + 1];
      }
      LineStep(line, c, w, coding, allowWildcard, f);
      if rest != [] {
        ChainAgrees(rest, Compose(c, y, allowWildcard), WalkWith(line, w, coding, f), coding, allowWildcard);
      }
    }
  }

  lemma LineStep(line: Bytes, c: Weights, w: Weights, coding: Bytes, allowWildcard: bool, f: Fate)
    requires Agree(c, w, allowWildcard)
    requires SameSeen(WalkWith(line, NONE, coding, f), Walk(line, NONE, coding), allowWildcard)
    ensures Agree(Compose(c, Walk(line, NONE, coding), allowWildcard), WalkWith(line, w, coding, f), allowWildcard)
  {
    hide Walk, WalkWith;
    KeptWalk(line, NONE, coding);
    WalkWithOver(line, NONE, coding, Kept);
    WalkWithOver(line, NONE, coding, f);
    WalkWithOver(line, w, coding, f);
    LineAgrees(line, c, w, WalkWith(line, NONE, coding, f), Walk(line, NONE, coding), allowWildcard);
  }

  /** Section 5.3 of RFC 9110, for any coding and wildcard setting: duplicate field lines weigh what the
      joined line weighs, provided every line but the last is joinable. */
  lemma ChainIsJoin(lines: seq<Bytes>, coding: Bytes, allowWildcard: bool)
    requires AllJoinable(lines, coding, allowWildcard)
    ensures ChainWeight(lines, coding, allowWildcard) == CodingWeight(Join(lines), coding, allowWildcard)
  {
    ChainAgrees(lines, NONE, NONE, coding, allowWildcard);
  }

  // ----- lines written as the grammar says -----

  datatype ListLine = ListLine(items: seq<Listed>, end: Bytes) {
    predicate Valid() {
      WellFormed(items, end)
    }

    function Text(): Bytes {
      Print(items, end)
    }
  }

  function Texts(ls: seq<ListLine>): seq<Bytes> {
    if ls == [] then [] else [ls[0].Text()] + Texts(ls[1..])
  }

  function Items(ls: seq<ListLine>): seq<Listed> {
    if ls == [] then [] else ls[0].items + Items(ls[1..])
  }

  ghost predicate AllLines(ls: seq<ListLine>) {
    ls == [] || (ls[0].Valid() && AllLines(ls[1..]))
  }

  /** What the accumulated weights say after the elements `seen`. */
  ghost predicate Tracks(w: Weights, seen: seq<Listed>, coding: Bytes, allowWildcard: bool) {
    && AllValid(seen)
    && w.coding == LastNamed(seen, coding) && w.star >= -1
    && (allowWildcard && w.coding < 0 ==> w.star == LastStar(seen))
  }

  lemma LineTracks(w: Weights, seen: seq<Listed>, line: ListLine, coding: Bytes, allowWildcard: bool)
    requires Tracks(w, seen, coding, allowWildcard) && line.Valid()
    ensures Tracks(Compose(w, Walk(line.Text(), NONE, coding), allowWildcard), seen + line.items, coding, allowWildcard)
  {
    hide LastNamed, LastStar, Stated, SameName, Print, Walk;
    assert AllValid(line.items);
    ListReads(line.items, line.end, NONE, coding);
    StatedIs(line.items, coding);
    LastOfBoth(seen, line.items, coding);
    if SameName([STAR], coding) && LastNamed(line.items, coding) < 0 {
      StarIsNamed(line.items, coding);
    }
  }

  lemma FirstLine(ls: seq<ListLine>, seen: seq<Listed>)
    requires ls != []
    ensures Texts(ls) == [ls[0].Text()] + Texts(ls[1..])
    ensures seen + Items(ls) == (seen + ls[0].items) + Items(ls[1..])
  {
  }

  lemma {:induction false} LinesTrack(ls: seq<ListLine>, w: Weights, seen: seq<Listed>, coding: Bytes, allowWildcard: bool)
    requires Tracks(w, seen, coding, allowWildcard) && AllLines(ls)
    ensures Tracks(ChainWeights(Texts(ls), w, coding, allowWildcard), seen + Items(ls), coding, allowWildcard)
    decreases |ls|
  {
    if ls == [] {
      assert seen + Items(ls) == seen && Texts(ls) == [];
      hide Tracks;
    } else {
      hide Compose, Walk, Tracks, WellFormed, Print, ChainWeights, Items, Texts;
      var line, rest := ls[0], ls[1..];
      FirstLine(ls, seen);
      var w1 := Compose(w, Walk(line.Text(), NONE, coding), allowWildcard);
      LineTracks(w, seen, line, coding, allowWildcard);
      LinesTrack(rest, w1, seen + line.items, coding, allowWildcard);
      ChainStep(line.Text(), Texts(rest), w, coding, allowWildcard);
    }
  }

  /** The weight over several well-formed lines, for every coding and either wildcard setting: that of the last element
      of the coding's name in any of them; failing that, the last "*" if the wildcard may stand in. */
  lemma LinesWeigh(ls: seq<ListLine>, coding: Bytes, allowWildcard: bool)
    requires AllLines(ls)
    ensures AllValid(Items(ls))
    ensures ChainWeight(Texts(ls), coding, allowWildcard) == Worth(Items(ls), coding, allowWildcard)
  {
    LinesTrack(ls, NONE, [], coding, allowWildcard);
    assert [] + Items(ls) == Items(ls);
  }

  lemma {:induction false} SameCoding(lines: seq<Bytes>, v: Weights, w: Weights, coding: Bytes)
    requires v.coding == w.coding
    ensures ChainWeights(lines, v, coding, false).coding == ChainWeights(lines, w, coding, true).coding
  {
    if lines != [] {
      var x := Walk(lines[0], NONE, coding);
      SameCoding(lines[1..], Compose(v, x, false), Compose(w, x, true), coding);
    }
  }

  /** For any bytes at all: the wildcard only stands in for a weight that is not there. */
  lemma WildcardStandsIn(lines: seq<Bytes>, coding: Bytes)
    ensures ChainWeight(lines, coding, false) >= 0 ==>
              ChainWeight(lines, coding, true) == ChainWeight(lines, coding, false)
    ensures ChainWeight(lines, coding, false) >= -1
  {
    SameCoding(lines, NONE, NONE, coding);
  }

  // ----- what turns a coding on -----

  /** Some element of the field value is named `coding`. */
  predicate Names(t: Bytes, coding: Bytes)
    decreases |t|
  {
    var e := SkipSeparators(t);
    e != [] && (SameName(CodingName(e), coding) || Names(ReadElement(e, NONE, coding).1, coding))
  }

  ghost predicate NamedIn(lines: seq<Bytes>, coding: Bytes) {
    exists k :: 0 <= k < |lines| && Names(lines[k], coding)
  }

  lemma {:induction false} WalkNames(t: Bytes, w: Weights, coding: Bytes)
    ensures !Names(t, coding) ==> Walk(t, w, coding).coding == w.coding
    decreases |t|
  {
    var e := SkipSeparators(t);
    if e != [] {
      assert ReadElement(e, w, coding).1 == ReadElement(e, NONE, coding).1;
      WalkNames(ReadElement(e, w, coding).1, ReadElement(e, w, coding).0, coding);
    }
  }

  lemma {:induction false} ChainNames(lines: seq<Bytes>, w: Weights, coding: Bytes)
    ensures (forall k :: 0 <= k < |lines| ==> !Names(lines[k], coding)) ==>
              ChainWeights(lines, w, coding, false).coding == w.coding
  {
    if lines != [] {
      WalkNames(lines[0], NONE, coding);
      ChainNames(lines[1..], Compose(w, Walk(lines[0], NONE, coding), false), coding);
      assert forall k :: 1 <= k < |lines| ==> lines[k] == lines[1..][k - 1];
    }
  }

  /** Without the wildcard, a coding is acceptable only when some line names it: "*" alone never turns it on. */
  lemma OnlyNamedCodings(lines: seq<Bytes>, coding: Bytes)
    ensures ChainWeight(lines, coding, false) >= 0 ==> NamedIn(lines, coding)
  {
    ChainNames(lines, NONE, coding);
  }

  // ----- the proviso is exact -----

  /** An element that starts with the name "zstd" and then its parameters or the end. */
  lemma ZstdElement(b: Bytes)
    requires b == [] || b[0] == SEMI
    ensures var e := ZSTD + b;
            && SkipSeparators(e) == e && e[0] == 122
            && SkipWs(SkipCoding(e)) == b && CodingName(e) == ZSTD
  {
    CodingOver(ZSTD, b);
    assert SkipWs(b) == b;
  }

  /** Reading ";q=0" at the end of a value. */
  lemma RefusedParam(w: Params)
    requires w.rest == [59, 113, 61, 48] && !w.qSeen && -1 <= w.q <= 1000 && !w.bad
    ensures ReadParams(w) == Params(0, true, w.quoted, [], false)
  {
    var t: Bytes := [113, 61, 48];
    assert w.rest[1..] == t && SkipWs(t) == t;
    var after: Bytes := [61, 48];
    assert t[1..] == after && SkipParamName(after) == after;
    assert SkipParamName(t) == after && ParamName(t) == [113] && SkipWs(after) == after;
    var value: Bytes := [48];
    assert after[1..] == value && SkipWs(value) == value;
    assert ReadQvalue(value) == (0, []) && SkipWs([]) == [];
    assert ReadParam(w) == Params(0, true, w.quoted, [], false);
    assert ReadParams(ReadParam(w)) == ReadParam(w);
  }

  /** What the joined value of two lines weighs, and what the two lines weigh apart. */
  ghost predicate JoinsWith(line: Bytes, next: Bytes, coding: Bytes, allowWildcard: bool) {
    ChainWeight([line, next], coding, allowWildcard) == CodingWeight(Join([line, next]), coding, allowWildcard)
  }

  /** The exact condition, for every coding and either wildcard setting: a line may be followed by an arbitrary
      line if and only if it is joinable. */
  lemma JoinIsExact(line: Bytes, coding: Bytes, allowWildcard: bool)
    requires IsName(coding)
    ensures Joinable(line, coding, allowWildcard) <==>
              forall next: Bytes :: JoinsWith(line, next, coding, allowWildcard)
  {
    hide Closed, Steady, JoinsWith;
    if Joinable(line, coding, allowWildcard) {
      forall next: Bytes
        ensures JoinsWith(line, next, coding, allowWildcard)
      {
        JoinableJoins(line, next, coding, allowWildcard);
      }
    } else if !Closed(line) {
      var next := OpenDiffers(line, coding, allowWildcard);
    } else {
      var next := UnsteadyDiffers(line, coding, allowWildcard);
    }
  }

  lemma JoinableJoins(line: Bytes, next: Bytes, coding: Bytes, allowWildcard: bool)
    requires Joinable(line, coding, allowWildcard)
    ensures JoinsWith(line, next, coding, allowWildcard)
  {
    hide ChainWeight, CodingWeight, Joinable, Join;
    ChainIsJoin([line, next], coding, allowWildcard);
  }

  lemma JoinTwo(line: Bytes, next: Bytes)
    ensures Join([line, next]) == line + More(next)
  {
    assert [line, next][1..] == [next];
  }

  lemma ChainTwo(line: Bytes, next: Bytes, coding: Bytes, allowWildcard: bool)
    ensures ChainWeights([line, next], NONE, coding, allowWildcard)
         == Compose(Compose(NONE, Walk(line, NONE, coding), allowWildcard), Walk(next, NONE, coding), allowWildcard)
  {
    hide Walk;
    assert [line, next] == [line] + [next] && [next] == [next] + [];
    ChainStep(line, [next], NONE, coding, allowWildcard);
    ChainStep(next, [], Compose(NONE, Walk(line, NONE, coding), allowWildcard), coding, allowWildcard);
  }

  /** After an open line, a line that says the opposite about the coding is swallowed when joined. */
  lemma OpenDiffers(line: Bytes, coding: Bytes, allowWildcard: bool) returns (next: Bytes)
    requires IsName(coding) && !Closed(line)
    ensures !JoinsWith(line, next, coding, allowWildcard)
  {
    hide Walk, Closed, Join, ChainWeights;
    var x := if CodingWeight(line, coding, allowWildcard) == 0 then 1 else 0;
    next := coding + WeightParam(x);
    NameAndWeight(coding, x, NONE, coding);
    ChainTwo(line, next, coding, allowWildcard);
    JoinTwo(line, next);
    WalkSwallows(line, NONE, coding, next);
  }

  /** A closed line that hangs on a fate, and a text that brings that fate about and shows it. */
  lemma UnsteadyDiffers(line: Bytes, coding: Bytes, allowWildcard: bool) returns (next: Bytes)
    requires IsName(coding) && Closed(line) && !Steady(line, coding, allowWildcard)
    ensures !JoinsWith(line, next, coding, allowWildcard)
  {
    hide Walk, WalkWith, Closed, FateOf, Closing, Quiet, SameSeen, JoinsWith;
    if !SameSeen(WalkWith(line, NONE, coding, Dropped), Walk(line, NONE, coding), allowWildcard) {
      MalformedDrops(0);
      MalformedDrops(1);
      QuietDrops();
      next := FateShows(line, coding, allowWildcard, MALFORMED, MALFORMED, Dropped);
    } else {
      var d := if SameSeen(WalkWith(line, NONE, coding, Weighed(0)), Walk(line, NONE, coding), allowWildcard) then 1 else 0;
      WeighingWeighs(d, 0);
      WeighingWeighs(d, 1);
      QuietWeighs(d);
      next := FateShows(line, coding, allowWildcard, Weighing(d), WeightParam(d), Weighed(1000 * d));
    }
  }

  /** If a fate changes what the line says, some text with that fate changes the answer: one that weighs the
      wildcard, when the coding's own weight differs, and otherwise one that records nothing. */
  lemma FateShows(line: Bytes, coding: Bytes, allowWildcard: bool, mid: Bytes, end: Bytes, f: Fate)
    returns (next: Bytes)
    requires Closed(line) && DQUOTE !in mid && BACKSLASH !in mid && DQUOTE !in end
    requires FateOf(Closing(mid, 0)) == FateOf(Closing(mid, 1)) == FateOf(Quiet(end)) == f
    requires !SameSeen(WalkWith(line, NONE, coding, f), Walk(line, NONE, coding), allowWildcard)
    ensures !JoinsWith(line, next, coding, allowWildcard)
  {
    hide Walk, WalkWith, Closed, FateOf, Closing, Quiet, Join, ChainWeights, SameName;
    var e, w := WalkWith(line, NONE, coding, f), Walk(line, NONE, coding);
    KeptWalk(line, NONE, coding);
    WalkWithOver(line, NONE, coding, Kept);
    WalkWithOver(line, NONE, coding, f);
    if SameName([STAR], coding) {
      StarIsCoding(line, NONE, coding, f);
      StarIsCoding(line, NONE, coding, Kept);
    }
    if e.coding != w.coding && !SameName([STAR], coding) {
      var x := if e.coding == 0 || w.coding == 0 then 1 else 0;
      next := Closing(mid, x);
      ClosingRecords(mid, x, NONE, coding);
      ClosingRecords(mid, x, e, coding);
    } else {
      next := Quiet(end);
      QuietRecords(end, NONE, coding);
      QuietRecords(end, e, coding);
    }
    ChainTwo(line, next, coding, allowWildcard);
    JoinTwo(line, next);
    WalkMore(line, NONE, coding, next);
  }

  /** Asked for the coding "*" itself, the walk has no separate wildcard. */
  lemma {:induction false} StarIsCoding(t: Bytes, w: Weights, coding: Bytes, f: Fate)
    requires SameName([STAR], coding)
    ensures WalkWith(t, w, coding, f).star == w.star
    decreases |t|
  {
    hide ElementWeight;
    var e := SkipSeparators(t);
    if e != [] {
      StarIsCoding(SkipElement(e), RecordWith(e, w, coding, f), coding, f);
    }
  }

  /** A closed line all of whose parameter walks end outside quotes is joinable, whatever the coding. */
  lemma ShutIsJoinable(line: Bytes, coding: Bytes, allowWildcard: bool)
    requires Closed(line) && AllShut(line)
    ensures Joinable(line, coding, allowWildcard)
  {
    ShutSteady(line, NONE, coding, Dropped);
    ShutSteady(line, NONE, coding, Weighed(0));
    ShutSteady(line, NONE, coding, Weighed(1000));
  }

  /** Among lines without a DQUOTE in a parameter name, exactly the closed ones may be followed by an arbitrary
      line: their parameter walks end outside quotes. */
  lemma ClosedIsExact(line: Bytes, coding: Bytes, allowWildcard: bool)
    requires NoQuotedNames(line) && IsName(coding)
    ensures Closed(line) <==> forall next: Bytes :: JoinsWith(line, next, coding, allowWildcard)
  {
    hide Closed, NoQuotedNames, JoinsWith, AllShut, WalkWith, Walk;
    if Closed(line) {
      ClosedMeansShut(line);
      ShutIsJoinable(line, coding, allowWildcard);
    }
    JoinIsExact(line, coding, allowWildcard);
  }

  /** A closed line that is not joinable. The quotes of  zstd;"="  are closed, but the first stands
      in a parameter name: joined with  ";q=0  the walk reads the q=0 of the next line into this element,
      although the element ends before it. */
  lemma QuotedNameCounterexample()
    ensures var line: Bytes := ZSTD + [59, 34, 61, 34];
            var next: Bytes := [34, 59, 113, 61, 48];
            && Closed(line)
            && ChainWeight([line, next], ZSTD, true) == 1000
            && CodingWeight(Join([line, next]), ZSTD, true) == 0
  {
    hide Walk, Closed, Join;
    var b: Bytes := [59, 34, 61, 34];
    var next: Bytes := [34, 59, 113, 61, 48];
    var line := ZSTD + b;
    ClosedLine(b);
    LineAlone(b);
    NextAlone(next);
    ChainTwo(line, next, ZSTD, true);
    JoinTwo(line, next);
    var c: Bytes := [59, 34, 61, 34, 44] + next;
    assert (ZSTD + b) + ([COMMA] + next) == ZSTD + c;
    Joined(c, next);
  }

  lemma ClosedLine(b: Bytes)
    requires b == [59, 34, 61, 34]
    ensures Closed(ZSTD + b)
  {
    var e := ZSTD + b;
    assert e[1..][1..][1..][1..] == b;
    var t: Bytes := [61, 34];
    assert b[1..][1..] == t && t[1..] == [34] && [34][1..] == [];
    assert Unquote(t) == Unquote([34]) == [] && Terminated(t);
    assert Closed(b[1..]) && Closed(b);
    assert Closed(e[1..][1..][1..]) && Closed(e[1..][1..]) && Closed(e[1..]);
  }

  /** A parameter whose name is a lone DQUOTE, with a value that starts with a DQUOTE. */
  lemma QuoteNamedParam(b: Bytes, tail: Bytes)
    requires b == [59, 34, 61, 34] + tail
    ensures ReadParam(StartParams(b)) == FinishParam(Params(1000, false, true, [], false), SkipValue(Unquote(tail)))
  {
    var t: Bytes := [34, 61, 34] + tail;
    var after: Bytes := [61, 34] + tail;
    var value: Bytes := [34] + tail;
    assert b[1..] == t && SkipWs(t) == t;
    assert t[1..] == after && SkipParamName(after) == after;
    assert SkipParamName(t) == after && ParamName(t) == [34] && DQUOTE in ParamName(t);
    assert SkipWs(after) == after && after[1..] == value && SkipWs(value) == value;
    assert value[1..] == tail;
    assert SkipValue(value) == SkipValue(Unquote(tail));
    assert !IsQ([34]);
  }

  lemma LineAlone(b: Bytes)
    requires b == [59, 34, 61, 34]
    ensures Walk(ZSTD + b, NONE, ZSTD) == Weights(1000, -1)
  {
    ZstdElement(b);
    QuoteNamedParam(b, []);
    assert b == b + [];
    assert SkipValue(Unquote([])) == [] && SkipWs([]) == [];
    var w := StartParams(b);
    assert ReadParams(ReadParam(w)) == ReadParam(w) == Params(1000, false, true, [], false);
    assert ReadParams(w) == ReadParams(ReadParam(w));
    var (w1, rest) := ReadElement(ZSTD + b, NONE, ZSTD);
    assert rest == SkipElement(b);
    var q: Bytes := [34, 61, 34];
    assert b[1..] == q && q[1..][1..] == [34] && [34][1..] == [];
    assert SkipElement(b) == SkipElement(q) == SkipElement(SkipQuoted(q)) && SkipQuoted(q) == [];
    assert Walk(rest, w1, ZSTD) == w1;
  }

  lemma NextAlone(next: Bytes)
    requires next == [34, 59, 113, 61, 48]
    ensures Walk(next, NONE, ZSTD) == NONE
  {
    assert SkipSeparators(next) == next && SkipCoding(next) == next && SkipWs(next) == next;
    var (w1, rest) := ReadElement(next, NONE, ZSTD);
    NoQuoteUnquote(next[1..]);
    assert SkipElement(next) == SkipElement([]) == [];
    assert Walk(rest, w1, ZSTD) == w1;
  }

  lemma JoinedParams(c: Bytes)
    requires c == [59, 34, 61, 34, 44, 34, 59, 113, 61, 48]
    ensures EvalQvalue(c) == (0, c)
  {
    var tail: Bytes := [44, 34, 59, 113, 61, 48];
    assert c == [59, 34, 61, 34] + tail;
    QuoteNamedParam(c, tail);
    var refuse: Bytes := [59, 113, 61, 48];
    assert tail[1..][1..] == refuse;
    assert Unquote(tail) == Unquote(tail[1..]) == refuse;
    assert SkipValue(refuse) == refuse && SkipWs(refuse) == refuse;
    hide SkipValue, Unquote, SkipWs, ReadParam;
    var w := ReadParam(StartParams(c));
    assert w == Params(1000, false, true, refuse, false);
    RefusedParam(w);
    assert ReadParams(StartParams(c)) == ReadParams(w);
  }

  lemma JoinedRest(c: Bytes, next: Bytes)
    requires next == [34, 59, 113, 61, 48] && c == [59, 34, 61, 34, 44] + next
    ensures SkipElement(c) == [COMMA] + next
  {
    var tail := [COMMA] + next;
    var q: Bytes := [34, 61, 34] + tail;
    assert c[1..] == q && q[1..] == [61, 34] + tail && q[1..][1..] == [34] + tail && ([34] + tail)[1..] == tail;
    assert Unquote(q[1..]) == Unquote(q[1..][1..]) == tail;
    assert SkipElement(c) == SkipElement(q) == SkipElement(SkipQuoted(q)) && SkipQuoted(q) == tail;
  }

  lemma JoinedElement(c: Bytes, next: Bytes)
    requires next == [34, 59, 113, 61, 48] && c == [59, 34, 61, 34, 44] + next
    ensures SkipSeparators(ZSTD + c) == ZSTD + c && (ZSTD + c)[0] == 122
    ensures ReadElement(ZSTD + c, NONE, ZSTD) == (Weights(0, -1), [COMMA] + next)
  {
    ZstdElement(c);
    JoinedParams(c);
    JoinedRest(c, next);
    hide EvalQvalue, SkipElement, SkipCoding, SkipWs, SkipSeparators;
  }

  lemma Joined(c: Bytes, next: Bytes)
    requires next == [34, 59, 113, 61, 48] && c == [59, 34, 61, 34, 44] + next
    ensures Walk(ZSTD + c, NONE, ZSTD) == Weights(0, -1)
  {
    JoinedElement(c, next);
    hide ReadElement;
    var w1, tail := Weights(0, -1), [COMMA] + next;
    assert Walk(ZSTD + c, NONE, ZSTD) == Walk(tail, w1, ZSTD);
    assert tail[1..] == next;
    SameSeparators(tail, next, w1, ZSTD);
    NextAlone(next);
    KeptWalk(next, w1, ZSTD);
    KeptWalk(next, NONE, ZSTD);
    WalkWithOver(next, w1, ZSTD, Kept);
  }
}
