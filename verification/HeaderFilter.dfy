/** The header filter: who is served which coding, what Vary says about it, and why a cache may rely on that. */
module HeaderFilter {
  import opened Basics
  import AcceptEncoding
  import CacheControl
  import DczDigest
  import FieldLines
  import V = Vary

  type Bytes = AcceptEncoding.Bytes

  const DCZ: Bytes := [100, 99, 122]
  const MAX_ELIGIBLE_STATUS: nat := 299
  /** "Cache-Control". */
  const CACHE_CONTROL: Bytes := [67, 97, 99, 104, 101, 45, 67, 111, 110, 116, 114, 111, 108]

  // ----- requests -----

  datatype Field = Field(name: Bytes, value: Bytes)

  datatype Request = Request(isMain: bool, uri: string, secure: bool, fields: seq<Field>)

  /** The values of every field line of one name, in order. */
  function Values(fields: seq<Field>, name: Bytes): (v: seq<Bytes>)
    ensures |v| <= |fields|
  {
    if fields == [] then []
    else
      var last := fields[|fields| - 1];
      Values(fields[..|fields| - 1], name) + (if AcceptEncoding.SameName(last.name, name) then [last.value] else [])
  }

  // ----- the location and the upstream response -----

  /** `bypass` is the zstd_bypass predicate; `bypassVary` the operator's account of what it depends on. */
  datatype Location = Location(
    enable: bool, minLength: int, maxLength: Option<int>,
    bypass: Option<Request -> bool>, bypassVary: Bytes,
    dicts: seq<DczDigest.Dict>, assumeSecure: bool, gzipVaryOn: bool)

  datatype Upstream = Upstream(
    status: nat, encoded: bool, contentLength: int, headerOnly: bool, typeOk: bool, ranges: bool, strongEtag: bool)

  ghost predicate LocationOk(loc: Location) {
    DczDigest.DictsOk(loc.dicts) && DczDigest.Sorted(loc.dicts)
  }

  /** zstd_bypass_vary names every request field the bypass predicate looks at; beyond those, it sees the URI. */
  ghost predicate BypassDeclared(loc: Location) {
    loc.bypass.Some? ==>
      forall q: Request, p: Request ::
        q.uri == p.uri && AgreeOnList(loc.bypassVary, q, p) ==> loc.bypass.value(q) == loc.bypass.value(p)
  }

  ghost predicate AgreeOnList(list: Bytes, q: Request, p: Request) {
    forall name: Bytes :: name != [] && list != [] && V.Lists(list, name) ==>
      Values(q.fields, name) == Values(p.fields, name)
  }

  predicate Bypassed(loc: Location, q: Request) {
    loc.bypass.Some? && loc.bypass.value(q)
  }

  // ----- eligibility: nothing here looks at a request field -----

  predicate ForbidsTransform(h: V.Header) {
    h.hash != 0 && AcceptEncoding.SameName(h.key, CACHE_CONTROL) && CacheControl.Forbids(h.value)
  }

  predicate StatusOk(status: nat) {
    && 200 <= status && status != 204 && status != 205 && status != 206
    && (status <= MAX_ELIGIBLE_STATUS || status in {403, 404, 410})
  }

  predicate LengthOk(loc: Location, length: int) {
    length == -1 || (loc.minLength <= length && (loc.maxLength.Some? ==> length <= loc.maxLength.value))
  }

  predicate Eligible(loc: Location, up: Upstream, headers: seq<V.Header>, isMain: bool) {
    && loc.enable && isMain && StatusOk(up.status) && !up.encoded && LengthOk(loc, up.contentLength)
    && !up.headerOnly && up.typeOk
    && forall i :: 0 <= i < |headers| ==> !ForbidsTransform(headers[i])
  }

  // ----- the choice of coding -----

  datatype Coding = Identity | Zstd | Dcz(dict: nat)

  /** "same-origin". */
  const SAME_ORIGIN: Bytes := [115, 97, 109, 101, 45, 111, 114, 105, 103, 105, 110]
  /** "none". */
  const NONE: Bytes := [110, 111, 110, 101]

  predicate SiteOk(value: Bytes) {
    AcceptEncoding.SameName(value, SAME_ORIGIN) || AcceptEncoding.SameName(value, NONE)
  }

  function Octets(v: Bytes): DczDigest.Octets {
    seq(|v|, i requires 0 <= i < |v| => v[i] as bv8)
  }

  /** dcz needs a secure context, an explicit weight, exactly one announced digest, which must be of a dictionary
      held here, and at most one Sec-Fetch-Site, which must be same-origin or none. */
  function Negotiated(loc: Location, q: Request): Option<nat> {
    var announced := Values(q.fields, V.AVAILABLE_DICTIONARY);
    var site := Values(q.fields, V.SEC_FETCH_SITE);
    if loc.dicts != [] && q.isMain && (q.secure || loc.assumeSecure)
       && FieldLines.ChainWeight(Values(q.fields, AcceptEncoding.ACCEPT_ENCODING), DCZ, false) > 0
       && |announced| == 1 && (site == [] || (|site| == 1 && SiteOk(site[0])))
    then DczDigest.Selected(loc.dicts, Octets(announced[0]))
    else None
  }

  function Chosen(loc: Location, q: Request): Coding {
    match Negotiated(loc, q)
    case Some(i) => Dcz(i)
    case None =>
      if q.isMain && FieldLines.ChainWeight(Values(q.fields, AcceptEncoding.ACCEPT_ENCODING), AcceptEncoding.ZSTD, true) > 0 then Zstd
      else Identity
  }

  // ----- the whole filter, as a function of the response so far -----

  datatype Sent = Sent(out: V.Out, rc: Rc, coding: Coding)

  /** "Content-Encoding". */
  const CONTENT_ENCODING: Bytes := [67, 111, 110, 116, 101, 110, 116, 45, 69, 110, 99, 111, 100, 105, 110, 103]

  function CodingName(c: Coding): Bytes {
    if c.Dcz? then DCZ else AcceptEncoding.ZSTD
  }

  ghost function Filtered(loc: Location, up: Upstream, q: Request, o: V.Out, ctxOk: bool): Sent {
    if !Eligible(loc, up, o.headers, q.isMain) then Sent(o, OK, Identity) else NameBypass(loc, q, o, ctxOk)
  }

  ghost function NameBypass(loc: Location, q: Request, o: V.Out, ctxOk: bool): Sent {
    var (p, rc) := if loc.bypassVary != [] then V.Pushed(o, loc.bypassVary) else (o, OK);
    if rc != OK then Sent(p, rc, Identity) else NameRest(loc, q, p, ctxOk)
  }

  ghost function NameRest(loc: Location, q: Request, o: V.Out, ctxOk: bool): Sent {
    var (p, rc) := V.NameEncoding(o, loc.gzipVaryOn);
    if rc != OK || Bypassed(loc, q) then Sent(p, rc, Identity)
    else
      var (d, rc2) := if loc.dicts != [] then V.NameDictionary(p) else (p, OK);
      if rc2 != OK then Sent(d, rc2, Identity) else Commit(Chosen(loc, q), d, ctxOk)
  }

  ghost function Commit(c: Coding, o: V.Out, ctxOk: bool): Sent {
    if c.Identity? then Sent(o, OK, Identity)
    else if !ctxOk || o.room == 0 then Sent(o, ERROR, Identity)
    else
      Sent(o.(headers := o.headers + [V.Header(1, CONTENT_ENCODING, CodingName(c))], room := o.room - 1), OK, c)
  }

  // ----- what the decision amounts to, without its own words -----

  /** Which responses may be compressed at all. */
  lemma EligibleExactly(loc: Location, up: Upstream, headers: seq<V.Header>, isMain: bool)
    ensures Eligible(loc, up, headers, isMain) <==>
              && loc.enable && isMain && !up.encoded && !up.headerOnly && up.typeOk
              && (200 <= up.status <= 203 || 207 <= up.status <= 299 || up.status in {403, 404, 410})
              && (up.contentLength != -1 ==>
                    up.contentLength >= loc.minLength
                    && (loc.maxLength == None || up.contentLength <= loc.maxLength.value))
              && !exists i :: 0 <= i < |headers| && headers[i].hash != 0
                              && AcceptEncoding.SameName(headers[i].key, CACHE_CONTROL)
                              && CacheControl.Forbids(headers[i].value)
  {
    hide AcceptEncoding.SameName, CacheControl.Forbids;
    if Eligible(loc, up, headers, isMain) {
      forall i | 0 <= i < |headers|
        ensures !(headers[i].hash != 0 && AcceptEncoding.SameName(headers[i].key, CACHE_CONTROL)
                  && CacheControl.Forbids(headers[i].value))
      {
        assert !ForbidsTransform(headers[i]);
      }
    }
  }

  /** The header line that says how the body is coded, last in a response to a request that asked for that coding. */
  ghost predicate Labelled(headers: seq<V.Header>, accept: seq<Bytes>, dictionary: bool) {
    && headers != []
    && var h := headers[|headers| - 1];
       && h.hash != 0 && AcceptEncoding.Spells(h.key, "Content-Encoding")
       && h.value == (if dictionary then [100, 99, 122] else [122, 115, 116, 100])
       && FieldLines.ChainWeight(accept, h.value, !dictionary) > 0
  }

  /** Only Vary lines were added. */
  ghost predicate VaryAdded(before: seq<V.Header>, after: seq<V.Header>) {
    before <= after && forall k :: |before| <= k < |after| ==> AcceptEncoding.Spells(after[k].key, "Vary")
  }

  lemma HelpersAddVary(o: V.Out, gzipVaryOn: bool, line: Bytes)
    ensures VaryAdded(o.headers, V.Pushed(o, line).0.headers)
    ensures VaryAdded(o.headers, V.NameEncoding(o, gzipVaryOn).0.headers)
    ensures VaryAdded(o.headers, V.NameDictionary(o).0.headers)
  {
    hide V.Named;
    V.Spelled();
  }

  lemma VaryAddedTrans(a: seq<V.Header>, b: seq<V.Header>, c: seq<V.Header>)
    requires VaryAdded(a, b) && VaryAdded(b, c)
    ensures VaryAdded(a, c)
  {
    forall k | |a| <= k < |c|
      ensures AcceptEncoding.Spells(c[k].key, "Vary")
    {
      if k < |b| {
        assert c[k] == b[k];
      }
    }
  }

  /** What is left to do after the response named its fields. */
  lemma NamesThenCommits(loc: Location, q: Request, o: V.Out, ctxOk: bool)
    ensures var s := NameRest(loc, q, o, ctxOk);
            || (s.coding == Identity && VaryAdded(o.headers, s.out.headers))
            || (!Bypassed(loc, q) && exists d: V.Out :: VaryAdded(o.headers, d.headers)
                                                        && s == Commit(Chosen(loc, q), d, ctxOk))
  {
    hide V.NameEncoding, V.NameDictionary, V.Pushed, Chosen, VaryAdded, Bypassed, Commit;
    var p := V.NameEncoding(o, loc.gzipVaryOn).0;
    HelpersAddVary(o, loc.gzipVaryOn, []);
    HelpersAddVary(p, loc.gzipVaryOn, []);
    var d := if loc.dicts != [] then V.NameDictionary(p).0 else p;
    if loc.dicts != [] {
      VaryAddedTrans(o.headers, p.headers, d.headers);
    }
    assert VaryAdded(o.headers, d.headers);
  }

  lemma CommitLabels(loc: Location, q: Request, d: V.Out, ctxOk: bool)
    ensures var s := Commit(Chosen(loc, q), d, ctxOk);
            if s.coding == Identity then s.out.headers == d.headers
            else
              && s.rc == OK && s.out.headers[..|s.out.headers| - 1] == d.headers
              && Labelled(s.out.headers, Values(q.fields, AcceptEncoding.ACCEPT_ENCODING), s.coding.Dcz?)
  {
    hide FieldLines.ChainWeight, Values, DczDigest.Selected, SiteOk;
    assert AcceptEncoding.Spells(CONTENT_ENCODING, "Content-Encoding");
  }

  /** A coding is applied exactly when the response says so: in one line, which names "dcz" if a dictionary was chosen
      and else "zstd", and which the request weighs above 0, by the wildcard only for zstd. Other than that line, only
      Vary lines are added. */
  lemma AppliedIsLabelled(loc: Location, up: Upstream, q: Request, o: V.Out, ctxOk: bool)
    ensures var s := Filtered(loc, up, q, o, ctxOk);
            if s.coding == Identity then VaryAdded(o.headers, s.out.headers)
            else
              && s.rc == OK && Eligible(loc, up, o.headers, q.isMain) && !(loc.bypass.Some? && loc.bypass.value(q))
              && Labelled(s.out.headers, Values(q.fields, AcceptEncoding.ACCEPT_ENCODING), s.coding.Dcz?)
              && VaryAdded(o.headers, s.out.headers[..|s.out.headers| - 1])
  {
    hide Eligible, NameRest, Labelled, VaryAdded, Commit, Chosen, Values;
    if Eligible(loc, up, o.headers, q.isMain) {
      var p := if loc.bypassVary != [] then V.Pushed(o, loc.bypassVary).0 else o;
      NothingAdded(o.headers);
      HelpersAddVary(o, loc.gzipVaryOn, loc.bypassVary);
      NamesThenCommits(loc, q, p, ctxOk);
      var s := NameRest(loc, q, p, ctxOk);
      if d: V.Out :| VaryAdded(p.headers, d.headers) && !Bypassed(loc, q) && s == Commit(Chosen(loc, q), d, ctxOk) {
        CommitLabels(loc, q, d, ctxOk);
        VaryAddedTrans(o.headers, p.headers, d.headers);
      } else {
        VaryAddedTrans(o.headers, p.headers, s.out.headers);
      }
    } else {
      NothingAdded(o.headers);
    }
  }

  lemma NothingAdded(headers: seq<V.Header>)
    ensures VaryAdded(headers, headers)
  {
  }

  /** ... and it is applied whenever it may be: the coding chosen is withheld only by a failure, and there is none with room
      for four headers and a context. */
  lemma ChosenIsApplied(loc: Location, up: Upstream, q: Request, o: V.Out, ctxOk: bool)
    requires Eligible(loc, up, o.headers, q.isMain) && !(loc.bypass.Some? && loc.bypass.value(q))
    ensures Filtered(loc, up, q, o, ctxOk).rc == OK ==> Filtered(loc, up, q, o, ctxOk).coding == Chosen(loc, q)
    ensures ctxOk && o.room >= 4 ==> Filtered(loc, up, q, o, ctxOk).rc == OK
  {
    hide Eligible, Chosen, V.NameEncoding, V.NameDictionary;
    var p := if loc.bypassVary != [] then V.Pushed(o, loc.bypassVary).0 else o;
    V.RoomSuffices(p, loc.gzipVaryOn, false);
    V.RoomSuffices(V.NameEncoding(p, loc.gzipVaryOn).0, loc.gzipVaryOn, false);
  }

  /** zstd is chosen exactly for a main request that weighs it above 0, when no dictionary is negotiated. */
  lemma ZstdIsChosen(loc: Location, q: Request)
    ensures Chosen(loc, q) == Zstd <==>
              && q.isMain && Negotiated(loc, q) == None
              && FieldLines.ChainWeight(Values(q.fields, AcceptEncoding.ACCEPT_ENCODING), [122, 115, 116, 100], true) > 0
  {
    hide FieldLines.ChainWeight, Values, Negotiated;
  }

  /** Exactly when a dictionary is negotiated, and that it is the announced one. */
  lemma NegotiatedExactly(loc: Location, q: Request)
    requires DczDigest.DictsOk(loc.dicts)
    ensures var announced, site := Values(q.fields, V.AVAILABLE_DICTIONARY), Values(q.fields, V.SEC_FETCH_SITE);
            Negotiated(loc, q).Some? <==>
              && q.isMain && (q.secure || loc.assumeSecure)
              && FieldLines.ChainWeight(Values(q.fields, AcceptEncoding.ACCEPT_ENCODING), [100, 99, 122], false) > 0
              && |announced| == 1
              && (|site| == 0 || (|site| == 1 && (AcceptEncoding.SameName(site[0], SAME_ORIGIN)
                                                  || AcceptEncoding.SameName(site[0], NONE))))
              && exists i :: 0 <= i < |loc.dicts|
                             && DczDigest.DigestOf(Octets(announced[0])) == DczDigest.Digest(loc.dicts[i].hash)
    ensures forall i :: 0 <= i < |loc.dicts| && Negotiated(loc, q).Some?
                        && DczDigest.DigestOf(Octets(Values(q.fields, V.AVAILABLE_DICTIONARY)[0]))
                             == DczDigest.Digest(loc.dicts[i].hash) ==>
              Negotiated(loc, q) == Some(i)
  {
    hide FieldLines.ChainWeight, Values, DczDigest.DigestOf, AcceptEncoding.SameName, DczDigest.DictOk;
    var announced := Values(q.fields, V.AVAILABLE_DICTIONARY);
    if |announced| == 1 {
      var d := DczDigest.DigestOf(Octets(announced[0]));
      if d.Digest? {
        assert DczDigest.Finds(loc.dicts, d.hash, DczDigest.IndexOf(loc.dicts, d.hash));
      }
    }
  }

  lemma SiteNames()
    ensures AcceptEncoding.Spells(SAME_ORIGIN, "same-origin") && AcceptEncoding.Spells(NONE, "none")
    ensures AcceptEncoding.Spells(CACHE_CONTROL, "Cache-Control") && AcceptEncoding.Spells(DCZ, "dcz")
  {
  }

  // ----- the source's own steps -----

  /** One walk for both fields: the first value of each, and how many lines there are. */
  method CollectDczHeaders(fields: seq<Field>)
    returns (dict: Option<Bytes>, dictCount: nat, site: Option<Bytes>, siteCount: nat)
    ensures var v := Values(fields, V.AVAILABLE_DICTIONARY);
            dictCount == |v| && dict == if v == [] then None else Some(v[0])
    ensures var v := Values(fields, V.SEC_FETCH_SITE);
            siteCount == |v| && site == if v == [] then None else Some(v[0])
  {
    hide AcceptEncoding.SameName;
    dict, site, dictCount, siteCount := None, None, 0, 0;
    for i := 0 to |fields|
      invariant var v := Values(fields[..i], V.AVAILABLE_DICTIONARY);
                dictCount == |v| && dict == if v == [] then None else Some(v[0])
      invariant var v := Values(fields[..i], V.SEC_FETCH_SITE);
                siteCount == |v| && site == if v == [] then None else Some(v[0])
    {
      var h := fields[i];
      assert fields[..i + 1][..i] == fields[..i];
      NotBoth(h.name);
      if AcceptEncoding.SameName(h.name, V.AVAILABLE_DICTIONARY) {
        dictCount := dictCount + 1;
        if dict == None {
          dict := Some(h.value);
        }
      } else if AcceptEncoding.SameName(h.name, V.SEC_FETCH_SITE) {
        siteCount := siteCount + 1;
        if site == None {
          site := Some(h.value);
        }
      }
    }
    assert fields[..|fields|] == fields;
  }

  lemma NotBoth(name: Bytes)
    ensures !(AcceptEncoding.SameName(name, V.AVAILABLE_DICTIONARY) && AcceptEncoding.SameName(name, V.SEC_FETCH_SITE))
  {
    assert |V.AVAILABLE_DICTIONARY| != |V.SEC_FETCH_SITE|;
  }

  method Negotiate(loc: Location, q: Request) returns (at: Option<nat>)
    requires LocationOk(loc)
    ensures at == Negotiated(loc, q)
  {
    hide DczDigest.Selected, SiteOk, DczDigest.DictsOk, DczDigest.Sorted;
    at := None;
    if loc.dicts == [] || !q.isMain || (!q.secure && !loc.assumeSecure) {
      return;
    }
    var weight := FieldLines.ChainCodingWeight(Values(q.fields, AcceptEncoding.ACCEPT_ENCODING), DCZ, false);
    if weight <= 0 {
      return;
    }
    var dict, dictCount, site, siteCount := CollectDczHeaders(q.fields);
    if dict == None || dictCount > 1 {
      return;
    }
    var found := DczDigest.Select(loc.dicts, Octets(dict.value));
    if siteCount > 1 || (site.Some? && !SiteOk(site.value)) {
      return;
    }
    at := found;
  }

  method CacheControlNoTransform(headers: seq<V.Header>) returns (found: bool)
    ensures found <==> exists i :: 0 <= i < |headers| && ForbidsTransform(headers[i])
  {
    hide AcceptEncoding.SameName, CacheControl.Forbids;
    for i := 0 to |headers|
      invariant forall k :: 0 <= k < i ==> !ForbidsTransform(headers[k])
    {
      if headers[i].hash != 0 && AcceptEncoding.SameName(headers[i].key, CACHE_CONTROL) {
        found := CacheControl.NoTransform(headers[i].value);
        if found {
          return;
        }
      }
    }
    found := false;
  }

  class Exchange {
    const loc: Location
    const up: Upstream
    const response: V.Response
    var coding: Coding
    var gzipTested: bool
    var gzipOk: bool
    var contentLength: int
    var pledged: int
    var ranges: bool          // the response offers byte ranges
    var strongEtag: bool      // its validator is a strong one
    /** How often the request context could not be allocated. */
    ghost var faults: nat

    constructor (loc: Location, up: Upstream, response: V.Response)
      ensures this.loc == loc && this.up == up && this.response == response
      ensures coding == Identity && contentLength == up.contentLength && pledged == -1 && !gzipTested && faults == 0
      ensures ranges == up.ranges && strongEtag == up.strongEtag
    {
      this.loc, this.up, this.response := loc, up, response;
      coding, contentLength, pledged, gzipTested, gzipOk := Identity, up.contentLength, -1, false, false;
      ranges, strongEtag, faults := up.ranges, up.strongEtag, 0;
    }

    /** The request context. */
    method Context() returns (ok: bool)
      modifies this`faults
      ensures faults == old(faults) + if ok then 0 else 1
    {
      ok := *;
      if !ok {
        faults := faults + 1;
      }
    }

    /** Serves `coding` exactly when it says so, with the known length pledged to the encoder and withdrawn from
        the response, byte ranges no longer offered, the validator weakened, and the gzip filter latched off. */
    method HeaderFilter(q: Request) returns (rc: Rc)
      requires LocationOk(loc) && response.gzipVaryOn == loc.gzipVaryOn
      requires coding == Identity && contentLength == up.contentLength
      requires ranges == up.ranges && strongEtag == up.strongEtag
      modifies this, response
      ensures Sent(response.out, rc, coding) == Filtered(loc, up, q, old(response.out), faults == old(faults))
      ensures coding == Identity ==>
                contentLength == up.contentLength && ranges == up.ranges && strongEtag == up.strongEtag
      ensures coding != Identity ==>
                contentLength == -1 && pledged == up.contentLength && gzipTested && !gzipOk && !ranges && !strongEtag
      ensures coding != Identity ==>
                rc == OK && Labelled(response.out.headers, Values(q.fields, AcceptEncoding.ACCEPT_ENCODING), coding.Dcz?)
    {
      hide Eligible, Labelled, LocationOk, NameBypass;
      ghost var o := response.out;
      var eligible := Gate(q);
      rc := OK;
      if eligible {
        rc := Serve(q);
      }
      ghost var ctxOk := faults == old(faults);
      assert Sent(response.out, rc, coding) == Filtered(loc, up, q, o, ctxOk);
      AppliedIsLabelled(loc, up, q, o, ctxOk);
    }

    /** An eligible response: name the fields that decide, and encode unless bypassed. */
    method Serve(q: Request) returns (rc: Rc)
      requires LocationOk(loc) && response.gzipVaryOn == loc.gzipVaryOn
      requires coding == Identity && contentLength == up.contentLength
      requires ranges == up.ranges && strongEtag == up.strongEtag
      modifies this, response
      ensures Sent(response.out, rc, coding) == NameBypass(loc, q, old(response.out), faults == old(faults))
      ensures coding == Identity ==>
                contentLength == up.contentLength && ranges == up.ranges && strongEtag == up.strongEtag
      ensures coding != Identity ==>
                contentLength == -1 && pledged == up.contentLength && gzipTested && !gzipOk && !ranges && !strongEtag
    {
      hide Chosen, Commit, V.NameEncoding, V.NameDictionary, V.Pushed, LocationOk;
      rc := OK;
      if loc.bypassVary != [] {
        rc := NameBypassFields();
        if rc != OK {
          return;
        }
      }
      rc := response.VaryAcceptEncoding();
      if rc != OK || Bypassed(loc, q) {
        return;
      }
      if loc.dicts != [] {
        rc := response.VaryDcz();
        if rc != OK {
          return;
        }
      }
      rc := Encode(q);
    }

    method NameBypassFields() returns (rc: Rc)
      modifies response
      ensures (response.out, rc) == V.Pushed(old(response.out), loc.bypassVary)
    {
      rc := response.PushHeader(V.VARY, loc.bypassVary);
    }

    /** Every reason to decline that no request field can change. */
    method Gate(q: Request) returns (ok: bool)
      ensures ok == Eligible(loc, up, response.out.headers, q.isMain)
    {
      hide ForbidsTransform;
      if !loc.enable || !q.isMain || !StatusOk(up.status) || up.encoded {
        return false;
      }
      if up.contentLength != -1 && up.contentLength < loc.minLength {
        return false;
      }
      if loc.maxLength.Some? && up.contentLength != -1 && up.contentLength > loc.maxLength.value {
        return false;
      }
      if up.headerOnly || !up.typeOk {
        return false;
      }
      var forbidden := CacheControlNoTransform(response.out.headers);
      ok := !forbidden;
    }

    /** Choose the coding and commit to it. */
    method Encode(q: Request) returns (rc: Rc)
      requires LocationOk(loc) && coding == Identity && contentLength == up.contentLength
      requires ranges == up.ranges && strongEtag == up.strongEtag
      modifies this, response
      ensures Sent(response.out, rc, coding) == Commit(Chosen(loc, q), old(response.out), faults == old(faults))
      ensures coding == Identity ==>
                contentLength == up.contentLength && ranges == up.ranges && strongEtag == up.strongEtag
      ensures coding != Identity ==>
                contentLength == -1 && pledged == up.contentLength && gzipTested && !gzipOk && !ranges && !strongEtag
    {
      hide Negotiated, Values, LocationOk, FieldLines.ChainWeight;
      rc := OK;
      var dcz := Negotiate(loc, q);
      if dcz == None {
        var weight := FieldLines.ChainCodingWeight(Values(q.fields, AcceptEncoding.ACCEPT_ENCODING), AcceptEncoding.ZSTD, true);
        if !q.isMain || weight <= 0 {
          return;
        }
      }
      gzipTested, gzipOk := true, false;
      var context := Context();
      if !context {
        return ERROR;
      }
      var choice := if dcz.Some? then Dcz(dcz.value) else Zstd;
      rc := response.PushHeader(CONTENT_ENCODING, CodingName(choice));
      if rc != OK {
        return;
      }
      coding := choice;
      pledged := contentLength;
      contentLength, ranges, strongEtag := -1, false, false;
    }
  }

  // ----- what a shared cache may conclude -----

  /** The response names a request field: in a line of its own, or in the one nginx adds for gzip_vary. */
  ghost predicate VariesOn(loc: Location, o: V.Out, name: Bytes) {
    V.Named(o.headers, name) || (loc.gzipVaryOn && o.gzipVary && AcceptEncoding.SameName(AcceptEncoding.ACCEPT_ENCODING, name))
  }

  ghost predicate AgreeOnVary(loc: Location, o: V.Out, q: Request, p: Request) {
    forall name: Bytes :: name != [] && VariesOn(loc, o, name) ==> Values(q.fields, name) == Values(p.fields, name)
  }

  lemma NamedGrows(a: seq<V.Header>, b: seq<V.Header>, name: Bytes)
    requires a <= b && V.Named(a, name)
    ensures V.Named(b, name)
  {
    var i :| 0 <= i < |a| && V.NamesAt(a[i], name);
    assert V.NamesAt(b[i], name);
  }

  /** Every field the choice looks at is named by the time the response is sent. */
  lemma RestNames(loc: Location, q: Request, o: V.Out, ctxOk: bool)
    requires NameRest(loc, q, o, ctxOk).rc == OK
    ensures var s := NameRest(loc, q, o, ctxOk);
            && o.headers <= s.out.headers
            && VariesOn(loc, s.out, AcceptEncoding.ACCEPT_ENCODING)
            && (!Bypassed(loc, q) && loc.dicts != [] ==>
                  VariesOn(loc, s.out, V.AVAILABLE_DICTIONARY) && VariesOn(loc, s.out, V.SEC_FETCH_SITE))
  {
    hide V.Named, AcceptEncoding.SameName, V.NameEncoding, V.NameDictionary, Chosen, Bypassed;
    var s := NameRest(loc, q, o, ctxOk);
    var p := V.NameEncoding(o, loc.gzipVaryOn).0;
    V.EncodingNames(o, loc.gzipVaryOn, AcceptEncoding.ACCEPT_ENCODING);
    V.SameSelf(AcceptEncoding.ACCEPT_ENCODING);
    if !Bypassed(loc, q) {
      var d := if loc.dicts != [] then V.NameDictionary(p).0 else p;
      if loc.dicts != [] {
        V.DictionaryNames(p, AcceptEncoding.ACCEPT_ENCODING);
        DictionaryKeepsFlag(p);
        NamedGrows(d.headers, s.out.headers, V.AVAILABLE_DICTIONARY);
        NamedGrows(d.headers, s.out.headers, V.SEC_FETCH_SITE);
      }
      if !loc.gzipVaryOn {
        NamedGrows(p.headers, s.out.headers, AcceptEncoding.ACCEPT_ENCODING);
      }
    }
  }

  lemma DictionaryKeepsFlag(o: V.Out)
    ensures V.NameDictionary(o).0.gzipVary == o.gzipVary
  {
  }

  lemma BypassNames(loc: Location, q: Request, o: V.Out, ctxOk: bool, name: Bytes)
    requires NameBypass(loc, q, o, ctxOk).rc == OK && name != []
    ensures loc.bypassVary != [] && V.Lists(loc.bypassVary, name) ==> VariesOn(loc, NameBypass(loc, q, o, ctxOk).out, name)
  {
    hide V.Named, V.Lists, NameRest;
    var p := if loc.bypassVary != [] then V.Pushed(o, loc.bypassVary).0 else o;
    RestNames(loc, q, p, ctxOk);
    if loc.bypassVary != [] && V.Lists(loc.bypassVary, name) {
      V.LineNames(o.headers, loc.bypassVary, name);
      NamedGrows(p.headers, NameBypass(loc, q, o, ctxOk).out.headers, name);
    }
  }

  /** The same decisions lead to the same headers, however much room is left for them. */
  lemma SameRest(loc: Location, q: Request, p: Request, o: V.Out, n: V.Out, c1: bool, c2: bool)
    requires o.headers == n.headers && NameRest(loc, q, o, c1).rc == OK && NameRest(loc, p, n, c2).rc == OK
    requires Bypassed(loc, q) == Bypassed(loc, p) && (!Bypassed(loc, q) ==> Chosen(loc, q) == Chosen(loc, p))
    ensures NameRest(loc, q, o, c1).coding == NameRest(loc, p, n, c2).coding
    ensures NameRest(loc, q, o, c1).out.headers == NameRest(loc, p, n, c2).out.headers
  {
    hide V.Named, Chosen, Bypassed;
  }

  lemma SameChoice(loc: Location, q: Request, p: Request)
    requires q.isMain == p.isMain && q.secure == p.secure
    requires Values(q.fields, AcceptEncoding.ACCEPT_ENCODING) == Values(p.fields, AcceptEncoding.ACCEPT_ENCODING)
    requires loc.dicts != [] ==>
               Values(q.fields, V.AVAILABLE_DICTIONARY) == Values(p.fields, V.AVAILABLE_DICTIONARY)
               && Values(q.fields, V.SEC_FETCH_SITE) == Values(p.fields, V.SEC_FETCH_SITE)
    ensures Chosen(loc, q) == Chosen(loc, p)
  {
  }

  /** Non-interference: a cache that keys a stored response on the fields its Vary names serves no one a coding
      they would not have been sent, whichever of the two requests filled it. */
  lemma CacheIsSafe(loc: Location, up: Upstream, q: Request, p: Request, o: V.Out, n: V.Out, c1: bool, c2: bool)
    requires BypassDeclared(loc) && q.isMain && p.isMain && q.uri == p.uri && q.secure == p.secure
    requires o.headers == n.headers
    requires Filtered(loc, up, q, o, c1).rc == OK && Filtered(loc, up, p, n, c2).rc == OK
    requires AgreeOnVary(loc, Filtered(loc, up, q, o, c1).out, q, p)
    ensures Filtered(loc, up, q, o, c1).coding == Filtered(loc, up, p, n, c2).coding
    ensures Filtered(loc, up, q, o, c1).out.headers == Filtered(loc, up, p, n, c2).out.headers
  {
    hide Chosen, NameRest, V.Lists, VariesOn, V.Named, Bypassed;
    if Eligible(loc, up, o.headers, true) {
      hide Eligible;
      var s := NameBypass(loc, q, o, c1);
      var o2 := if loc.bypassVary != [] then V.Pushed(o, loc.bypassVary).0 else o;
      var n2 := if loc.bypassVary != [] then V.Pushed(n, loc.bypassVary).0 else n;
      RestNames(loc, q, o2, c1);
      forall name: Bytes | name != [] && loc.bypassVary != [] && V.Lists(loc.bypassVary, name)
        ensures Values(q.fields, name) == Values(p.fields, name)
      {
        BypassNames(loc, q, o, c1, name);
      }
      assert AgreeOnList(loc.bypassVary, q, p);
      SameBypass(loc, q, p);
      if !Bypassed(loc, q) {
        SameChoice(loc, q, p);
      }
      SameRest(loc, q, p, o2, n2, c1, c2);
    }
  }

  lemma SameBypass(loc: Location, q: Request, p: Request)
    requires BypassDeclared(loc) && q.uri == p.uri && AgreeOnList(loc.bypassVary, q, p)
    ensures Bypassed(loc, q) == Bypassed(loc, p)
  {
  }

  // ----- the origin gate fails closed -----

  lemma {:induction false} ValuesPrepended(h: Field, fields: seq<Field>, name: Bytes)
    ensures Values([h] + fields, name)
         == if AcceptEncoding.SameName(h.name, name) then [h.value] + Values(fields, name) else Values(fields, name)
  {
    hide AcceptEncoding.SameName;
    var all := [h] + fields;
    if fields == [] {
      assert all[..0] == [];
    } else {
      var n := |fields| - 1;
      assert all[..|all| - 1] == [h] + fields[..n];
      ValuesPrepended(h, fields[..n], name);
    }
  }

  lemma OneNameOnly(name: Bytes, a: Bytes, b: Bytes)
    requires |a| != |b|
    ensures !(AcceptEncoding.SameName(name, a) && AcceptEncoding.SameName(name, b))
  {
  }

  /** A Sec-Fetch-Site line put in front of a request, whatever it says, never turns dcz on: what is negotiated
      with it would have been negotiated without it, and nothing is if the request had one already. A second
      Available-Dictionary line turns dcz off. */
  lemma ExtraLineNeverEnables(loc: Location, q: Request, h: Field)
    ensures AcceptEncoding.SameName(h.name, V.SEC_FETCH_SITE) && Negotiated(loc, q.(fields := [h] + q.fields)).Some? ==>
              && Negotiated(loc, q.(fields := [h] + q.fields)) == Negotiated(loc, q)
              && Values(q.fields, V.SEC_FETCH_SITE) == [] && SiteOk(h.value)
    ensures AcceptEncoding.SameName(h.name, V.AVAILABLE_DICTIONARY) && Values(q.fields, V.AVAILABLE_DICTIONARY) != [] ==>
              Negotiated(loc, q.(fields := [h] + q.fields)) == None
  {
    hide AcceptEncoding.SameName, SiteOk, DczDigest.Selected;
    ValuesPrepended(h, q.fields, V.SEC_FETCH_SITE);
    ValuesPrepended(h, q.fields, V.AVAILABLE_DICTIONARY);
    ValuesPrepended(h, q.fields, AcceptEncoding.ACCEPT_ENCODING);
    OneNameOnly(h.name, V.SEC_FETCH_SITE, V.AVAILABLE_DICTIONARY);
    OneNameOnly(h.name, V.SEC_FETCH_SITE, AcceptEncoding.ACCEPT_ENCODING);
  }

  /** dcz is served only to a client that asked for it by name, over a secure context, and that holds the very
      dictionary used: the one digest it announced is that dictionary's hash. */
  lemma DczIsAskedFor(loc: Location, q: Request)
    ensures Chosen(loc, q).Dcz? ==>
              && (q.secure || loc.assumeSecure)
              && FieldLines.NamedIn(Values(q.fields, AcceptEncoding.ACCEPT_ENCODING), DCZ)
              && |Values(q.fields, V.AVAILABLE_DICTIONARY)| == 1
              && Chosen(loc, q).dict < |loc.dicts|
              && DczDigest.DigestOf(Octets(Values(q.fields, V.AVAILABLE_DICTIONARY)[0]))
                   == DczDigest.Digest(loc.dicts[Chosen(loc, q).dict].hash)
  {
    hide FieldLines.ChainWeight, FieldLines.NamedIn, DczDigest.DigestOf, Values;
    FieldLines.OnlyNamedCodings(Values(q.fields, AcceptEncoding.ACCEPT_ENCODING), DCZ);
    if Negotiated(loc, q).Some? {
      var raw := Octets(Values(q.fields, V.AVAILABLE_DICTIONARY)[0]);
      assert Negotiated(loc, q) == DczDigest.Selected(loc.dicts, raw);
      assert DczDigest.DigestOf(raw).Digest?;
      assert DczDigest.Finds(loc.dicts, DczDigest.DigestOf(raw).hash, Negotiated(loc, q));
    }
  }

  /** So the field has to be in Vary: with a cross-site line in front, the same request is not served dcz. */
  lemma SiteDecides(loc: Location, q: Request, h: Field)
    requires Chosen(loc, q).Dcz? && AcceptEncoding.SameName(h.name, V.SEC_FETCH_SITE) && !SiteOk(h.value)
    ensures !Chosen(loc, q.(fields := [h] + q.fields)).Dcz?
    ensures Values([h] + q.fields, V.AVAILABLE_DICTIONARY) == Values(q.fields, V.AVAILABLE_DICTIONARY)
    ensures Values([h] + q.fields, AcceptEncoding.ACCEPT_ENCODING) == Values(q.fields, AcceptEncoding.ACCEPT_ENCODING)
  {
    hide AcceptEncoding.SameName, SiteOk, Negotiated;
    ExtraLineNeverEnables(loc, q, h);
    ValuesPrepended(h, q.fields, V.AVAILABLE_DICTIONARY);
    ValuesPrepended(h, q.fields, AcceptEncoding.ACCEPT_ENCODING);
    OneNameOnly(h.name, V.SEC_FETCH_SITE, V.AVAILABLE_DICTIONARY);
    OneNameOnly(h.name, V.SEC_FETCH_SITE, AcceptEncoding.ACCEPT_ENCODING);
  }
}
