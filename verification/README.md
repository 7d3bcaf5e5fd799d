# Verification of the nginx zstd module

A Dafny model of the parts of the module whose correctness rests on state machines, cursors and arithmetic, with
proofs about every input, every run or every reachable state.

The source's objects are classes here, its loops are loops with invariants, and its cursors are indices into
byte sequences. Where a method is long, its effect is a function of the state (a *step*), the method is proved equal
to the step, and the laws are lemmas about the step. Whatever the module does not decide itself is arbitrary: the
encoder is any encoder that obeys the documented contract of `ZSTD_compressStream2`; the next filter takes or holds
back any amount; allocations fail whenever they like; reads are short or interrupted; the file system under the
strict walk may change between two calls; libzstd's memory estimates are any figures.

| file | what it models |
|---|---|
| `Basics.dfy` | types used everywhere |
| `Encoder.dfy` | the encoder's contract |
| `BodyFilter.dfy` | the streaming body filter and whole runs of it |
| `AcceptEncoding.dfy`, `AcceptEncodingWalk.dfy`, `AcceptEncodingLaws.dfy` | the Accept-Encoding parser: its scans as functions, its cursors, its laws |
| `AcceptEncodingGrammar.dfy` | the grammar of the field, printed, and that the parser reads it |
| `AcceptEncodingJoin.dfy` | what a comma and more text behind a value can do to its parse |
| `FieldLines.dfy` | several Accept-Encoding lines, and when they equal one joined line |
| `FuzzOracle.dfy` | the independent decision procedure the parser must agree with |
| `FrameProbe.dfy`, `StaticRead.dfy`, `StaticProbe.dfy` | the frame-header arithmetic, the read loop, the scratch buffer and the frame walk for static `.zst` files |
| `VerdictCache.dfy` | the ring of probe verdicts |
| `CctxRing.dfy` | the worker's ring of compression contexts and its packed keys |
| `Vary.dfy`, `CacheControl.dfy`, `DczDigest.dfy`, `HeaderFilter.dfy` | negotiation: the Vary helpers, no-transform, the dictionary digest, and the header filter |
| `Ratio.dfy`, `Sha256.dfy`, `DczWindow.dfy` | exact arithmetic, hashing, window sizing |
| `DictFile.dfy`, `StrictWalk.dfy` | reading a dictionary and opening its path component by component |

Facts worth knowing before reading on:

- Field lines do not always weigh what their comma-joined value weighs. A line that leaves a quoted-string open
  swallows the next one; and in a line like `zstd;"="` a DQUOTE in a parameter name leaves the parameter walk inside a
  quoted-string at the end of the element, so that it reads on in the next line.
  `FieldLines.JoinIsExact` gives the exact condition, `Joinable`, for every coding and wildcard setting, and
  `AcceptEncodingJoin.ShutIsExact` the one for a single element. `FieldLines.QuotedNameCounterexample` is a concrete pair.
- The transition to END that `filter_compress` has after a non-END call is dead: `BodyFilter.NoLateTransition`.
- `CctxRing.AcquireAfterExitWouldShare` shows what would go wrong if a request acquired a context after
  `exit_process`; the model therefore ends acquisition there, as the worker does.
- `DczDigest.AcceptedIsEncoding` shows how strict the digest decoder is: everything but two bits of the last symbol
  is determined. `DczDigest.UnpaddedDecodesTo33` shows why its buffer is larger than a digest.
- Past 2^64 bits FIPS 180-4 defines no padding; the streaming hash takes the length modulo 2^64 there, and so does
  `Sha256.Pad`.
- A short direct read that completes no block makes the static probe decline a sound file as malformed, and that
  verdict is remembered without expiry: `StaticProbe.SoundFileDeclined` shows it on a six-byte file, and
  `VerdictCache.Cache.Lookup` that it is then returned at any age. It takes direct I/O: `StaticProbe.MalformedIsRightWhenBuffered`
  proves that "malformed" is right for every file and every behaviour of its reads exactly when the file is not opened
  directly, and `StaticProbe.VerdictIsRight` that with direct I/O it is right whenever the deciding read did not stall
  short of the frame header.
- A flush can pass without the flush flag reaching the next filter, although all of its bytes have: e_continue may have
  written everything already, into buffers without the flag, before a flush link without content follows.
  `BodyFilter.FlushUntold` is that case. `BodyFilter.FlushIsTold` is the exact condition over a whole flush: the next
  filter is told if and only if one of the encoder's calls writes a byte or the current buffer already holds one. Unfed
  input or bytes held back in the encoder are enough.

## Model

| member | source | states |
|---|---|---|
| Encoding.Encoder.CompressStream2 | src/ngx_http_zstd_filter_module.c:2756-2930 | any answer the documented contract of the encoder allows: nothing held back is lost, a positive return is a minimum of what is held, and e_flush or e_end returning 0 leaves nothing held; calling it after the frame is closed, or with e_end while input is queued, is ruled out |
| BodyFilter.Run | src/ngx_http_zstd_filter_module.c:2461-3241 | over every sequence of callbacks, chain splitting, stall and encoder answer: input bytes are fed in order, output is the dcz prefix once and then the encoder's output, no byte after a flush link is fed before an e_flush call returned 0, one last_buf on the final buffer after e_end returned 0; NGX_OK after the last link means all of it is downstream, NGX_OK earlier means everything given was fed and flushed, everything produced was sent and, with no byte after the last flush, nothing is held back in the encoder, NGX_AGAIN means output is in flight; without a fault (a refused allocation, an encoder error, an error downstream) and within `zstd_max_length`, if one is set, the stream is never given up |
| BodyFilter.Finish | src/ngx_http_zstd_filter_module.c:2461-2689 | after the last link, if downstream has always drained something of what was in flight when it is called again, finitely many callbacks end the stream, complete downstream unless one of them failed; under the same conditions as in `Run` none fails |
| BodyFilter.Respond | src/ngx_http_zstd_filter_module.c:2461-2689 | one response from its first chain to its last drained buffer: without a fault, and with no `zstd_max_length` or a body within it, everything is fed, closed and downstream |
| BodyFilter.Conclude | src/ngx_http_zstd_filter_module.c:2461-3241 | those guarantees follow from what holds between any two callbacks |
| BodyFilter.Callback | src/ngx_http_zstd_filter_module.c:2461-2689 | each callback re-establishes what holds between callbacks |
| BodyFilter.ValidMeansSafe | src/ngx_http_zstd_filter_module.c:2461-3141 | the invariant implies safety of everything fed and sent so far, also after a failure, and completeness once done |
| BodyFilter.Filter.Body | src/ngx_http_zstd_filter_module.c:2461-2689 | the re-entrant callback: terminates, keeps the invariant, passes chains through untouched after the end, never reports NGX_OK with work left nor NGX_AGAIN without output in flight; after the last link an unfinished stream waits for a buffer, and each callback leaves strictly less work unless nothing in flight had drained; it fails only on a fault or because the body is longer than a `zstd_max_length` that is set |
| BodyFilter.Filter.Process | src/ngx_http_zstd_filter_module.c:2526-2689 | the same for a live stream, including recovery from a full set of buffers |
| BodyFilter.Filter.Cycle | src/ngx_http_zstd_filter_module.c:2557-2689 | the nested loops terminate by the lexicographic measure (input left, output owed, pending flags, flush) and leave the filter idle, waiting for downstream, done or failed |
| BodyFilter.Filter.Fill | src/ngx_http_zstd_filter_module.c:2557-2624 | the inner loop stops only when drained, out of buffers with output queued or in flight, finished or failed |
| BodyFilter.Filter.Pump | src/ngx_http_zstd_filter_module.c:2567-2624 | one turn feeds no byte beyond zstd_max_length, keeps every invariant and leaves strictly less work; it fails only on a fault or when the bytes it was given exceed a `zstd_max_length` that is set |
| BodyFilter.Filter.Compress | src/ngx_http_zstd_filter_module.c:2693-3141 | the chosen directive, the encoder's answer and the new state agree with the step function |
| BodyFilter.Filter.Emit | src/ngx_http_zstd_filter_module.c:2984-3141 | what is queued, flagged and cleared, for empty, full and terminal buffers |
| BodyFilter.Filter.Apply | src/ngx_http_zstd_filter_module.c:2890-2982 | positions and action state after an answer; the late transition arm is unreachable |
| BodyFilter.Filter.AddData | src/ngx_http_zstd_filter_module.c:3145-3241 | one link is dequeued, retained links first, only when nothing is left to feed or flush |
| BodyFilter.Filter.GetBuf | src/ngx_http_zstd_filter_module.c:3276-3525 | keeps, reuses or allocates a buffer, or declines; the dcz prefix goes into the first buffer only; only a first buffer may be smaller than configured |
| BodyFilter.FirstBufferSize | src/ngx_http_zstd_filter_module.c:3276-3400 | for a pledged length below the ceiling of the encoder the first buffer has its compression bound and 64 bytes, but 256 at least and the configured size at most; otherwise the configured size |
| BodyFilter.Filter.CopyInput | src/ngx_http_zstd_filter_module.c:2433-2458 | retains exactly the unconsumed links, in order, or fails |
| BodyFilter.Filter.UpdateChains | src/ngx_http_zstd_filter_module.c:2626-2674 | queued buffers are now in flight and a drained head of them is free again |
| BodyFilter.Filter.Deliver | src/ngx_http_zstd_filter_module.c:2626-2674 | delivery loses no byte and no buffer, and any kept output buffer that is dropped was empty |
| BodyFilter.Filter.Suspend | src/ngx_http_zstd_filter_module.c:2606-2689 | leaving the loops keeps the unconsumed chain and reports whether output is in flight |
| BodyFilter.AddDataKeeps | src/ngx_http_zstd_filter_module.c:3145-3241 | dequeuing keeps the input invariant (bytes in order, flush points, running cap) and uses up input |
| BodyFilter.FlushPointsOfPrefix | src/ngx_http_zstd_filter_module.c:3195-3215 | a flush asked for inside the bytes already dequeued cannot be changed by links queued later |
| BodyFilter.GetBufKeeps | src/ngx_http_zstd_filter_module.c:3276-3525 | each live buffer stays in exactly one place; a new one is made only when none is free and fewer than configured exist, and declining means that all of them do and that output is queued or in flight |
| BodyFilter.CompressKeeps | src/ngx_http_zstd_filter_module.c:2693-3141 | one encoder call keeps every invariant, or fails safely; END is chosen exactly for the final input; no buffer is filled beyond its size |
| BodyFilter.CompressOutput | src/ngx_http_zstd_filter_module.c:2984-3141 | what was queued and sent remains prefix plus encoder output, with last_buf only on the final buffer |
| BodyFilter.CompressShape | src/ngx_http_zstd_filter_module.c:2932-3141 | one call queues at most the current buffer with the new bytes appended; it is flagged for a flush exactly when the call completes one, so no other buffer carries the flag |
| BodyFilter.HeldBackIsAskedFor | src/ngx_http_zstd_filter_module.c:2745-2765 | after a positive return e_continue is not used again before e_flush, or e_end, has returned 0 |
| BodyFilter.CompressProgress | src/ngx_http_zstd_filter_module.c:2902-3140 | every non-terminal encoder call decreases the measure: no livelock on empty flushes or a zero-output end |
| BodyFilter.DeliverBuffers | src/ngx_http_zstd_filter_module.c:2626-2674 | delivery and recycling keep every live buffer in exactly one chain, and at least one survives |
| BodyFilter.DeliverKeeps | src/ngx_http_zstd_filter_module.c:2626-2674 | the whole invariant survives delivery, whatever part of the output has drained |
| BodyFilter.EndIsFinal | src/ngx_http_zstd_filter_module.c:2717-2753 | no e_end call is made while input is queued behind it |
| BodyFilter.NoLateTransition | src/ngx_http_zstd_filter_module.c:2930-2982 | the guard of the late COMPRESS-to-END transition never holds |
| BodyFilter.IdleMeansMoreToCome | src/ngx_http_zstd_filter_module.c:2461-2689 | an idle filter has fed every byte, done every flush and sent every byte, and cannot have received the last link |
| BodyFilter.FlushIsToldWithBytes | src/ngx_http_zstd_filter_module.c:3028-3087 | a call that completes a flush hands on a buffer with the flush flag if and only if that buffer holds bytes |
| BodyFilter.FlushIsTold | src/ngx_http_zstd_filter_module.c:2754-3087 | over all calls of a flush, whatever is delivered and queued between them: a buffer with the flush flag is handed on if and only if some call writes a byte or the current buffer held bytes before; input left to feed or bytes held back suffice |
| BodyFilter.DeliveryResumes | src/ngx_http_zstd_filter_module.c:2626-2674 | delivering the queued buffers, or none, and getting the next one leads to the state in which the next call of a flush is made |
| BodyFilter.FlushUntold | src/ngx_http_zstd_filter_module.c:3028-3087 | after an e_continue call that took and wrote everything, a flush link without content completes, and no buffer carries the flag |
| BodyFilter.Filter.DoneIsFinal | src/ngx_http_zstd_filter_module.c:2461-2500 | once the stream has ended, no further link can carry content of it |
| AcceptEncodingWalk.SkipQuotedAt | src/ngx_http_zstd_accept_encoding.h:76-96 | the cursor passes exactly one quoted-string, quoted-pairs included |
| AcceptEncodingWalk.ParseFraction | src/ngx_http_zstd_accept_encoding.h:111-149 | up to three decimals, scaled, and the position after them |
| AcceptEncodingWalk.EvalQvalueAt | src/ngx_http_zstd_accept_encoding.h:174-335 | weight and resume position of a parameterised element, for well-formed and malformed weights alike |
| AcceptEncodingWalk.CodingWeightEx | src/ngx_http_zstd_accept_encoding.h:366-490 | the single-pass walk returns the effective weight and both raw weights that the value determines |
| AcceptEncodingLaws.ResumeIsExact | src/ngx_http_zstd_accept_encoding.h:160-335 | skipping on from where the weight parser stopped leads to the same comma as a quote-aware skip from the ';', malformed weights and DQUOTE in a parameter name included |
| AcceptEncodingLaws.ElementEndsAtComma | src/ngx_http_zstd_accept_encoding.h:366-490 | every element ends at the comma a plain quote-aware scan finds |
| AcceptEncodingLaws.WeightsInRange | src/ngx_http_zstd_accept_encoding.h:366-490 | every recorded weight is in -1..1000 |
| AcceptEncodingJoin.ParamsMore | src/ngx_http_zstd_accept_encoding.h:173-335 | with a comma and more text appended, the parameter walk either ends as before, or, exactly if it ended inside a quoted-string it had opened, goes on in that text |
| AcceptEncodingJoin.ShutIsExact | src/ngx_http_zstd_accept_encoding.h:173-490 | what an element records is the same whatever follows its comma, whatever was recorded before and whichever the coding, if and only if its parameter walk ends outside quotes |
| AcceptEncodingJoin.WalkMore | src/ngx_http_zstd_accept_encoding.h:366-490 | a joined value whose first part closes its quotes is parsed as its parts in turn, but for the elements whose walk ended inside quotes, which all meet the one fate the second part decides |
| AcceptEncodingJoin.WalkSwallows | src/ngx_http_zstd_accept_encoding.h:366-490 | a part that leaves a quoted-string open swallows what follows, if that has no DQUOTE |
| AcceptEncodingJoin.SteadyAlways | src/ngx_http_zstd_accept_encoding.h:366-490 | if none of three texts can change what a line says about a coding, no text can |
| AcceptEncodingGrammar.QvalueIsGrammar | src/ngx_http_zstd_accept_encoding.h:100-335 | the weight reader and the check behind it accept exactly the qvalues of section 12.4.2 of RFC 9110, and read each as the number it denotes |
| AcceptEncoding.MalformedWeight | src/ngx_http_zstd_accept_encoding.h:173-335 | a "q" without its "=", or a second one, spoils the element |
| AcceptEncodingGrammar.ListReads | src/ngx_http_zstd_accept_encoding.h:366-490 | every list written as section 12.5.3 says, with any white space and empty elements, is read as the weights it states, a later one over an earlier |
| AcceptEncodingGrammar.ListWeighs | src/ngx_http_zstd_accept_encoding.h:366-490 | what such a list says about a coding, read off the list: the weight of the last element of that name; without one, the weight of the last "*" when the wildcard is on, and none when it is off |
| FieldLines.ChainCodingWeight | src/ngx_http_zstd_accept_encoding.h:574-625 | the walk over chained lines folds the weights of all lines |
| FieldLines.ListCodingWeight | src/ngx_http_zstd_accept_encoding.h:636-694 | the pre-1.23 walk over the header list gives the same weight as the chain of its Accept-Encoding lines |
| FieldLines.ChainIsJoin | src/ngx_http_zstd_accept_encoding.h:573-694 | section 5.3 of RFC 9110: the weight over several lines is that of the comma-joined line, for any coding and wildcard setting, when every line but the last is joinable |
| FieldLines.JoinIsExact | src/ngx_http_zstd_accept_encoding.h:573-694 | a line may be followed by every other line, for a given coding and wildcard setting, if and only if it is joinable: it closes its quotes, and no fate of its open elements changes what it says about the coding |
| FieldLines.ShutIsJoinable | src/ngx_http_zstd_accept_encoding.h:573-694 | a closed line whose parameter walks all end outside quotes is joinable for every coding |
| FieldLines.ClosedIsExact | src/ngx_http_zstd_accept_encoding.h:573-694 | among lines without a DQUOTE in a parameter name, exactly those that close their quotes may be followed by every other line, for any coding |
| FieldLines.OnlyNamedCodings | src/ngx_http_zstd_accept_encoding.h:573-694 | with the wildcard off, a coding has a weight only when some line names it |
| FieldLines.LinesWeigh | src/ngx_http_zstd_accept_encoding.h:573-694 | the same over several such lines: the last element of that name in any line, or else the last "*" |
| FieldLines.WildcardStandsIn | src/ngx_http_zstd_accept_encoding.h:573-694 | for any lines at all, turning the wildcard on never changes a weight that is there |
| FieldLines.QuotedNameCounterexample | src/ngx_http_zstd_accept_encoding.h:173-335 | two concrete lines, the first closed but with a DQUOTE in a parameter name, weigh 1000 apart and 0 joined |
| FuzzOracle.ParserAgreesWithOracle | ci/fuzz/fuzz_accept_encoding.c:64-279 | on every byte string, whenever the oracle is confident, the parser accepts exactly when the oracle does |
| FuzzOracle.RefAcceptsLoop | ci/fuzz/fuzz_accept_encoding.c:64-279 | the oracle's nested loops compute the decision procedure compared with the parser |
| FuzzOracle.WalkAgrees | ci/fuzz/fuzz_accept_encoding.c:64-279 | parser and oracle record the same weights element by element |
| FrameProbe.ProbeIsStable | src/ngx_http_zstd_frame_probe.h:127-287 | eighteen header bytes decide: further bytes never change a verdict |
| FrameProbe.ProbeIsMonotone | src/ngx_http_zstd_frame_probe.h:127-287 | a verdict reached on a short prefix is never revised, except "truncated" |
| FrameProbe.ProbeOfHeader | src/ngx_http_zstd_frame_probe.h:127-287 | on every encoded frame header (section 3.1.1.1 of RFC 8878) the probe reads the declared window, 2^(7+e) * (8+m) for exponent e and mantissa m, or the content size of a single segment behind a dictionary id of 0, 1, 2 or 4 bytes, accepting it exactly up to 8 MB with the reserved bit clear |
| FrameProbe.AcceptedDescriptors | src/ngx_http_zstd_frame_probe.h:210-230 | a frame with a window descriptor is accepted if and only if the reserved bit is clear and the descriptor is at most 104 |
| FrameProbe.ProbeOfSkippable | src/ngx_http_zstd_frame_probe.h:169-189 | a skippable frame of any of the sixteen magics is skipped by its own length |
| FrameProbe.MagicDecides | src/ngx_http_zstd_frame_probe.h:127-189 | four bytes tell what is no frame: neither the zstd magic nor one of the sixteen skippable ones |
| FrameProbe.ProbeOfDczPrefix | src/ngx_http_zstd_frame_probe.h:169-189 | the 40-byte dcz prefix is the magic 5E 2A 4D 18, the length 32 and the hash, and reads as one skippable frame of that length |
| FrameProbe.Reuse | src/ngx_http_zstd_frame_probe.h:291-310 | a block is reused exactly when it covers the whole next header, at the right offset |
| StaticProbe.ServableMeansChain | src/ngx_http_zstd_static_module.c:1036-1118 | the reference walker accepts exactly the files that start with at most four skippable frames, end to end, and then a regular frame in bounds |
| StaticRead.StaticPread | src/ngx_http_zstd_static_module.c:454-655 | the read loop returns true file bytes, as many as the answers of the file system make of it, without direct I/O all that is asked for and available; keeps every resumed offset and length block-aligned; and terminates on sub-block stalls and interruptions |
| StaticRead.ResultsOfPread | src/ngx_http_zstd_static_module.c:454-655 | through any short reads and interruptions the result is everything asked for and available, or a hard error, or under direct I/O a count that ends inside a block |
| StaticRead.EveryResultHappens | src/ngx_http_zstd_static_module.c:454-655 | each of those results is the one of some behaviour of the file system |
| StaticProbe.Scratch.Acquire | src/ngx_http_zstd_static_module.c:735-768 | the buffer is large enough and aligned, and never the one in use; an idle one is lent, as it is if it will do, and a private one made only while it is busy or cannot be grown |
| StaticProbe.LoadHeader | src/ngx_http_zstd_static_module.c:1136-1400 | after a reuse or a read the buffer holds the file's bytes at the frame, and without direct I/O all of the header whatever the short reads |
| StaticProbe.WalkFrames | src/ngx_http_zstd_static_module.c:1136-1457 | the loop over the frames comes to the verdict that the answers to its reads determine: it serves only servable files, and without direct I/O calls malformed only those that are not |
| StaticProbe.VerdictIsRight | src/ngx_http_zstd_static_module.c:1136-1457 | for every file and every behaviour of its reads: what is served is servable; what is called malformed is not, unless the deciding read stalled short of the header, which takes direct I/O; neither verdict takes a hard error |
| StaticProbe.SameVerdict | src/ngx_http_zstd_static_module.c:1136-1457 | with no error and no stall the verdict is the same with and without direct I/O, however reads are split and blocks reused |
| StaticProbe.OneByteStalls | src/ngx_http_zstd_static_module.c:592-652 | under direct I/O a one-byte read makes any file malformed |
| StaticProbe.SoundFileDeclined | src/ngx_http_zstd_static_module.c:592-652 | a servable file of six bytes, and a direct read of four of them that gets it declined as malformed |
| StaticProbe.MalformedIsRightWhenBuffered | src/ngx_http_zstd_static_module.c:1136-1457 | every malformed verdict is right, over all files and all reads, if and only if the file is not opened with direct I/O |
| StaticProbe.ServableMayBeDeclined | src/ngx_http_zstd_static_module.c:1136-1457 | each servable file can be called malformed if and only if it is opened with direct I/O |
| StaticProbe.ProbeFile | src/ngx_http_zstd_static_module.c:1136-1457 | the whole probe serves only servable files, blames a file only if it is not servable or a direct read stalled, declines without blame only after a hard error, and gives back the scratch buffer |
| VerdictCache.Cache.Lookup | src/ngx_http_zstd_static_module.c:873-916 | a verdict returned was recorded by a probe of the same identity, and a GOOD one is younger than the validity and not from the future; only stale entries of that identity are retired; a BAD one is returned at any age, as long as it stays in the ring; a GOOD one that is young and of this identity is returned |
| VerdictCache.Cache.Remember | src/ngx_http_zstd_static_module.c:925-960 | at most one live entry per identity, while the ring fills the cursor is the count and later slots are empty, and what is recorded is true of the file as it was probed; it takes the slot at the cursor, which goes round |
| VerdictCache.Cache.Decide | src/ngx_http_zstd_static_module.c:1812-1874 | lookup, probe and remember, over any run: what is served, from the cache or not, was servable when a probe of that identity read it; what is declined as malformed was not, unless it was read directly; a request goes without a verdict only when memory or a read failed, and a verdict is left in the ring |
| VerdictCache.RetireKeepsUnique | src/ngx_http_zstd_static_module.c:873-916 | retiring entries cannot make an identity live twice |
| VerdictCache.RecordKeepsUnique | src/ngx_http_zstd_static_module.c:925-960 | recording at the cursor keeps identities unique if the identity was not live |
| CctxRing.UnpackInverts | src/ngx_http_zstd_filter_module.c:1270-1331 | unpacking inverts packing exactly on the domain, and INVALID stands for everything outside it |
| CctxRing.PackIsInjective | src/ngx_http_zstd_filter_module.c:1270-1369 | equal valid keys mean equal level, long mode and window |
| CctxRing.SameProfile | src/ngx_http_zstd_filter_module.c:1354-1360 | requests with the same valid key have the same level, the same long mode and the same window |
| CctxRing.Request.DczWlog | src/ngx_http_zstd_filter_module.c:3600-3625 | the memoised window is the request's window, computed at most once |
| CctxRing.Request.AppliedWindow | src/ngx_http_zstd_filter_module.c:3850-3908 | the window set on the context is the one its ring key was packed with |
| CctxRing.Worker.FindSlot | src/ngx_http_zstd_filter_module.c:3629-3683 | one walk finds the first idle slot of the profile, and failing that the first empty slot |
| CctxRing.Worker.Acquire | src/ngx_http_zstd_filter_module.c:3571-3722 | success lends an idle context of exactly this profile if there is one, else creates and possibly caches one; the context lent was built for the level, the long mode and the window that this request asks for; failure changes nothing; it fails exactly when a pool cleanup or a context cannot be had |
| CctxRing.Worker.Return | src/ngx_http_zstd_filter_module.c:6059-6102 | gives back what is held, once, frees only an uncached context, and leaves an exited slot alone |
| CctxRing.Worker.ExitProcess | src/ngx_http_zstd_filter_module.c:6180-6192 | frees every cached context, lent or not, each exactly once |
| CctxRing.EveryRunIsSafe | src/ngx_http_zstd_filter_module.c:3571-3722 | over every interleaving of acquire, return and exit: the invariant holds at every point and a seeded slot never changes its profile or its context before the exit |
| CctxRing.StepKeeps | src/ngx_http_zstd_filter_module.c:3571-3722 | each step of the worker keeps the invariant and settles slots |
| CctxRing.NoContextIsShared | src/ngx_http_zstd_filter_module.c:3571-3722 | no context is lent to two live requests, nor freed while held before the exit |
| CctxRing.BuiltAsAsked | src/ngx_http_zstd_filter_module.c:3595-3722 | over every run: the context that a request holds was built for its own level, long mode and window |
| CctxRing.BusySlotHasOneBorrower | src/ngx_http_zstd_filter_module.c:3629-3722 | each busy slot has exactly one borrower, which carried the slot's valid profile |
| CctxRing.LendKeeps | src/ngx_http_zstd_filter_module.c:3629-3683 | lending an idle context keeps the invariant |
| CctxRing.SeedKeeps | src/ngx_http_zstd_filter_module.c:3685-3715 | seeding an empty slot keeps the invariant |
| CctxRing.CreateKeeps | src/ngx_http_zstd_filter_module.c:3685-3722 | a context kept outside the ring keeps the invariant |
| CctxRing.GiveBackKeeps | src/ngx_http_zstd_filter_module.c:6059-6095 | returning keeps the invariant and frees nothing already freed |
| CctxRing.ExitKeeps | src/ngx_http_zstd_filter_module.c:6180-6192 | exit keeps the invariant and frees nothing already freed |
| CctxRing.AcquireAfterExitWouldShare | src/ngx_http_zstd_filter_module.c:6160-6192 | a concrete state in which seeding after exit and a late return would leave a lent slot idle |
| Vary.FindTokens | src/ngx_http_zstd_common.h:161-263 | one early-exit walk for several tokens finds, for each, exactly what the list syntax says the response names |
| Vary.ListNamesItsMembers | src/ngx_http_zstd_common.h:161-263 | of a printed list, exactly the members are named, in any case and with any white space around them |
| Vary.EveryValueIsAList | src/ngx_http_zstd_common.h:161-263 | every value is such a list |
| Vary.VaryLine | src/ngx_http_zstd_common.h:177-195 | the lines that count are those named Vary, letter by letter in either case, and not removed |
| Vary.ScanValue | src/ngx_http_zstd_common.h:203-262 | one value: a token is found exactly when it is a member of the comma-separated list |
| Vary.Response.VaryAcceptEncoding | src/ngx_http_zstd_common.h:373-393 | Accept-Encoding is named once, by nginx or by a line of the module's own |
| Vary.Response.VaryDcz | src/ngx_http_zstd_common.h:293-317 | only what is missing of the two dictionary dimensions is pushed |
| Vary.Response.VaryAeDcz | src/ngx_http_zstd_common.h:440-504 | the fused helper leaves the same headers, flag and result as the two helpers in turn, allocation failures included |
| Vary.EncodingNames | src/ngx_http_zstd_common.h:373-393 | on success Accept-Encoding is named, nothing named before is lost and nothing else is added |
| Vary.DictionaryNames | src/ngx_http_zstd_common.h:293-317 | on success both dictionary dimensions are named, and nothing else is added |
| Vary.MissingIsPushed | src/ngx_http_zstd_common.h:293-393 | a line pushed lists exactly the dimensions that were missing |
| Vary.RoomSuffices | src/ngx_http_zstd_common.h:293-504 | a helper fails only when a header cannot be allocated |
| Vary.NothingTwice | src/ngx_http_zstd_common.h:373-504 | after success, calling any helper again pushes nothing |
| Vary.DictionaryNotTwice | src/ngx_http_zstd_common.h:293-317 | the same for the dictionary helper alone, also after a later Accept-Encoding line |
| CacheControl.DirectiveEnd | src/ngx_http_zstd_cache_control.h:44-84 | the single scan finds the two ends that two quote-aware scans would |
| CacheControl.NoTransform | src/ngx_http_zstd_cache_control.h:88-136 | found exactly when some directive of the value has that name |
| CacheControl.JoinedForbids | src/ngx_http_zstd_cache_control.h:88-136 | a joined list forbids exactly when one of its parts does, if the first closes its quotes |
| CacheControl.ArgumentIsIgnored | src/ngx_http_zstd_cache_control.h:44-136 | no-transform counts in any case, alone or with any argument |
| CacheControl.QuotedIsNoDirective | src/ngx_http_zstd_cache_control.h:44-136 | whatever a quoted argument spells is no directive |
| CacheControl.ListForbids | src/ngx_http_zstd_cache_control.h:44-136 | of a printed list of directives with any arguments, quoted-strings and quoted-pairs included, exactly the names decide |
| DczDigest.RoundTrip | ci/fuzz/ngx_shim.h:211-292 | decoding inverts the base64 encoding of section 4 of RFC 4648, for every octet string |
| DczDigest.AlphabetIsStandard | ci/fuzz/ngx_shim.h:211-292 | the sixty-four symbols are those of table 1 of RFC 4648, in its order |
| DczDigest.DecodeBase64 | ci/fuzz/ngx_shim.h:211-292 | decodes in place, or refuses; nothing beyond the decoded length of the source is written |
| DczDigest.DecodeDigest | src/ngx_http_zstd_filter_module.c:2051-2081 | at most 33 octets are written on any input, none when the framing is malformed |
| DczDigest.DigestRoundTrip | src/ngx_http_zstd_filter_module.c:2051-2081 | the colon-delimited encoding of every 32-byte hash decodes to that hash |
| DczDigest.DigestShape | src/ngx_http_zstd_filter_module.c:2051-2081 | accepted if and only if 43 symbols and one pad stand between two colons |
| DczDigest.AcceptedIsEncoding | src/ngx_http_zstd_filter_module.c:2051-2081 | an accepted value is the encoding of its digest, but for two unused bits of the last symbol |
| DczDigest.UnpaddedDecodesTo33 | src/ngx_http_zstd_filter_module.c:2019-2081 | 44 symbols without a pad decode, to 33 octets |
| DczDigest.AddDict | src/ngx_http_zstd_filter_module.c:6661-6712 | a dictionary is registered with its 40-byte prefix, the dcz magic followed by its hash, unless its hash is there already |
| DczDigest.CompareIsMemcmp | src/ngx_http_zstd_filter_module.c:2097-2106 | the first octet that differs orders two hashes, unsigned |
| DczDigest.BinarySearch | src/ngx_http_zstd_filter_module.c:2145-2170 | on sorted dictionaries, finds a member and nothing else |
| DczDigest.Lookup | src/ngx_http_zstd_filter_module.c:2137-2181 | the linear and the binary path both find a member and nothing else |
| DczDigest.PermutationOk | src/ngx_http_zstd_filter_module.c:2097-2117 | sorting keeps the dictionaries distinct and well-formed |
| DczDigest.Select | src/ngx_http_zstd_filter_module.c:2051-2181 | decode and lookup together select the dictionary of the announced digest, if any |
| DczDigest.AnnouncedIsSelected | src/ngx_http_zstd_filter_module.c:2051-2181 | however the dictionaries were sorted, announcing a registered hash selects exactly its dictionary, whose prefix reads as one skippable frame of 32 bytes; any other hash selects none |
| HeaderFilter.CollectDczHeaders | src/ngx_http_zstd_filter_module.c:1935-1981 | one walk yields the first value and the number of lines of both fields |
| HeaderFilter.Negotiate | src/ngx_http_zstd_filter_module.c:2185-2361 | the gates in the source's order decide as the negotiation rule does |
| HeaderFilter.CacheControlNoTransform | src/ngx_http_zstd_cache_control.h:140-173 | found exactly when some active Cache-Control line forbids transformation |
| HeaderFilter.Exchange.HeaderFilter | src/ngx_http_zstd_filter_module.c:1591-1896 | the filter's headers, result and coding are those of the decision; the length is pledged and withdrawn, ranges and the strong validator are withdrawn, and gzip latched off, exactly when a coding is applied; when one is, the line pushed last is Content-Encoding, "dcz" exactly with a dictionary and "zstd" without |
| HeaderFilter.AppliedIsLabelled | src/ngx_http_zstd_filter_module.c:1850-1896 | a coding is applied exactly when one Content-Encoding line says so, "dcz" with a dictionary and else "zstd"; the request weighs what it says above zero, by "*" only for zstd, and other than that line only Vary lines are added |
| HeaderFilter.EligibleExactly | src/ngx_http_zstd_filter_module.c:1591-1705 | which responses may be compressed: status, length, content type, coding and Cache-Control, spelled out |
| HeaderFilter.CacheIsSafe | src/ngx_http_zstd_filter_module.c:1590-1896 | non-interference: two main requests for one URI, over equally secure connections, that agree on every field the first response's Vary names get the same coding, with the same dictionary, and the same headers |
| HeaderFilter.RestNames | src/ngx_http_zstd_filter_module.c:1739-1824 | every field the choice looks at is named by the time the response is sent, dictionary fields only when not bypassed |
| HeaderFilter.BypassNames | src/ngx_http_zstd_filter_module.c:1707-1737 | every field of zstd_bypass_vary is named, on bypassed and compressed responses alike |
| HeaderFilter.SameChoice | src/ngx_http_zstd_filter_module.c:2185-2361 | the coding depends on no request field but Accept-Encoding and, with dictionaries, the two dictionary fields |
| HeaderFilter.ChosenIsApplied | src/ngx_http_zstd_filter_module.c:1591-1896 | an eligible response gets the coding chosen unless something fails, and nothing does with room for four headers and a context |
| HeaderFilter.ZstdIsChosen | src/ngx_http_zstd_filter_module.c:2185-2361 | zstd is chosen exactly when no dictionary is negotiated and the lines weigh it above zero |
| HeaderFilter.NegotiatedExactly | src/ngx_http_zstd_filter_module.c:2185-2361 | a dictionary is negotiated exactly for a main request in a secure context that names dcz above zero, announces one digest, which is that of a dictionary, and says in at most one line that it comes from the same origin or none |
| HeaderFilter.DczIsAskedFor | src/ngx_http_zstd_filter_module.c:1983-2361 | dcz is served only in a secure context, to a client that named it, against the dictionary whose hash is the one digest it announced |
| HeaderFilter.ExtraLineNeverEnables | src/ngx_http_zstd_filter_module.c:2185-2361 | no Sec-Fetch-Site line put in front of a request turns dcz on, and a second Available-Dictionary line turns it off |
| HeaderFilter.SiteDecides | src/ngx_http_zstd_filter_module.c:1775-1824 | Sec-Fetch-Site has to be in Vary: a cross-site line alone changes the coding |
| Ratio.RatioParts | src/ngx_http_zstd_ratio.h:54-105 | in wraparound 64-bit arithmetic, the two parts are exactly the floor of bytes_in*1000/bytes_out over the integers |
| Ratio.PeelDigit | src/ngx_http_zstd_ratio.h:78-101 | the overflow branch finds the exact digit and remainder |
| Ratio.WrapTest | src/ngx_http_zstd_ratio.h:86-96 | the wrapped sum tells whether the true sum reached the divisor, and subtracting undoes the wrap |
| Sha256.HashParts | src/ngx_http_zstd_sha256.h:140-236 | however a message is split into updates, the digest is the one FIPS 180-4 defines |
| Sha256.Hash | src/ngx_http_zstd_sha256.h:240-268 | the one-shot form computes the same digest |
| Sha256.Context.Update | src/ngx_http_zstd_sha256.h:156-192 | any number of bytes extends the message, with fewer than 64 pending between calls |
| Sha256.Context.TopUp | src/ngx_http_zstd_sha256.h:162-181 | filling the pending block absorbs it exactly when it is full |
| Sha256.Context.Final | src/ngx_http_zstd_sha256.h:196-236 | the digest of everything fed, for both padding shapes |
| Sha256.Context.Compress | src/ngx_http_zstd_sha256.h:75-136 | absorbs one block as section 6.2.2 of FIPS 180-4 says |
| Sha256.Context.Schedule | src/ngx_http_zstd_sha256.h:82-93 | the sixty-four words of the message schedule |
| Sha256.Context.AllRounds | src/ngx_http_zstd_sha256.h:95-124 | the sixty-four rounds, with the code's rotations and order of additions |
| Sha256.Mixes | src/ngx_http_zstd_sha256.h:80-115 | the shift-and-or forms are the rotations of the standard |
| Sha256.RoundConstants | src/ngx_http_zstd_sha256.h:53-70 | each of the sixty-four constants is the fractional part of the cube root of its prime, as section 4.2.2 defines it |
| Sha256.InitialConstants | src/ngx_http_zstd_sha256.h:140-153 | the eight initial words are those of the square roots (section 5.3.3) |
| Sha256.ChooseAndMajority | src/ngx_http_zstd_sha256.h:104-112 | bit by bit, the choice picks by its first word and the majority is that of three |
| Sha256.SigmaBits | src/ngx_http_zstd_sha256.h:80-115 | where each sigma of section 4.1.2 takes the lowest bit of a word, and each that shifts the highest |
| Sha256.PadShort | src/ngx_http_zstd_sha256.h:196-226 | up to 55 pending bytes the padding is one block |
| Sha256.PadLong | src/ngx_http_zstd_sha256.h:214-226 | from 56 on it is two |
| Sha256.PaddingIsMinimal | src/ngx_http_zstd_sha256.h:202-220 | the zeros are the fewest that section 5.1.1 allows |
| Sha256.WordRoundTrip | src/ngx_http_zstd_sha256.h:82-85 | digest words are written in the byte order that message words are read in |
| DczWindow.CeilLog2Builtin | src/ngx_http_zstd_filter_module.c:103-155 | the builtin form computes the clamped ceiling logarithm |
| DczWindow.CeilLog2Loop | src/ngx_http_zstd_filter_module.c:103-155 | so does the fallback |
| DczWindow.CeilLogUnique | src/ngx_http_zstd_filter_module.c:103-155 | there is only one such value, so the builds agree |
| DczWindow.PowerOfTwoTest | src/ngx_http_zstd_filter_module.c:103-155 | x & (x - 1) is 0 exactly on powers of two |
| DczWindow.DczWindowLog | src/ngx_http_zstd_filter_module.c:316-379 | with a wrapping size_t, the window is that of unbounded arithmetic |
| DczWindow.SaturationIsExact | src/ngx_http_zstd_filter_module.c:316-379 | saturating the cast and the sum never changes the logarithm |
| DczWindow.WindowInRange | src/ngx_http_zstd_filter_module.c:316-379 | every request window is in 10..23 |
| DczWindow.WindowHonours | src/ngx_http_zstd_filter_module.c:316-379 | the window is in 10..23, and above neither the configured window nor the budget's, down to the floor |
| DczWindow.WindowCovers | src/ngx_http_zstd_filter_module.c:316-379 | the window covers dictionary and response, unless the configuration or the ceiling is smaller |
| DczWindow.RequestWindowIsPrepared | src/ngx_http_zstd_filter_module.c:381-403 | for every pledged length the request's window lies in the range prepared at load |
| DczWindow.WindowCap | src/ngx_http_zstd_filter_module.c:4970-5029 | the largest window whose estimate fits the budget |
| DczWindow.EveryDczWindowFits | src/ngx_http_zstd_filter_module.c:4940-5029 | under a monotone estimate and a passed gate every dcz window fits the budget |
| DczWindow.CDictLookup | src/ngx_http_zstd_filter_module.c:6209-6243 | the prepared dictionary for exactly this level and window, if there is one, and none in long mode or with a target block size |
| DczWindow.Cycle.BuildCDicts | src/ngx_http_zstd_filter_module.c:6282-6394 | for one location of many: only its own set gains entries, the bytes retained for all locations never exceed 64 MiB, the remaining budget never underflows, one entry per level and window, all in the prepared range; without a failure, every window in that range is prepared for every dictionary of the location, or would not fit the limit even at the end |
| DczWindow.LocationsFit | src/ngx_http_zstd_filter_module.c:6262-6394 | the 64 MiB bound holds for the sets of any locations taken together, a dictionary that several of them share counted once; if they cover every dictionary, they come to exactly what is retained |
| DczWindow.Cycle.BuildOne | src/ngx_http_zstd_filter_module.c:6330-6394 | one profile is added once or not at all; without a failure it is there afterwards or would not fit |
| DictFile.DictFileRead | src/ngx_http_zstd_dict_file.h:134-179 | reading on from one descriptor returns the file's own bytes, fewer than asked only at its end, through short reads and interruptions |
| StrictWalk.NextComponent | src/ngx_http_zstd_dict_file.h:321-369 | cuts the next part; each refusal is given exactly when its cause is there, and reports the component the source leaves in the report |
| StrictWalk.PartsAre | src/ngx_http_zstd_dict_file.h:321-369 | what the components are: runs of slashes separate them, wherever they stand |
| StrictWalk.CheckDir | src/ngx_http_zstd_dict_file.h:267-286 | passes exactly the directories owned by root or the loader and writable by no one else |
| StrictWalk.TrustedMode | src/ngx_http_zstd_dict_file.h:267-286 | owned by root or the loader, and no write bit in the digits of the group and of the others |
| StrictWalk.OpenStrict | src/ngx_http_zstd_dict_file.h:398-494 | success opened exactly the path's parts, every directory used as a base (the root included) vetted before, only the leaf left open; every refusal leaves nothing open and closes each descriptor once; a path is refused for its syntax only when it is not walkable; the report names the component at which the walk ended |
| StrictWalk.WalkDown | src/ngx_http_zstd_dict_file.h:440-494 | the loop over the components, with the same guarantees |
| StrictWalk.Descend | src/ngx_http_zstd_dict_file.h:449-476 | one component is opened relative to a vetted directory, which is closed |
| StrictWalk.AddOpened | src/ngx_http_zstd_dict_file.h:449-494 | opening from a vetted directory extends the chain |
| StrictWalk.ChainResolves | src/ngx_http_zstd_dict_file.h:371-494 | in a tree that holds still, the leaf is the node the path's components lead to, with no symbolic link on the way |
| StrictWalk.NotWalkable | src/ngx_http_zstd_dict_file.h:321-369 | the syntactic refusals are refusals of the path itself |

## Left out

- libzstd: the encoder is its documented contract, with finite expansion; `ZSTD_createCCtx`, `ZSTD_createCDict`, parameter setting and memory estimates are arbitrary outcomes. Frame contents and compression ratio are not modelled.
- nginx core: pools, the event loop, `open_file_cache` and the write filter are arbitrary outcomes; `ngx_chain_update_chains` moves some drained head of the busy chain, one tag for all buffers being assumed.
- BodyFilter.Filter: buffers and chain links are values inside the object's fields, so aliasing of a buffer between chains shows as its identifier, and reuse of chain link memory is not modelled.
- BodyFilter.Run: `last_buf` is assumed to sit only on the final link of the stream, and there is at least one buffer of at least one byte; both are what nginx and the directive parser guarantee. A stream whose callbacks end before downstream has drained is safe but not yet complete; what completes it is `BodyFilter.Finish`.
- BodyFilter.Filter.Enter: configuring the context on the first callback is one outcome, success or failure; which parameters are set is modelled only for the window, in the context ring.
- Vary.FindTokens: the response's header list is one sequence; the walk over list parts is modelled once, in `FieldLines.ListCodingWeight`.
- HeaderFilter.Exchange.HeaderFilter: the test of the content type is one outcome, and the ETag and Accept-Ranges headers are modelled only as "strong" and "offered"; the request fields are those nginx has already folded and chained.
- HeaderFilter.CacheIsSafe: connection security and the URI are equal by assumption, since Vary cannot name them; `zstd_static always` and `zstd_static_dict_bypass` are documented exceptions and are not part of it.
- StaticProbe.ProbeFile: the file does not change under the probe.
- CctxRing.Worker.Acquire: nothing is acquired after `exit_process`, because the process ends there.
- DczDigest.Lookup: the sort itself is the C library's; the result holds for every sorted permutation.
- DczWindow.WindowCap: the gate that estimates the memory of the configured window is a condition of `EveryDczWindowFits`.
- StrictWalk.OpenStrict: descriptors are numbered in order of creation and not reused; the kernel's error numbers are not modelled.
- Sha256.Hash: the OpenSSL path behind `NGX_HTTP_ZSTD_HAVE_LIBCRYPTO` is not modelled.
- Ratio.RatioParts: both parts are kept in 64 bits; a platform with a narrower `ngx_uint_t` would cut the integer part.
- Directive parsing, variables, logging, debug traces, test instrumentation, the Windows branches and the big-endian branches of the probe: no state that these properties depend on.
- `hex_nibble`, `validate_field_name_token` and the version policy: settled by reading one branch.
