# Verified kernels of the chat client

This project models the self-contained engines of the Chatterino chat client in Dafny and proves what
each of them keeps, over every input, every run or every reachable state. Code that works by
assignment is modelled by classes and methods with loops; each of these is proved against a
specification function or predicate, and the promises are lemmas about that specification.

`dafny verify dfyconfig.toml` checks everything.

## The modules

- **LimitedQueue.dfy** — the bounded message log. The class is a ring buffer on an array with a head
  and a count. Next to what the ring does stands what an unbounded log would do after the same locked
  operations; over every run of pairwise distinct messages the ring holds exactly the last `limit`
  elements of that log, also when a needle has been evicted or was never there. A needle that
  occurs twice can break this, and the exact condition is proved. **Replacement.dfy** extends
  the result to runs that also replace messages by needle, position or hint.
- **Channel.dfy** — a channel on top of that log. Filling in late history is a sequence of locked
  steps between which other threads append. Its outcome on the log is a stable merge by time of
  the snapshot with the messages whose id is not yet taken, followed by everything appended meanwhile;
  the merge keeps the order of both sides, is ascending apart from the snapshot's System messages,
  and holds exactly the expected messages. The second part is the recursion guard: listeners may call
  any mutator again whenever they are told of a change. However they branch, the guard's assertion
  never fails, at most 63 mutator bodies nest (and 63 are reached), the call tree is finite with an
  explicit bound, and the counter returns to its value.
- **SignalVector.dfy** — the observed vector with any number of table models attached. Rows that
  stand for items and custom rows mix freely; over every run of insertions, removals, edits, moves
  and custom-row changes, the ordinary rows of every model stand for exactly the items of the vector.
- **LinkParser.dfy** — the scanning loops of the link parser against a declarative grammar. The parser
  returns a reading exactly when there is one, readings are unique, they partition the source, and
  parsing the link again gives the same segments.
- **CachedFrames.dfy** and **DynamicFrames.dfy** — playback of animations, from memory and decoded
  on the fly.
- **Integrity.dfy** — the integrity token protocol as a step system: every stretch of script between
  two awaits is one step, and callers, replies, failures, timers and clock readings interleave
  arbitrarily. Safety holds for every schedule; and once no new calls or timers come, every
  schedule ends after a bounded number of steps with each call answered exactly once.
- **Similarity.dfy**, **Wrapping.dfy**, **Tokenizer.dfy**, **Cheermote.dfy** — kernels used while a
  message is built: longest common substring, breaking of long words, splitting into words
  and emotes, bits accounting. **Decimal.dfy** has the decimal numbers two of the modules need.
- **WindowLayout.dfy** — split and container trees as JSON and back, normalising a loaded
  layout, and choosing the tab that shows a channel.
- **Prelude.dfy** — shared vocabulary.

## What the proofs brought to light

Where a promise does not hold of the code as it stands, the code was kept, and the exact condition is
proved.

- *Repeated needles.* Inserting a new message next to a needle that occurs more than once makes ring and log
  part ways exactly when the first occurrence is evicted and the ring holds a later one, except at its
  very front when the message goes before it. That the messages of a channel are distinct objects is an
  assumption of the model; the code does not enforce it.
- *Filling in.* Ids are compared only when non-empty. A filled-in message is left out exactly when a
  non-System snapshot message has its non-empty id; with an empty id it goes in again.
- *Hinted replacement.* `replaceMessage` with a hint announces the hint as the index even when
  the message was found elsewhere. The two agree exactly when the message is at the hint, and an example shows a wrong index.
- *Moves.* A moved row's item is spelled out anew from its cells and the item the row was created from. The
  vector is only reordered exactly when that gives the item the row stands for; a table that makes a new
  object each time replaces an item even by moving a row to where it is.
- *Edits in sorted vectors.* The edited row stays in place while the item may land elsewhere. The model
  still mirrors the vector exactly when the item lands no later than its row and nothing but equal
  items lies between.
- *Links.* A host that ends in a dot before a port or a separator reaches the domain lookup with an
  empty label, so the parser relies on the empty string not being a top level domain. The header's
  description has a port followed by '/', '?' or '#'. A link is accepted with exactly two more forms, one
  to five digits that end it and five digits followed by anything else; an empty port, which the port
  check alone would accept, never occurs because a colon at the end is stripped. Compared with section
  3.2.2 of RFC 3986, exactly the addresses in which a group of several digits starts with a zero are
  accepted in addition. There is an accepted input for either.
- *Animations.* A copy keeps in step with the shared timer exactly when its position in the cycle at the
  start was at most 60000. Two copies agree exactly when this holds of both or they started at the same
  position in the cycle; a copy that has not had its first tick agrees with an older one exactly when,
  besides, it did not start at the beginning of the cycle.
- *Decoded playback.* The same bytes are read again on every loop, so the delays repeat. Every tick returns
  exactly when there is a last frame, some read fails, some frame of the cycle has no delay, or the delays of a
  cycle add up to more than nothing; otherwise a due tick can decode forever. Mixed delays such as 30
  and -10 are therefore harmless, and all-negative ones are not.
- *Wrapping.* A cut can separate a high surrogate from the unit behind it exactly when two high surrogates in a
  row are followed by a further unit, which well-formed UTF-16 never has. When not even the first character fits, an
  empty piece precedes the others.
- *Tokenizing.* A special that starts before its predecessor ends or beyond the text is never reached and
  blocks all later ones; all are reached exactly when none is out of place.
- *Bits.* The recursion that rewrites a cheer word does not always lower the captured value: with
  overlapping prefixes it can grow. It drops exactly when the next match captures no more than the new
  amount, or a number too large for an int (which reads as 0), or so little in front of the new amount
  that this weighs less than what was taken off; in particular always when no prefix is another one
  continued by digits. The recursion terminates in any case because the number the whole word spells
  drops. With a negative tag that number grows instead and nothing is ever paid. For every catalog, the
  rewriting of all words under all tags ends exactly if no tier is free: with a free tier there is a word that
  is rewritten to itself forever.
- *Layouts.* The printer writes no server, so a tree is loaded back unchanged exactly when no split
  names one.

## Model

| member | source | states |
|---|---|---|
| `LimitedQueues.RunRefines` | src/messages/LimitedQueue.hpp:125-329 | over every run of locked steps on distinct messages the ring is the last `limit` elements of the unbounded log |
| `LimitedQueues.StepRefines` | src/messages/LimitedQueue.hpp:139-329 | one step of any kind commutes with looking at the last `limit` elements, evicted and unknown needles included |
| `LimitedQueues.InsertRefines` | src/messages/LimitedQueue.hpp:287-329 | an insertion next to a needle does to the ring what it does to the log, also when it drops the front or falls in front of it |
| `LimitedQueues.InsertRefinesIff` | src/messages/LimitedQueue.hpp:287-329 | with any number of occurrences of the needle, a new item keeps ring and log together exactly unless the first one is evicted and the ring holds another, not at its front for an insertion before it |
| `LimitedQueues.DistinctRunIsFresh` | src/messages/LimitedQueue.hpp:139-329 | a run over distinct new objects meets the refinement's condition at every step |
| `LimitedQueues.FreshRunStaysDistinct` | src/messages/LimitedQueue.hpp:139-329 | such a run never makes the log contain an object twice |
| `LogReplacements.AnyRunRefines` | src/messages/LimitedQueue.hpp:125-329 | the same over runs that also replace by needle, by position in the ring and by hint |
| `LogReplacements.AnyStepRefines` | src/messages/LimitedQueue.hpp:205-276 | a replacement of an evicted or unknown message is invisible, a position in the ring is one counted from the end of the log, and a hint makes no difference |
| `LogReplacements.DistinctStepsStayDistinct` | src/messages/LimitedQueue.hpp:139-329 | a run that brings in distinct new objects, by replacement or otherwise, meets that theorem's condition |
| `LimitedQueues.DuplicateNeedleDiverges` | src/messages/LimitedQueue.hpp:287-302 | an example for the diverging side of that condition |
| `LimitedQueues.LimitedQueue.PushBack` | src/messages/LimitedQueue.hpp:139-165 | the array ring appends, a full ring gives up exactly its front and hands it back |
| `LimitedQueues.LimitedQueue.PushFront` | src/messages/LimitedQueue.hpp:177-194 | exactly the last items that fit are prepended in order and returned; nothing is evicted |
| `LimitedQueues.LimitedQueue.Insert` | src/messages/LimitedQueue.hpp:294-299 | insertion into a full ring drops the front, and does nothing at the very front |
| `LimitedQueues.LimitedQueue.InsertBefore` | src/messages/LimitedQueue.hpp:287-302 | the item goes directly before the first occurrence of the needle; the result says whether the needle was there |
| `LimitedQueues.LimitedQueue.InsertAfter` | src/messages/LimitedQueue.hpp:313-329 | the item goes directly after the first occurrence of the needle; the result says whether the needle was there |
| `LimitedQueues.LimitedQueue.ReplaceItem` | src/messages/LimitedQueue.hpp:205-219 | only the first occurrence is replaced and its position returned, or -1 and nothing changes |
| `LimitedQueues.LimitedQueue.ReplaceAt` | src/messages/LimitedQueue.hpp:229-247 | only that position changes, the previous element comes back; out of range nothing changes |
| `LimitedQueues.LimitedQueue.ReplaceHinted` | src/messages/LimitedQueue.hpp:257-276 | the hint is preferred if the needle is there, otherwise the first occurrence is replaced |
| `LimitedQueues.LimitedQueue.FindIndex` | src/messages/LimitedQueue.hpp:381-394 | the first match from the front, or none exists |
| `LimitedQueues.LimitedQueue.RFind` | src/messages/LimitedQueue.hpp:433-455 | the last match, or none exists |
| `LimitedQueues.LimitedQueue.GetSnapshot` | src/messages/LimitedQueue.hpp:331-335 | the elements front to back, across the wrap-around of the array |
| `LimitedQueues.LimitedQueue.LastN` | src/messages/LimitedQueue.hpp:337-344 | the last n elements in order |
| `LimitedQueues.LimitedQueue.Get` | src/messages/LimitedQueue.hpp:76-86 | the element at an index, or none out of range |
| `LimitedQueues.LimitedQueue.Clear` | src/messages/LimitedQueue.hpp:125-130 | the ring is empty afterwards |
| `Channels.FillRefinesMerge` | src/common/Channel.cpp:265-343 | under every interleaving with appends the ring is the tail of older history, the merge by time, then everything appended |
| `Channels.FillMergesHistory` | src/common/Channel.cpp:295-335 | in the log all filled-in messages come before all concurrently appended ones, in merge position |
| `Channels.FillStepsPlace` | src/common/Channel.cpp:291-335 | concurrent appends never influence where a message is placed |
| `Channels.PlaceAllIsMerge` | src/common/Channel.cpp:296-335 | placing ascending messages one by one is the stable merge |
| `Channels.FillGuarantees` | src/common/Channel.cpp:275-335 | both sides keep their order, all but snapshot System messages ascend, and a batch message is in exactly if its non-empty id is not taken |
| `Channels.MergeAscending` | src/common/Channel.cpp:308-333 | merging ascending sequences leaves everything but the snapshot's System messages ascending |
| `Channels.MergeKeepsSnapshotOrder` | src/common/Channel.cpp:308-333 | the snapshot's messages stay in their relative order |
| `Channels.MergeKeepsLateOrder` | src/common/Channel.cpp:308-333 | the filled-in messages stay in their relative order |
| `Channels.MergePlacesBeforeLater` | src/common/Channel.cpp:307-333 | a filled-in message comes directly in front of a strictly later non-System message of the snapshot, or behind all of it; so of messages with the same time the old ones come first |
| `Channels.MergeMembers` | src/common/Channel.cpp:296-335 | nothing is lost and nothing else appears |
| `Channels.EmptyIdsAreFilledInAgain` | src/common/Channel.cpp:279-302 | an example of a message whose empty id the snapshot has, and which is filled in nonetheless |
| `Channels.Channel.FillInMissingMessages` | src/common/Channel.cpp:265-343 | the loop performs exactly the specified locked steps, and announces exactly if the snapshot was empty or something was placed |
| `Channels.FindFirstLater` | src/common/Channel.cpp:307-325 | the search stops at the first later non-System message |
| `Channels.BodiesNestAtMost63` | src/common/Channel.cpp:17-36 | whatever listeners do, no mutator body runs deeper than 63 |
| `Channels.CallTreeBounded` | src/common/Channel.cpp:530-533 | with at most b calls per signal the whole call tree has at most as many bodies as the full tree of height 63 |
| `Channels.EchoNestsAllTheWay` | src/common/Channel.cpp:134-170 | against a listener that always appends, every announcing call reaches each depth up to 63 exactly once, and any other runs its own body only |
| `Channels.Channel.Invoke` | src/common/Channel.cpp:134-170 | the guard's assertion holds for every nested call, the counter returns to its value, log and depths are those of the specified call tree |
| `Channels.Channel.Body` | src/common/Channel.cpp:345-417 | for each mutator what becomes of the log and which signal, with which index and messages, is sent, or that nothing was found to do |
| `Channels.HintedReplaceAnnouncesHint` | src/common/Channel.cpp:380-396 | the announced index is the hint; it is the replaced position exactly when the message is at the hint |
| `Channels.HintedReplaceCanMisannounce` | src/common/Channel.cpp:380-396 | an example in which the announced index is not the replaced one |
| `SignalVectors.Play` | src/common/SignalVectorModel.hpp:40-117 | after any run of events with any number of models, every model's ordinary rows stand for exactly the vector's items |
| `SignalVectors.ModelIndexIs` | src/common/SignalVectorModel.hpp:528-548 | in front of the v-th ordinary row are exactly the first v items; without such a row it is the row count |
| `SignalVectors.TranslationsInvert` | src/common/SignalVectorModel.hpp:504-548 | the two index translations are inverse on ordinary rows |
| `SignalVectors.InsertedRow` | src/common/SignalVectorModel.hpp:44-64 | the insert handler changes the represented items as the vector changed, with one new row directly in front of the ordinary row it displaces |
| `SignalVectors.RemovedRow` | src/common/SignalVectorModel.hpp:76-98 | the remove handler changes the represented items as the vector changed and takes out that one row only |
| `SignalVectors.CustomRowIsInvisible` | src/common/SignalVectorModel.hpp:441-449 | inserting a custom row anywhere does not change the represented items |
| `SignalVectors.CustomRowLeavesNoTrace` | src/common/SignalVectorModel.hpp:451-459 | removing a custom row does not change the represented items |
| `SignalVectors.SortedEditAligned` | src/common/SignalVectorModel.hpp:190-203 | an edit in a sorted vector keeps the mirror exactly when the item lands no later than its row with only equal items between |
| `SignalVectors.SortedEditMisaligns` | src/common/SignalVectorModel.hpp:190-203 | an example run of vector, model and edit in which the rows no longer show the sorted vector |
| `SignalVectors.InsertKeepsSorted` | src/common/SignalVector.hpp:81-87 | inserting at the lower bound keeps a sorted vector sorted |
| `SignalVectors.MovePermutes` | src/common/SignalVectorModel.hpp:303-309 | taking one item out and putting one in reorders a vector exactly if they are the same item |
| `SignalVectors.MoveReplacesItem` | src/common/SignalVectorModel.hpp:303-309 | with a table that makes new objects, moving a row changes the vector's items |
| `SignalVectors.SignalVector.LowerBound` | src/common/SignalVector.hpp:83-85 | everything in front of the result is less than the item, nothing else is |
| `SignalVectors.SignalVector.Insert` | src/common/SignalVector.hpp:77-109 | one insertion at the proposed index, the end or the lower bound; all models but the caller follow |
| `SignalVectors.SignalVector.RemoveAt` | src/common/SignalVector.hpp:138-151 | one item goes, all models but the caller follow |
| `SignalVectors.SignalVector.RemoveFirstMatching` | src/common/SignalVector.hpp:153-173 | exactly the first match is removed; false means there is none and nothing changed |
| `SignalVectors.SignalVector.Clear` | src/common/SignalVector.hpp:115-123 | vector and models are empty, custom rows included |
| `SignalVectors.RowModel.GetModelIndexFromVectorIndex` | src/common/SignalVectorModel.hpp:528-548 | the loop finds the position of the v-th ordinary row |
| `SignalVectors.RowModel.GetVectorIndexFromModelIndex` | src/common/SignalVectorModel.hpp:504-524 | for an ordinary row the position of its item, with exactly the items of the rows above it in front; for a custom row or an index out of range the number of all items |
| `SignalVectors.RowModel.Initialize` | src/common/SignalVectorModel.hpp:40-117 | attaching appends one row per item in order and makes the model mirror the vector |
| `SignalVectors.RowModel.SetData` | src/common/SignalVectorModel.hpp:164-211 | an edit replaces one item in place and leaves every model aligned; for sorted vectors the caller stays aligned exactly under the stated condition |
| `SignalVectors.RowModel.MoveRows` | src/common/SignalVectorModel.hpp:286-314 | the item is reinserted behind exactly the items of the rows above the ordinary row at the destination after removal, or at the very end if there is none; all models stay aligned; the vector is permuted exactly if the row spells out the item it stands for |
| `SignalVectors.RowModel.RemoveRows` | src/common/SignalVectorModel.hpp:316-331 | exactly the row and its item go |
| `SignalVectors.RowModel.InsertCustomRow` | src/common/SignalVectorModel.hpp:441-449 | the row goes where it was asked for and the mirror stays |
| `SignalVectors.RowModel.RemoveCustomRow` | src/common/SignalVectorModel.hpp:451-459 | only that row goes and the mirror stays |
| `LinkParser.Parse` | src/common/LinkParser.cpp:171-316 | a reading according to the grammar is returned exactly when the source has one |
| `LinkParser.ReadingUnique` | src/common/LinkParser.cpp:171-316 | a source has at most one reading, so the parser's answer is determined by the grammar |
| `LinkParser.SegmentsPartition` | src/common/LinkParser.hpp:42-111 | protocol, host and rest make up the link; prefix, link and suffix make up the source; the host is not empty |
| `LinkParser.ViewsAreAdjacent` | src/common/LinkParser.cpp:270-312 | the four separately kept views lie next to each other, and link and rest, extended separately, end together |
| `LinkParser.ReparseIsStable` | src/common/LinkParser.cpp:270-306 | parsing the link alone reads the same segments |
| `LinkParser.IsValidIpv4` | src/common/LinkParser.cpp:53-94 | accepts exactly four dot-separated groups of one to three digits worth at most 255; 16 bits never overflow |
| `LinkParser.Ipv4Shape` | src/common/LinkParser.cpp:53-94 | the label-based definition of an address is the written-out form a.b.c.d |
| `LinkParser.RfcAddressIff` | src/common/LinkParser.cpp:53-94 | the addresses of section 3.2.2 of RFC 3986 are exactly the accepted ones without a leading zero |
| `LinkParser.DecOctetIff` | src/common/LinkParser.cpp:80-91 | the five alternatives of its dec-octet are exactly the accepted groups without a leading zero |
| `LinkParser.LeadingZerosAreAccepted` | src/common/LinkParser.cpp:53-94 | an example of an address beyond the RFC |
| `LinkParser.Strip` | src/common/LinkParser.cpp:131-155 | removes exactly the ignored units at both ends |
| `LinkParser.UnitSets` | src/common/LinkParser.cpp:122-168 | the ignored units at both ends, the separators and the units of a host are the listed ones |
| `LinkParser.ReadProtocol` | src/common/LinkParser.cpp:181-202 | takes http:// or https:// in any case whenever at least eight units are there |
| `LinkParser.ProtocolIs` | src/common/LinkParser.cpp:181-202 | a protocol is a text that reads http:// or https:// in lower case |
| `LinkParser.StartsWithPort` | src/common/LinkParser.cpp:102-118 | up to five digits ended by a separator, the end or the fifth digit, in both directions |
| `LinkParser.PortIsDocumentedOr` | src/common/LinkParser.cpp:102-118 | the port check accepts exactly the documented port, digits at the end, five digits with something else behind them, and nothing at all |
| `LinkParser.LinkPort` | src/common/LinkParser.cpp:232-245 | the port of a link is one of the first three, also when parentheses extend the link; never empty |
| `LinkParser.LongPortIsAccepted` | src/common/LinkParser.cpp:102-118 | an example of a link whose port has more than five units and no separator |
| `LinkParser.ScanHost` | src/common/LinkParser.cpp:207-264 | finds where the host ends, or no host fits the grammar |
| `LinkParser.MatchLink` | src/common/LinkParser.cpp:181-268 | protocol, host and rest of a stripped text are found exactly when the grammar has a split |
| `LinkParser.ScanParentheses` | src/common/LinkParser.cpp:273-303 | the last return to depth zero counted from the rest, if it lies behind the stripped end, is where a link may end |
| `LinkParser.DepthIs` | src/common/LinkParser.cpp:273-303 | the counted nesting depth is the largest excess of opening over closing parentheses in any stretch that ends there |
| `LinkParser.IncludeParentheses` | src/common/LinkParser.cpp:270-306 | link and rest are each extended to the right end; skipping the scan when nothing was stripped or there is no rest makes no difference |
| `CachedAnimation.SettleKeepsPhase` | src/messages/Image.cpp:139-159 | settling keeps the place in the cycle modulo the total and ends within a frame |
| `CachedAnimation.PhaseDeterminesFrame` | src/messages/Image.cpp:139-159 | within a frame the place in the cycle determines the frame and the time spent on it |
| `CachedAnimation.PhaseAfterTicks` | src/messages/Image.cpp:105-137 | after any number of ticks the place is the start offset plus the time passed, modulo the total |
| `CachedAnimation.InStepIffNotClamped` | src/messages/Image.cpp:125-130 | a copy keeps in step with the timer exactly when its start position was at most 60000 |
| `CachedAnimation.CopiesAgree` | src/messages/Image.cpp:105-159 | two copies agree on frame and offset exactly when neither start was clamped or both fell on the same place and, for a copy before its first tick, the start was not at the beginning of the cycle |
| `CachedAnimation.FreshCopyCanDiffer` | src/messages/Image.cpp:105-131 | an example of a copy that disagrees before its first tick |
| `CachedAnimation.FrameDuration` | src/messages/Image.cpp:519-524 | 100 ms for a stated delay of at most 10 ms, otherwise the stated delay but at least 20 ms |
| `CachedAnimation.CachedFrames.ProcessOffset` | src/messages/Image.cpp:139-159 | the loop terminates and steps over exactly the frames whose time is up |
| `CachedAnimation.CachedFrames.Start` | src/messages/Image.cpp:105-131 | an animated copy starts within the frame that the timer's position in the cycle, at most 60000, falls on; a still image stays on its frame |
| `CachedAnimation.CachedFrames.Advance` | src/messages/Image.cpp:133-137 | a tick takes a copy from its k-th to its (k+1)-th state: its place in the cycle moves on by the frame length |
| `DynamicAnimation.Play` | src/messages/Image.cpp:219-329 | in any run of an animation whose ticks return, frames go round in order; unless a read fails, playback finishes after exactly frameCount * (c + 1) frames, never for c < 0; it does finish after as many due ticks |
| `DynamicAnimation.DynamicFrames.DecodeNext` | src/messages/Image.cpp:219-247 | succeeds exactly if frames remain and the decoder can read; then the next frame in cyclic order is shown |
| `DynamicAnimation.DynamicFrames.Advance` | src/messages/Image.cpp:276-313 | a due tick starts from when the next frame was due, or at most `GIF_FRAME_LENGTH` ago, shows exactly the frames due since then by their delays and says when the next one is; with non-negative delays these are at most `GIF_FRAME_LENGTH` + 1; other ticks change nothing, but pause after a second unused |
| `DynamicAnimation.DynamicFrames.CatchUp` | src/messages/Image.cpp:297-312 | the loop ends whenever there is a last frame or the delays let it end; each frame shown was due, only the last may be without delay, and the next one is due in the future after the delays of those shown, or at once after a frame without delay |
| `DynamicAnimation.PeriodicEndsIff` | src/messages/Image.cpp:236-243 | with repeating delays and readable frames every catching up ends exactly if a frame of the cycle has no delay or the cycle takes time on the whole |
| `DynamicAnimation.DynamicFrames.ReturnsIff` | src/messages/Image.cpp:276-313 | every tick returns exactly if there is a last frame, a read that fails, or such a cycle |
| `DynamicAnimation.NonNegativeEnds` | src/messages/Image.cpp:297-312 | with non-negative delays every catching up ends, whether the delays repeat or not |
| `DynamicAnimation.NegativeNeverEnds` | src/messages/Image.cpp:297-312 | with only negative delays and readable frames none does, whether the delays repeat or not |
| `DynamicAnimation.DynamicFrames.OnPaint` | src/messages/Image.cpp:315-329 | painting resumes without catching up, leaves the schedule alone while playing, and never changes what was shown |
| `Integrity.ProtocolSafety` | resources/twitch-integrity.js:66-169 | for every interleaving: one integrity request in flight, tokens only for the caller's authorization, cached tokens only before expiration, at most one result per call |
| `Integrity.EveryCallIsAnswered` | resources/twitch-integrity.js:131-169 | without new calls or timers every schedule is over after a bounded number of steps, and then each call has sent exactly one result |
| `Integrity.BusyRunsAreBounded` | resources/twitch-integrity.js:75-129 | callers cannot make each other wait forever: each effective step comes strictly closer to the end |
| `Integrity.NotQuietMeansBusy` | resources/twitch-integrity.js:82-128 | there is no deadlock: unless all is settled some turn or reply does something |
| `Integrity.QuietMeansAnswered` | resources/twitch-integrity.js:131-169 | when all fetches are settled and nobody can go on, every call has sent exactly one result and no request is recorded |
| `Integrity.StepKeepsInv` | resources/twitch-integrity.js:13-169 | every step of any caller, reply or timer keeps the invariant behind the safety theorem |
| `Integrity.RunKeepsInv` | resources/twitch-integrity.js:13-169 | the invariant holds in every reachable state |
| `Integrity.GetClientVersionShares` | resources/twitch-integrity.js:13-55 | a version is used exactly while it is unexpired, otherwise the one fetch is shared; for the step system |
| `Integrity.AcquireIntegrityShares` | resources/twitch-integrity.js:75-121 | the cached token is used exactly if unforced, for the same authorization and before its renewal, otherwise the one request is shared; for the step system |
| `Integrity.TurnIsOrderly` | resources/twitch-integrity.js:48-128 | whoever takes a turn, requests are cleared by their owners and begun only if none is recorded |
| `Integrity.TurnEndsWait` | resources/twitch-integrity.js:48-160 | a turn waits for its promise and then goes on with its own `force` and `retry`: failures of its own wait are reported once, those of others make it look again, and a forced token restarts a call that will not repeat; no other caller moves |
| `Integrity.ReplyIsCached` | resources/twitch-integrity.js:101-119 | exactly a token that outlives the making of its request is cached, to be renewed after nine tenths of that time; for the step system |
| `Integrity.GqlSentOrRepeated` | resources/twitch-integrity.js:142-168 | a call starts over exactly if the answer refuses the token and the call was not repeated before; otherwise its one result is sent |
| `Integrity.Page.EnterGetClientVersion` | resources/twitch-integrity.js:13-55 | a version is used exactly while it is unexpired; otherwise the caller waits for the recorded fetch, which it begins exactly if there was none |
| `Integrity.Page.EnterAcquireIntegrity` | resources/twitch-integrity.js:75-121 | the cached token is returned exactly if unforced, issued for this authorization and before its renewal, which is strictly before its expiration; otherwise the caller waits for the recorded request, which it makes exactly if there was none |
| `Integrity.Page.OnVersionReply` | resources/twitch-integrity.js:21-45 | exactly a found version is kept, for fifteen minutes; anything else fails the fetch and leaves the old one |
| `Integrity.Page.Proceed` | resources/twitch-integrity.js:48-128 | a turn clears a recorded request only as its owner and only once settled, begins at most one and only if none is recorded, goes on as its promise turned out, and keeps the invariant |
| `Integrity.Page.OnIntegrityReply` | resources/twitch-integrity.js:101-119 | the request is settled; exactly a token that outlives the making of its request is cached, for the authorization of that request and renewed after nine tenths of that time |
| `Integrity.Page.OnGqlReply` | resources/twitch-integrity.js:142-168 | the call starts over with a forced token and no version exactly if it did not fail, the token was refused and it had not been repeated; otherwise the one result is sent |
| `Integrity.Page.Play` | resources/twitch-integrity.js:1-171 | any schedule of the script is a run of the step system; from a fresh page it violates none of the safety clauses |
| `Similarity.LongestLengthIsLongest` | src/messages/MessageSimilarity.cpp:23-49 | the table's maximum is the length of a longest common substring |
| `Similarity.SimilarityLaws` | src/messages/MessageSimilarity.cpp:51-59 | symmetric, in [0, 1], 1 exactly for equal non-empty texts, 0 exactly when no unit is shared |
| `Similarity.SimilarityIsShare` | src/messages/MessageSimilarity.cpp:51-59 | the similarity times the length of the longer text is the length of the longest common substrings |
| `Similarity.LongestSymmetric` | src/messages/MessageSimilarity.cpp:23-49 | exchanging the texts does not change the length |
| `Similarity.RelativeSimilarity` | src/messages/MessageSimilarity.cpp:19-60 | the in-place table gives the length of the longest common substrings as a share of the longer text |
| `Similarity.InMessages` | src/messages/MessageSimilarity.cpp:62-88 | the largest similarity to a recent enough message that passes the user filter, or 0 |
| `Wrapping.GreedyIsBest` | src/messages/MessageElement.cpp:1019-1058 | pieces make up the word, each fits or is a single character, and no such split has fewer |
| `Wrapping.GreedyIsFewest` | src/messages/MessageElement.cpp:1023-1054 | no acceptable split of the word, or of a longer part of it, has fewer pieces |
| `Wrapping.GreedyIsValid` | src/messages/MessageElement.cpp:1023-1058 | every piece is non-empty, ends between characters and fits or is a single character |
| `Wrapping.LinesAreFull` | src/messages/MessageElement.cpp:1032-1054 | every line stays within its width unless it is a single character, and the next character would have been too much |
| `Wrapping.PiecesMakeTheWord` | src/messages/MessageElement.cpp:1034-1057 | the pieces concatenate to the word |
| `Wrapping.EmptyPieceIff` | src/messages/MessageElement.cpp:1032-1057 | the emitted pieces make up the word, and the first one is empty exactly if the first character is wider than a line |
| `Wrapping.SurrogatesKeptIff` | src/messages/MessageElement.cpp:1025-1030 | no boundary between characters follows a high surrogate exactly when no two of them in a row are followed by a further unit |
| `Wrapping.CutsKeepSurrogatesIff` | src/messages/MessageElement.cpp:1023-1054 | for all widths, no cut of the loop separates a high surrogate from a following unit exactly under that condition on the word |
| `Wrapping.GreedyCutsAtBoundaries` | src/messages/MessageElement.cpp:1032-1054 | cuts are only ever made between characters |
| `Wrapping.NarrowLineCutsEverywhere` | src/messages/MessageElement.cpp:1032-1046 | in a line narrower than every character every boundary is a cut |
| `Wrapping.Wrap` | src/messages/MessageElement.cpp:1019-1058 | the loop emits the greedy split, preceded by an empty piece when the first character does not fit |
| `Tokenizer.TokenizeWords` | src/messages/MessageBuilder.cpp:520-593 | terminates with the tokenization for the reached specials; gives up exactly when one of these reaches beyond the text, which is then the last one, with everything in front of it tokenized |
| `Tokenizer.TokenizationUnique` | src/messages/MessageBuilder.cpp:520-593 | a text with specials has at most one tokenization |
| `Tokenizer.SpecialIsOneToken` | src/messages/MessageBuilder.cpp:545-570 | every special of a tokenized text is exactly one token, with its place and whether a space or the end follows |
| `Tokenizer.WordIsMaximal` | src/messages/MessageBuilder.cpp:533-541 | a word is bounded on both sides by a space, a special or an end of the text |
| `Tokenizer.NothingIsLost` | src/messages/MessageBuilder.cpp:520-593 | all slices in order are the text minus the spaces outside specials |
| `Tokenizer.AllReachedIff` | src/messages/MessageBuilder.cpp:531-578 | all specials are emitted exactly when they are sorted, disjoint and start inside the text; otherwise the first one out of place is the first one missing |
| `Cheermotes.NeverOverspent` | src/messages/MessageBuilder.cpp:2986-3072 | over any words no more bits are given out than the tag says, and none with a negative tag |
| `Cheermotes.SettledAmount` | src/messages/MessageBuilder.cpp:3039-3050 | the amount a word is lowered to is ((v - 1) mod bits) + 1 |
| `Cheermotes.LoweredIsLess` | src/messages/MessageBuilder.cpp:3043-3050 | the rewriting drops the number the whole word spells, so the recursion ends |
| `Cheermotes.LoweringDropsIff` | src/messages/MessageBuilder.cpp:3043-3050 | the captured value drops exactly if the next match captures no more than the new amount, too large a number, or less in front than was taken off |
| `Cheermotes.PlainPrefixesDrop` | src/messages/MessageBuilder.cpp:3043-3050 | the captured value always drops if no prefix is another one continued by digits |
| `Cheermotes.RaisedHasLessRoom` | src/messages/MessageBuilder.cpp:3043-3050 | with a negative tag and no free tier the growing word soon reaches a length no set recognises |
| `Cheermotes.EndsIff` | src/messages/MessageBuilder.cpp:3039-3050 | the rewriting of every word under every tag ends exactly if no tier is free |
| `Cheermotes.RewritingChangesIff` | src/messages/MessageBuilder.cpp:3043-3050 | under negative tags every rewriting changes the word exactly if no tier is free |
| `Cheermotes.PositiveTagEnds` | src/messages/MessageBuilder.cpp:3039-3050 | with bits left the rewriting of any word ends in any catalog |
| `Cheermotes.FreeTierNeverEnds` | src/messages/MessageBuilder.cpp:3043-3050 | an example of a word that a negative tag and a free tier rewrite to itself |
| `Cheermotes.LoweringCanRaiseTheValue` | src/messages/MessageBuilder.cpp:3043-3050 | an example with overlapping prefixes in which the captured value grows |
| `Cheermotes.SettleIs` | src/messages/MessageBuilder.cpp:2994-3041 | what a cheer takes is available, is what it shows and pays for its tier |
| `Cheermotes.ShownIsTaken` | src/messages/MessageBuilder.cpp:3039-3069 | when tiers cost at least a bit each cheer takes a positive amount and shows exactly that number |
| `Cheermotes.MatchesIff` | src/providers/twitch/TwitchChannel.cpp:2003-2005 | a word is recognised exactly if it is the prefix, up to case, and a positive number as it is printed |
| `Cheermotes.LookupIs` | src/providers/twitch/TwitchChannel.cpp:2470-2497 | fails exactly if no set matches with an affordable tier; otherwise the first such set and its first affordable tier are chosen and the digits at the end of the word are captured |
| `Cheermotes.Elements` | src/messages/MessageBuilder.cpp:3052-3069 | a static emote, an animated emote and the amount, in this order and each exactly if the tier has it |
| `Cheermotes.PrintedIs` | src/messages/MessageBuilder.cpp:3029-3034 | the printed number of bits reads back as that number |
| `Cheermotes.MessageBuilder.TryAppendCheermote` | src/messages/MessageBuilder.cpp:2986-3072 | with and without stacking: result, bits left and elements; stacking never spends bits and shows them once |
| `Cheermotes.MessageBuilder.AddWords` | src/messages/MessageBuilder.cpp:1992-1998 | amounts given out plus bits left always equal the tag, and bits left never become negative; negative tags included as long as the rewriting of the words ends |
| `Decimal.DigitsOfValue` | src/messages/MessageBuilder.cpp:3046-3047 | printing a captured number gives back the captured digits, so chopping its length removes exactly them |
| `Decimal.SmallerEnding` | src/messages/MessageBuilder.cpp:3045-3049 | a smaller number at the end of a text makes the whole text worth less |
| `WindowLayouts.RoundTrip` | src/common/WindowDescriptors.cpp:84-240 | a printed tree of any depth is loaded back unchanged exactly when no split names a server |
| `WindowLayouts.SplitRoundTrip` | src/common/WindowDescriptors.cpp:84-190 | a printed split is loaded back up to its server, next to any other fields |
| `WindowLayouts.PrintedSplit` | src/common/WindowDescriptors.cpp:111-132 | a split is written under the names the loader reads, without an empty channel name and without the server |
| `WindowLayouts.PrintedNode` | src/common/WindowDescriptors.cpp:184-240 | so are its sizes, and a container with its direction and its items in order |
| `WindowLayouts.MissingFields` | src/common/WindowDescriptors.cpp:84-276 | what is read for missing fields and values of another kind; "channel" goes before "name" |
| `WindowLayouts.LoadedLayoutIsNormal` | src/common/WindowDescriptors.cpp:278-377 | at most one main window (one exactly if the file wants one) and at most one selected tab per window |
| `WindowLayouts.LoadFromFile` | src/common/WindowDescriptors.cpp:278-377 | fails exactly without a windows array; otherwise type, state, geometry, popup ID, title, selection and root of every window and tab are read from their fields, but for the demotions |
| `WindowLayouts.LoadTabs` | src/common/WindowDescriptors.cpp:341-360 | only the first selected tab stays selected |
| `WindowLayouts.ScoreIs` | src/common/WindowDescriptors.cpp:415-458 | the score of a tree is twice the number of its splits plus the number of those of the channel that have filters; the channel is in the tree exactly if some split shows it |
| `WindowLayouts.SingleSplitIsPreferred` | src/common/WindowDescriptors.cpp:415-465 | a tab with a single split of the channel goes before all tabs with several splits, and before a single one with filters if it has none |
| `WindowLayouts.Visitor.Visit` | src/common/WindowDescriptors.cpp:430-458 | adds two for each split of the tree and one for each of them that shows the channel with filters, and finds the channel exactly if a split shows it |
| `WindowLayouts.WindowLayout.ActivateOrAddChannel` | src/common/WindowDescriptors.cpp:379-481 | only the first main window changes, to the first tab with the lowest score or a new one; without one a main window is added; other providers and names that begin with / or $ change nothing |
| `WindowLayouts.ActivatedTabIsUnique` | src/common/WindowDescriptors.cpp:414-480 | exactly one tab ends up selected, it holds the channel, and a tab is added exactly if none held it, with one plain split of the channel |

## Left out

- LimitedQueues.RunRefines: for a limit of at least one and messages that are assumed to be distinct objects; the condition for repeated needles is stated for single insertions.
- LimitedQueues.LimitedQueue.FindIndex: the overload with a hint, and the convenience readers for the first and last elements and for mapped copies, would add only easy members.
- LimitedQueues.LimitedQueue.PushFront: indices are unbounded, so the wrapped index the original computes for an empty vector (and never uses) does not occur.
- Channels.FillRefinesMerge: other threads only append during the fill; for other concurrent steps the refinement of the log to the ring still holds, but not the merge.
- Channels.CallTreeBounded: listeners run on one thread; they see the log and the signal and answer deterministically for each place in the call tree.
- Channels.Channel.Body: freezing and logging of messages, and what subclasses do when a message is removed from the start.
- SignalVectors.Play: edits in sorted vectors are excluded, and events that would fail an assertion of the code are skipped.
- SignalVectors.RowModel.SetData: subclasses that choose another row before inserting, drag and drop data, headers, item flags and the delayed change timer.
- LinkParser.LinkPort: assumes that an opening parenthesis is not a decimal digit.
- LinkParser.Parse: the list of top level domains and the Unicode digit property are parameters; the empty string is assumed not to be a domain.
- CachedAnimation.CachedFrames.ProcessOffset: `durationOffset` is unbounded here; frames without any duration cannot arise because durations are normalised to at least 20 ms.
- DynamicAnimation.DynamicFrames.Advance: describes ticks that return, since a tick that decodes forever has no result; times are integers without overflow.
- DynamicAnimation.Play: describes animations all of whose ticks return, by the exact condition above; a decoder is assumed to state the same delays for the same bytes.
- Integrity.ProtocolSafety: the ten second abort of the version request is one of its possible failures; headers, nonces and bodies are not modelled.
- Integrity.EveryCallIsAnswered: the script's job queue gives the turn to the owner of a request first; timers are not part of the run because they start new work periodically.
- Similarity.SimilarityLaws: exact real arithmetic; the rounding to float is not modelled.
- Wrapping.Wrap: the branch that uses Qt's private text engine, lines of different widths, and starting in a line that is already partly filled.
- Tokenizer.TokenizeWords: emoji inside words, and sorting and removing duplicates from the specials beforehand.
- Cheermotes.LookupIs: prefixes are taken as literal text although the code puts them into a regular expression, whose end also matches before a final line break.
- Cheermotes.MessageBuilder.AddWords: words whose rewriting never ends, since the original does not return for them; an amount that leaves the range of an int ends the rewriting, while the original leaves this undefined.
- WindowLayouts.RoundTrip: assumes that reading back the text of an identifier gives the identifier, and that numbers are exact.
- WindowLayouts.LoadFromFile: opening the file and parsing the JSON text.
- Creating channels from descriptors, adding links, highlights, emotes, badges and everything else a message is built from.
- Widgets, painting, fonts, settings, network requests and image decoding.
