# FugueMax text CRDT and editor diff, modelled in Dafny

This project models the core of a collaborative text editor. The core has three parts:

- **`calcDiff`** (frontend/src/utils/diff.ts). The editor reduces an old text and a new text to one replacement `{pos, del, ins}`. It removes the longest common prefix, then the longest common suffix that does not overlap that prefix.
- **The FugueMax document** (backend/fuguemax/fugue-max-crdt.go). A replica holds:
  - its agent name;
  - a list of items, where deleted items stay in the list as tombstones;
  - a version, which maps each agent to the highest sequence number integrated from it.

  The operations are:
  - local insertion of a character and of a text;
  - local deletion;
  - `Integrate`, which places an item between its left and right origins and breaks ties by agent name;
  - `MergeInto`, which integrates another replica's unseen items in passes and then copies its tombstones.
- **The prototype document** (crdt.go). It is a plain item list with a checked single-character constructor and a text view.

Modules follow the source files:

| file | module | models |
|---|---|---|
| base.dfy | `Base` | `Option`, `Result`, Go's `uint64` and its wrap-around, Go's string order |
| items.dfy | `Items` | ids, origins, items, and the text an item list shows (`Content`, `Visible`) |
| diff.dfy | `Diff` | `calcDiff` and a recursive reference definition of it |
| prototype.dfy | `Prototype` | crdt.go |
| fugue_doc.dfy | `FugueDoc` | the replica, `findItemIndexAtPos`, `StringContent`, `LocalDelete` |
| fugue_integrate.dfy | `FugueIntegrate` | `idsEqual`, `findIndexById`, `findOriginIndex`, `Integrate` |
| fugue_local.dfy | `FugueLocal` | `localInsertChar`, `LocalInsertText` |
| fugue_merge.dfy | `FugueMerge` | `isInVersion`, `canInsert`, `MergeInto` |

Go mutates a `*Doc` in place and returns `(success, error)`. Each model operation instead returns an `Outcome`:

- `Ok(doc)`;
- `Err(doc, error)`, where `doc` keeps any changes made before the error;
- `Panic(doc, reason)`, which stands for a Go panic: the explicit out-of-order panic, or an index out of range. The server keeps its replicas in package variables and serves them through Go's `net/http`, which recovers from a handler's panic (backend/server/server.go:14-28). The replica stays in use, so `doc` is the replica as the panic left it, with every change made before it.

Go's map iteration order is unspecified. The model chooses each next key with `:|`, so every proved property holds for any order.

Several behaviours of the source are kept exactly as written:

- **Left origin of a local insert.** `localInsertChar` takes a left origin only when `index-1 > 0`. An insert at list index 1 is therefore anchored to the document start, and the tie-break may put it in front of item 0. `FugueLocal.LocalInsertChar` states both placements, and gives a concrete case in which the character lands at the front.
- **Byte offsets in `LocalInsertText`.** It advances the position by each rune's UTF-8 byte offset, not by its rune index. After a multi-byte rune, later runes target positions further right than intended, and a rune can land past the end and be dropped. `FugueLocal.MultiByteRunePushesOut` gives a two-rune text typed into an empty document that loses its second rune, and three-rune text whose second and third runes are both pushed out. `FugueLocal.LocalInsertText` states that the text then never arrives whole: when some rune's byte position is past the end even after every earlier rune was added, fewer items than runes are added.
- **`LocalDelete` past the end.** When `LocalDelete` runs out of visible items, the lookup returns the list length. Indexing with it panics after every live item from `pos` on has been marked (`FugueDoc.DeleteOutcome`).
- **Sequence number 0 in `canInsert`.** `canInsert` allows sequence number 0. But `isInVersion` counts every id with sequence number 0 as seen, so such an item is never inserted (`FugueMerge.IsInVersion`, `FugueMerge.CanInsert`).

## Model

| member | source | states |
|---|---|---|
| Base.AddU64 | backend/fuguemax/fugue-max-crdt.go:194-196 | Go's `uint64` addition: the exact sum below 2^64, and the sum minus 2^64 when it overflows |
| Base.StringLess | backend/fuguemax/fugue-max-crdt.go:237 | the tie-break `newItem.id.agent < existingItem.id.agent`: it never holds between equal names, and a proper prefix sorts first |
| Base.StringLessIrreflexive | backend/fuguemax/fugue-max-crdt.go:237 | no agent name sorts before itself in the conflict tie-break |
| Base.StringLessAsymmetric | backend/fuguemax/fugue-max-crdt.go:237 | two agent names are never each before the other |
| Base.StringLessTransitive | backend/fuguemax/fugue-max-crdt.go:237 | the tie-break order on agent names is transitive |
| Base.StringLessConnected | backend/fuguemax/fugue-max-crdt.go:237 | two different agent names are always ordered one way, so the tie-break always decides |
| Items.ConcatVisible | crdt.go:66-74 | the text-building loop returns exactly the reference text: live items' contents in list order |
| Items.ContentAppendItem | backend/fuguemax/fugue-max-crdt.go:73-77 | one more item adds its content and one visible item exactly when it is not deleted |
| Items.ContentAppend | backend/fuguemax/fugue-max-crdt.go:71-80 | the text and visible count of a concatenated list are those of the parts, joined |
| Items.ContentAllDeleted | crdt.go:68-72 | a list of tombstones shows the empty text |
| Items.ContentLength | backend/fuguemax/fugue-max-crdt.go:71-80 | with one character per item, the text length equals the number of live items |
| Items.VisiblePrefixStep | backend/fuguemax/fugue-max-crdt.go:85-97 | passing one index raises the visible position by one for a live item and by nothing for a tombstone |
| Items.VisiblePrefixMonotone | backend/fuguemax/fugue-max-crdt.go:85-97 | visible positions never decrease along the list, and strictly increase past a live item |
| Diff.At | frontend/src/utils/diff.ts:16 | JavaScript indexing reads a value exactly for in-range indices, and `undefined` otherwise |
| Diff.CommonPrefix | frontend/src/utils/diff.ts:15-18 | both texts agree on the first `n` code points, and `n` cannot be extended |
| Diff.CommonSuffix | frontend/src/utils/diff.ts:20-27 | the last `n` code points agree, they stay clear of the prefix, and `n` cannot be extended |
| Diff.CommonPrefixUnique | frontend/src/utils/diff.ts:15-18 | any prefix length that agrees and cannot be extended is the one the scan finds |
| Diff.CommonSuffixUnique | frontend/src/utils/diff.ts:20-27 | any bounded suffix length that agrees and cannot be extended is the one the scan finds |
| Diff.CalcDiff | frontend/src/utils/diff.ts:8-41 | the loops compute the reference diff; applying the result to the old text gives the new text; the result is the no-op exactly when the texts are equal |
| Diff.DiffRoundTrip | frontend/src/utils/diff.ts:29-40 | the replacement lies inside the old text, and splicing it in rebuilds the new text |
| Diff.DiffIdentity | frontend/src/utils/diff.ts:10 | equal texts give `{pos: 0, del: 0, ins: ""}` |
| Diff.DiffNoOpIffEqual | frontend/src/utils/diff.ts:10-34 | nothing is deleted and nothing inserted if and only if the texts are equal |
| Diff.DiffFields | frontend/src/utils/diff.ts:29-40 | `pos` is the longest common prefix; the kept tail is a common suffix; `del` and `ins` are the two middles, which differ in their last code point when both are non-empty |
| Diff.DiffPureAppend | frontend/src/utils/diff.ts:8-41 | when the old text is a proper prefix of the new one, the result inserts the new tail at the end and deletes nothing |
| Diff.DiffPureTruncation | frontend/src/utils/diff.ts:8-41 | when the new text is a proper prefix of the old one, the result deletes the old tail and inserts nothing |
| Diff.DiffExamples | frontend/src/utils/diff.ts:8-41 | concrete results for a substitution, an insert into a run of equal characters, and an empty side |
| Prototype.NewUnicodeCharacter | crdt.go:19-24 | a string is accepted exactly when it has one rune; otherwise the result is the empty string with the single-character error |
| Prototype.NewDoc | crdt.go:61-63 | a new document has no items and shows nothing |
| Prototype.StringContent | crdt.go:66-74 | the live items' contents in list order; only tombstones show the empty text |
| Prototype.AppendLiveItem | crdt.go:85-90 | appending a live item extends the text by exactly its content |
| Prototype.AppendDeletedItem | crdt.go:66-74 | appending a tombstone leaves the text and the visible count unchanged |
| FugueDoc.NewDoc | backend/fuguemax/fugue-max-crdt.go:66-68 | a new replica has its agent, no items, and has seen nothing from anybody |
| FugueDoc.StringContent | backend/fuguemax/fugue-max-crdt.go:71-80 | the text is the live items' contents in list order; when every item holds one character, its length is the visible count |
| FugueDoc.FindItemIndexAtPos | backend/fuguemax/fugue-max-crdt.go:83-106 | an error exactly when `pos` exceeds the visible count. Otherwise it returns an index with `pos` live items before it. Insert mode gives the first such index. Delete mode gives a live item, or the list length when `pos` equals the visible count |
| FugueDoc.ScanForPos | backend/fuguemax/fugue-max-crdt.go:84-104 | the lookup loop from any index on, with the same guarantees relative to the live items already passed |
| FugueDoc.MarkDeletedRank | backend/fuguemax/fugue-max-crdt.go:150-159 | after deleting from `pos`, each visible position beyond the deleted span moves left by the number of items deleted before it |
| FugueDoc.MarkDeletedVisible | backend/fuguemax/fugue-max-crdt.go:150-162 | deleting `m` items that all exist lowers the visible count by exactly `m` |
| FugueDoc.MarkDeletedKeepsIds | backend/fuguemax/fugue-max-crdt.go:157 | deleting only sets flags: the id list is unchanged |
| FugueDoc.MarkDeletedNone | backend/fuguemax/fugue-max-crdt.go:151 | deleting zero items changes nothing |
| FugueDoc.MarkDeletedStep | backend/fuguemax/fugue-max-crdt.go:151-159 | the live item the repeated lookup finds is the next one of the original span, and marking it extends the span by one |
| FugueDoc.DeleteLookup | backend/fuguemax/fugue-max-crdt.go:152-157 | each lookup inside the deletion loop fails only when `pos` was never visible, returns the list length once the span has run out, and otherwise finds the next item to mark |
| FugueDoc.DeleteOutcome | backend/fuguemax/fugue-max-crdt.go:150-162 | deletion only sets flags, keeping agent, version and ids. It errs, unchanged, exactly when the count is positive and `pos` is past the visible count. It panics exactly when the span runs past the end, and then every live item from `pos` on is marked. Otherwise exactly `numChars` live items go |
| FugueDoc.LocalDelete | backend/fuguemax/fugue-max-crdt.go:150-162 | the loop equals the reference outcome `DeleteOutcome`: nothing for a non-positive count, an error past the visible count, a panic that keeps the marks already made when the span runs past the end, else the span marked deleted |
| FugueIntegrate.IdsEqual | backend/fuguemax/fugue-max-crdt.go:164-166 | the field-by-field test is plain equality of ids |
| FugueIntegrate.FindIndexById | backend/fuguemax/fugue-max-crdt.go:169-176 | the first index holding the id, or -1 exactly when no item has it |
| FugueIntegrate.FindIdFrom | backend/fuguemax/fugue-max-crdt.go:170-175 | the search loop from any index on: the first match from there, or -1 when there is none |
| FugueIntegrate.FindIndexOfUnique | backend/fuguemax/fugue-max-crdt.go:169-176 | with unique ids, looking up the id of item `k` finds `k` |
| FugueIntegrate.FindOriginIndex | backend/fuguemax/fugue-max-crdt.go:178-190 | the start marker is index -1, the end marker the list length, and an id an index in between |
| FugueIntegrate.FindOriginOrder | backend/fuguemax/fugue-max-crdt.go:178-190 | with unique ids, origin indices follow the document: the start marker before every item, each item's id at its own index, the end marker after every item |
| FugueIntegrate.FindDestIndex | backend/fuguemax/fugue-max-crdt.go:203-255 | the scan stops after the left origin and not past the right origin. It stops right after the left origin when nothing lies between the origins. It moves only past items whose left origin is not further left, or that win the agent tie-break. When the first item after the left origin has the same origins and wins the tie-break, the item goes after it |
| FugueIntegrate.Integrate | backend/fuguemax/fugue-max-crdt.go:192-259 | it panics exactly when the item is not its agent's next operation, and then nothing has changed. Otherwise it raises only that agent's version entry, and splices the item in at a place the scan allows, keeping every other item in order |
| FugueIntegrate.InsertedAtFacts | backend/fuguemax/fugue-max-crdt.go:258 | a splice adds one item and its id, adds one visible item and its content when it is live, and keeps the text on both sides |
| FugueIntegrate.InsertedAtItems | backend/fuguemax/fugue-max-crdt.go:258 | a splice adds exactly the new item to the multiset of items |
| FugueLocal.LocalOriginLeft | backend/fuguemax/fugue-max-crdt.go:117-120 | the left origin is the id of the item before the index exactly when the index is 2 up to the list length; index 1 gets the document start, like index 0 |
| FugueLocal.LocalOriginRight | backend/fuguemax/fugue-max-crdt.go:122-125 | the right origin is the id of the item at the index exactly when the index lies inside the list, and the end marker otherwise |
| FugueLocal.LocalInsertChar | backend/fuguemax/fugue-max-crdt.go:108-138 | an error, with nothing changed, exactly when `pos` is past the visible count; it never panics. Otherwise it adds one live item with the agent's next id and bumps only the agent's version. With unique ids, the item lands at the target index, and the text gets the character spliced in there, except at index 1, where it may land in front of item 0 |
| FugueLocal.LocalInsertEffect | backend/fuguemax/fugue-max-crdt.go:117-135 | what integrating the locally built item does to the list: the placements above and the new text |
| FugueLocal.LocalPlacement | backend/fuguemax/fugue-max-crdt.go:117-125 | with unique ids, the scan puts the local item at its target index, or at 0 or 1 when the target is 1; it goes to 1 when item 0 has the same origins and wins the tie-break; a position other than 1 never targets index 1 |
| FugueLocal.InsertIndexNotOne | backend/fuguemax/fugue-max-crdt.go:112-118 | the quirky list index 1 is only targeted from visible position 1 |
| FugueLocal.InsertKeepsText | backend/fuguemax/fugue-max-crdt.go:71-80 | splicing a one-character live item at a list index splices its character into the text at that index's visible position |
| FugueLocal.CutAtVisible | backend/fuguemax/fugue-max-crdt.go:71-80 | cutting the text of two joined lists at the first list's visible count gives the two lists' texts |
| FugueLocal.FreshInsertKeepsInvariant | backend/fuguemax/fugue-max-crdt.go:108-135 | a local insert keeps ids unique, keeps the replica's own ids counted in its version and keeps one character per item |
| FugueLocal.Utf8Width | backend/fuguemax/fugue-max-crdt.go:141 | a rune takes one to four UTF-8 bytes, and one exactly when it is ASCII |
| FugueLocal.ByteOffset | backend/fuguemax/fugue-max-crdt.go:141-142 | the byte index `i` of rune `k` lies between `k` and `4k` |
| FugueLocal.ByteOffsetIsIndex | backend/fuguemax/fugue-max-crdt.go:141-142 | the byte index of rune `k` equals `k` exactly when every earlier rune is one byte |
| FugueLocal.RunePosition | backend/fuguemax/fugue-max-crdt.go:142 | the position used for a rune is at most `pos` plus its byte offset, and is `pos + k` for one-byte text below 2^64 |
| FugueLocal.TypedStep | backend/fuguemax/fugue-max-crdt.go:140-144 | typing one more rune keeps the typing invariant and extends the spliced prefix of the text by that rune |
| FugueLocal.TypedText | backend/fuguemax/fugue-max-crdt.go:140-144 | inserting rune `k` right after the first `k` typed runes gives the first `k + 1` runes spliced in |
| FugueLocal.CountsStep | backend/fuguemax/fugue-max-crdt.go:141-143 | each rune adds at most one item, and the version moves on by exactly the items added |
| FugueLocal.ReachStep | backend/fuguemax/fugue-max-crdt.go:141-143 | one more rune keeps the reach facts: at a valid position the first rune is always inserted, and a rune targeting past the end is dropped |
| FugueLocal.AsciiStep | backend/fuguemax/fugue-max-crdt.go:141-143 | for one-byte text at a valid position, each rune adds one live item |
| FugueLocal.TypeRuneEffect | backend/fuguemax/fugue-max-crdt.go:141-143 | one turn of the loop keeps the loop invariant, including when the insert errs |
| FugueLocal.TypeRune | backend/fuguemax/fugue-max-crdt.go:141-143 | one turn of the loop keeps the loop invariant and adds at most one item |
| FugueLocal.SecondRuneAfterFirst | backend/fuguemax/fugue-max-crdt.go:140-144 | typing at position 0, the second rune targets list index 1, where it ties with the first rune and goes after it, so the text still comes out in order |
| FugueLocal.LocalInsertText | backend/fuguemax/fugue-max-crdt.go:140-144 | it adds at most one item per rune, keeping the agent. It changes nothing when nothing is added, and otherwise advances the version by the items added. A non-empty text at a valid position adds at least one item. One-byte text at a valid position adds every rune. When some rune's byte position is past the end even after every earlier rune was added, not every rune is added. Under the settling conditions, the text gets `text` spliced in at `pos` |
| FugueLocal.MultiByteRunePushesOut | backend/fuguemax/fugue-max-crdt.go:140-144 | `"éa"` typed at 0 into an empty document targets position 2 for `a`, past the end, so `a` is dropped; in `"éab"` both `a` and `b` target positions past the end even if every earlier rune was added |
| FugueMerge.IsInVersion | backend/fuguemax/fugue-max-crdt.go:261-265 | an id counts as seen when its sequence number is at most the agent's entry; sequence number 0 is always seen, and an agent missing from the version has seen exactly that |
| FugueMerge.CanInsert | backend/fuguemax/fugue-max-crdt.go:267-291 | an item `canInsert` accepts has a non-zero sequence number that is exactly its agent's next one, so `Integrate` does not panic on it |
| FugueMerge.Pending | backend/fuguemax/fugue-max-crdt.go:296-302 | the pending map holds exactly the unseen source ids, each mapped to a source item with that id |
| FugueMerge.IntegrateVersion | backend/fuguemax/fugue-max-crdt.go:201 | integrating an agent's next item makes that id seen, keeps seen ids seen, keeps other unseen ids unseen, and only raises version entries |
| FugueMerge.VersionFrameStep | backend/fuguemax/fugue-max-crdt.go:201 | writing one integrated id's entry changes no other agent's entry: every entry is the old one or the sequence number of an integrated id from that agent |
| FugueMerge.VersionFrameTrans | backend/fuguemax/fugue-max-crdt.go:306-335 | two runs of integrations together change only the entries of the ids integrated by either |
| FugueMerge.PassInsertStep | backend/fuguemax/fugue-max-crdt.go:311-324 | integrating an accepted pending item extends what the pass has done by that id |
| FugueMerge.VisitPending | backend/fuguemax/fugue-max-crdt.go:311-324 | one turn of the pass loop integrates the item exactly when it is insertable, and keeps the pass invariant, including the items added |
| FugueMerge.InsertPass | backend/fuguemax/fugue-max-crdt.go:311-325 | the pass integrates a subset of the pending ids, which become seen while the rest stay unseen. Every version entry is unchanged or holds the sequence number of an id it integrated from that agent. It adds one item per integrated id, and the items added are exactly the pending items with those ids. It integrates nothing exactly when no pending item is insertable, and then changes nothing |
| FugueMerge.CopyTombstones | backend/fuguemax/fugue-max-crdt.go:338-350 | the walk keeps the list length and only sets deleted flags, never before the index it starts from, whether it completes or panics |
| FugueMerge.EmbedsNeedRoom | backend/fuguemax/fugue-max-crdt.go:341 | a source item still to match needs a destination index still to look at |
| FugueMerge.EmbedsSkip | backend/fuguemax/fugue-max-crdt.go:341-343 | a destination item that does not match the current source id is never part of an in-order match |
| FugueMerge.EmbedsCons | backend/fuguemax/fugue-max-crdt.go:341-349 | a match at the current index followed by an in-order match of the rest is an in-order match |
| FugueMerge.EmbedsTail | backend/fuguemax/fugue-max-crdt.go:341-349 | the rest of an in-order match is an in-order match of the remaining source past the current index |
| FugueMerge.CopyTombstonesSucceeds | backend/fuguemax/fugue-max-crdt.go:338-350 | the walk avoids the index panic exactly when the source ids occur, in order, among the destination ids |
| FugueMerge.CopyTombstonesCopies | backend/fuguemax/fugue-max-crdt.go:345-347 | after the walk, every deleted source item has a deleted destination item with its id |
| FugueMerge.CopyTombstonesIdempotent | backend/fuguemax/fugue-max-crdt.go:337-350 | walking again over the walk's result changes nothing |
| FugueMerge.WalkTombstones | backend/fuguemax/fugue-max-crdt.go:337-350 | the nested loops compute the recursive walk, including the list as the index panic leaves it |
| FugueMerge.PendingOfSeen | backend/fuguemax/fugue-max-crdt.go:296-302 | a destination that has seen every source id has nothing pending |
| FugueMerge.PassesStart | backend/fuguemax/fugue-max-crdt.go:296-304 | before the first pass, everything is pending and nothing has changed |
| FugueMerge.PassStep | backend/fuguemax/fugue-max-crdt.go:327-333 | removing the ids a pass integrated keeps the merge invariant, including the items gained and the version entries written so far, and the count drops by their number |
| FugueMerge.PassesIntegrated | backend/fuguemax/fugue-max-crdt.go:304-335 | between passes the destination holds exactly its own items plus those of the ids taken out, has seen exactly those pending ids, and has written only their agents' entries |
| FugueMerge.PassesSoFar | backend/fuguemax/fugue-max-crdt.go:327-328 | what the passes have done at any point, in particular at the early return: some set of pending ids integrated exactly, and only pending ids' entries written |
| FugueMerge.PassContentsStep | backend/fuguemax/fugue-max-crdt.go:318-333 | the ids and items gained so far grow by exactly the ids and items of the pending entries a pass integrated |
| FugueMerge.NoProgressStuck | backend/fuguemax/fugue-max-crdt.go:327-329 | a pass that integrates nothing leaves unseen pending items, none of them insertable |
| FugueMerge.PassesDone | backend/fuguemax/fugue-max-crdt.go:304-335 | once nothing is pending, every source id is seen and the destination gained exactly one item, the source's, per pending id |
| FugueMerge.IntegratePending | backend/fuguemax/fugue-max-crdt.go:296-335 | the passes never panic and keep the agent and every destination item, and write only version entries of pending ids. "Not making progress" leaves the merge stuck, holding exactly the pending items some earlier passes integrated, with exactly those ids seen; it comes at once, with nothing changed, when no pending item is insertable. Otherwise every source id is seen and the destination gained exactly the pending source items. Nothing pending means nothing changes |
| FugueMerge.MergeInto | backend/fuguemax/fugue-max-crdt.go:295-353 | on error, the passes are stuck, the destination holds exactly the pending items integrated by earlier passes, and nothing has changed when no pending item was insertable. The version changes only in entries of pending source ids, so an agent the source never mentions keeps its entry. It panics exactly when the source ids are not in order among the merged items. Whatever the outcome, every destination item is still there, at most marked deleted, and destination tombstones stay tombstones. A success copies the source's tombstones, so every deleted source item has a deleted item with its id, and leaves the source absorbed. Merging an absorbed source returns the destination unchanged, so merging twice is merging once |
| FugueMerge.UnmentionedAgentsKept | backend/fuguemax/fugue-max-crdt.go:296-302 | an agent that no source item comes from keeps its version entry when only pending source ids' entries are written |
| FugueMerge.WalkKeepsItems | backend/fuguemax/fugue-max-crdt.go:337-350 | a list holding every destination item, walked by a flag-setting walk, still holds each of them, at most marked deleted, and each tombstone unchanged |

## Left out

- backend/server/server.go and the frontend API routes are the HTTP layer around the core and are not part of this model.
- `main` in crdt.go and `Main` in fugue-max-crdt.go are demo drivers that print. Prototype.AppendLiveItem states what `main`'s append does to the text.
- `RemoteInsertItem` (backend/fuguemax/fugue-max-crdt.go:146-148) only forwards to `Integrate`, whose row covers it.
- The `default` branch of `findOriginIndex` prints and returns -1. It is unreachable here, because `Origin` has exactly the three cases of the source's type switch.
- Nil origin interface values are left out. `canInsert` would leave the corresponding `exists` flag false for them. Origins here are always a marker or an id.
- Error message texts are left out. The errors are the constructors `ItemNotFound`, `NotMakingProgress` and `NotSingleCharacter`.
- Go's in-place mutation through `*Doc` is modelled as a returned `Outcome`. `localInsertChar`'s `(true, nil)` is `Ok`. A panic's message text is reduced to its `PanicReason`.
- Strings are sequences of code points. Invalid UTF-8, which Go would read as U+FFFD, is not modelled. Rune widths in `LocalInsertText` come from the code point.
- Base.StringLess: Go compares agent names by UTF-8 bytes. The model compares code points, which gives the same order for valid UTF-8. That equivalence is not proved here.
- Convergence is not stated: replicas that merge each other's operations in any order are not shown to end with the same list.
- FugueIntegrate.FindDestIndex: `Placed` allows every index where the scan could stop. The exact index chosen through the `scanning` flag is not stated beyond that.
- FugueIntegrate.Integrate: states placement only through `Placed`, like FindDestIndex, not the unique index the scan picks.
- FugueLocal.LocalInsertChar: the exact target index and the text splice are stated only for lists with unique ids. With duplicate ids, the origin lookup can resolve to another item.
- FugueLocal.LocalInsertText: the text splice is stated only under `TypingSettles`. That means one-byte runes, `pos` at most the visible count and not 1, no 2^64 wrap, unique ids, own ids counted, and one character per item. At position 1 the left-origin behaviour can put the first rune in front of item 0. With multi-byte runes the byte offsets spread the runes out, which is stated only through a count: when a rune is pushed out, fewer items than runes are added. Which runes are dropped, and the exact number of items added, are not stated.
- FugueMerge.InsertPass: the items after the pass are stated through their multiset, not their order. Each `Integrate` call's placement is proved, but it is not carried through the pass.
- FugueMerge.MergeInto: the merged list is stated through its multiset of items and the copied tombstones, not through the position of each integrated item. Go visits the pending map in an unspecified order, so the order of integrations within a pass is left open.
