# gossip-object document model in Dafny

This project models the replicated JSON-like document of `gossip-object`
(`index.js`). Each replica keeps a history of changes. A change either sets
a scalar at a key path or deletes a key path, and it is tagged with the
update (transaction, timestamp, source id) that carried it. Merging new
updates re-sorts the whole history by update order. It then folds over the
sorted history: each change removes every earlier change whose path is an
ancestor or descendant of its own, then appends itself. Readers see a tree
projected from the surviving history and memoised until the next merge.
Peers ask for a digest of the updates they have not yet seen.

Modules:

- `Shapes`: raw JavaScript values and the validators for key, path, value,
  change, transaction and update. It also gives the typed reading of a
  valid change and builds the `set`/`ref`/`delete` changes from a path.
- `Paths`: the prefix test, and comparability (one path is a prefix of the
  other).
- `Order`: the update order used by `byTimestamp`. Timestamps ascend, and
  ties are broken by comparing source ids as strings.
- `Compaction`: tagging, the stable sort and `Survivors`. `Survivors` is the
  reference definition of the fold: a change stays exactly when no later
  change has a comparable path. `Merged` is the new history. The
  compaction invariant and idempotence are proved here.
- `Projection`: the tree, writing and reading at a path, and `Project`,
  the fold behind `_toJSON`.
- `Digest`: `history(sources)` as a function of the stored history.
- `Document`: the `Model` class (fields `changes` and `cache`) and the
  `Transaction` class (field `buffer`). Their methods are proved against
  the functions above. Loops appear only where the source iterates and
  mutates.
- `Scenarios`: concrete merges that fix how the engine behaves on small
  inputs.

The model follows the code in three places where the code differs from
the protocol's intended design:

- `applyUpdate` answers true for every valid update. This includes an
  update whose changes are all superseded at once.
- The projection ignores deletes. A delete affects the document only
  through the changes the merge removed because of it.
- The merge does not converge for every delivery order.
  `Scenarios.MergeOrderMatters` shows this with a.b@1, a@2 and a.c@3, each from a different replica.
  Delivered in order 1, 2, 3, the replica keeps only a.c. Delivered in
  order 2, 3, 1, a.b comes back, because the set of `a` that superseded it
  was compacted away before a.b arrived.

## Model

| member | source | states |
|---|---|---|
| Shapes.ValidKey | index.js:25-30 | a key is a string of nonzero length other than `__proto__` |
| Shapes.ValidPath | index.js:32-38 | a path is a non-empty array whose elements are all valid keys |
| Shapes.ValidRef | index.js:50-53 | no reference is valid in the base document |
| Shapes.ValidChange | index.js:55-71 | a change is an array whose first element is a valid path, with nothing else (delete), or one valid value (set), or `'ref'` and a valid key and a valid reference |
| Shapes.ValidTransaction | index.js:73-79 | a transaction is a non-empty array of valid changes |
| Shapes.ValidUpdate | index.js:81-85 | an update is valid when its transaction is; timestamp and source id are not checked |
| Shapes.NormalizePath | index.js:101 | a lone string given as a path becomes the one-key path; anything else is kept |
| Shapes.SetChange | index.js:100-103 | `set` builds `[path, value]` from the normalised path |
| Shapes.RefChange | index.js:105-108 | `ref` builds `[path, 'ref', key]` from the normalised path |
| Shapes.DeleteChange | index.js:110-113 | `delete` builds `[path]` from the normalised path |
| Shapes.EveryKey | index.js:34-38 | a path's keys are all valid exactly when every element is a non-empty string other than `__proto__` |
| Shapes.ValidValue | index.js:45-48 | a value is valid exactly when it is neither an array nor a non-null object |
| Shapes.EveryChange | index.js:75-79 | a transaction's changes all pass exactly when each one is a valid change |
| Shapes.ParseChange | index.js:58-71 | reading a raw change succeeds exactly when the validator accepts it, yields a valid key path, and re-encodes to the same raw change |
| Shapes.EncodeThenParse | index.js:55-71 | every typed change on a valid path encodes to a change the validator accepts and reads back to itself |
| Shapes.ValidChangeForms | index.js:50-71 | the valid changes are exactly `[path]` and `[path, value]`; the `ref` form never passes because references are always rejected |
| Shapes.BuildersValidity | index.js:100-113 | a string path is valid exactly when it is a valid key; `set` yields a valid change iff path and value are valid, `delete` iff the path is valid, `ref` never |
| Paths.StartsWith | index.js:199-204 | answers true exactly when `prefix` is a prefix of `value`, so a longer prefix gives false |
| Paths.Comparable | index.js:158-162 | two paths conflict when one is a prefix of the other, in either direction |
| Paths.ComparableBasics | index.js:158-162 | the conflict test is symmetric and every path conflicts with itself |
| Order.StrLess | index.js:196 | the string order of `a[2] > b[2]`: lexicographic on characters, a proper prefix first |
| Order.Later | index.js:196 | an update sorts after another when its timestamp is greater, or the timestamps are equal and its source id is greater |
| Order.ByTimestamp | index.js:196 | the comparator never answers 0 and is positive exactly when the first update sorts after the second |
| Order.StrLessIrreflexive | index.js:196 | no source id sorts before itself |
| Order.StrLessTransitive | index.js:196 | the source-id order is transitive |
| Order.StrLessTotal | index.js:196 | any two distinct source ids are ordered one way or the other |
| Order.LaterAsymmetric | index.js:196 | no update sorts after itself, and of two updates at most one sorts after the other |
| Order.LaterTotal | index.js:196 | two updates are ordered one way or the other unless they share timestamp and source id |
| Order.NotLaterTransitive | index.js:196 | "does not sort after" is transitive, so the sorted order is a total preorder |
| Order.LaterMonotone | index.js:144-145 | an entry that does not sort after `b` but sorts after `c` forces `b` after `c`, so a sorted history splits at any update |
| Compaction.Tag | index.js:137-139 | the changes of one update's transaction, in order, each tagged with that update |
| Compaction.TagAll | index.js:136-142 | the tagged changes of several updates, one update after another, as the pushes append them |
| Compaction.Insert | index.js:144-145 | one sort step: places an entry after every entry of a sorted prefix that does not sort after it |
| Compaction.Mask | index.js:158-162 | the filter: keeps, in order, the entries whose paths are comparable with no path of the superseding entries |
| Compaction.SortByUpdate | index.js:144-145 | the sort of the history by update order, stable: entries that tie keep their order |
| Compaction.Survivors | index.js:146-166 | the reference outcome of the fold: an entry stays exactly when no later entry has a comparable path |
| Compaction.Merged | index.js:135-167 | the new history: survivors of the sorted concatenation of the old history and the tagged changes of the updates |
| Compaction.TagAllSnoc | index.js:136-142 | tagging one more update appends exactly that update's changes, in order, after the ones tagged so far |
| Compaction.SortSorted | index.js:144-145 | the sort yields a sequence in update order that is a permutation of its input |
| Compaction.SortOfSorted | index.js:144-145 | re-sorting a history that is already in update order leaves it unchanged |
| Compaction.SortAppendedBlock | index.js:141-145 | a block of changes from one update, appended to a sorted history, sorts to sit after every entry not later than it and before every entry later than it |
| Compaction.SplitSorted | index.js:144-145 | in a sorted history the entries not after an update form a prefix and the rest all sort after it |
| Compaction.MaskAppend | index.js:158-162 | the filter step distributes over concatenation |
| Compaction.MaskMembers | index.js:158-162 | the filter keeps only entries with no comparable path in the superseding entries |
| Compaction.SurvivorsMembers | index.js:146-166 | only entries of the input survive the fold |
| Compaction.SurvivorsKeepsUnsuperseded | index.js:146-166 | an entry is dropped only when some later entry has a comparable path |
| Compaction.SurvivorsAppend | index.js:146-166 | survivors of a concatenation are the first part's survivors not superseded by the second part, followed by the second part's survivors; with a one-entry second part this is one fold step |
| Compaction.SurvivorsIncomparable | index.js:146-166 | no two survivors have comparable paths |
| Compaction.SurvivorsSorted | index.js:144-166 | survivors of a sorted history stay in update order |
| Compaction.SurvivorsSubsequence | index.js:146-166 | the survivors are a subsequence of the input |
| Compaction.SurvivorsOfIncomparable | index.js:146-166 | a history with no comparable paths survives the fold whole |
| Compaction.MergedCompacted | index.js:135-167 | a merge yields a history that is sorted and free of comparable paths, and is a subsequence of a permutation of the old history plus the new changes |
| Compaction.MergeIdempotent | index.js:135-167 | merging an update a second time into the history its first merge produced leaves that history unchanged |
| Compaction.MergedWellFormed | index.js:135-167 | a merge stores only valid key paths |
| Compaction.TagAllWellFormed | index.js:136-142 | every tagged change of a valid update has a valid key path |
| Projection.SetAt | index.js:187 | writes a scalar at a path, creating objects for missing keys and replacing a scalar met on the way |
| Projection.GetAt | index.js:117 | the node at a path, if every key on the way names a child of an object |
| Projection.Apply | index.js:183-188 | one reduce step: a delete leaves the tree alone, a set writes its value at its path |
| Projection.Project | index.js:181-190 | the history folded from the left into the empty object |
| Projection.GetSetSame | index.js:187 | a scalar written at a path is read back at that path |
| Projection.GetSetOther | index.js:187 | writing at a path leaves every incomparable path as it was |
| Projection.EmptyHasNothing | index.js:183-189 | the initial empty object holds nothing at any non-empty path |
| Projection.ProjectShowsSets | index.js:181-190 | in a history without comparable paths, every set's value is found at its path in the projection |
| Projection.ProjectOnlySets | index.js:181-190 | anything found in the projection lies on the line of some set in the history |
| Projection.ProjectHidesDeletes | index.js:184-185 | in a history without comparable paths, nothing is found at a deleted path |
| Digest.UpdatesOf | index.js:171-172 | the update each stored change came from, in history order |
| Digest.Wanted | index.js:177 | a peer wants an update when it reports no sources, or nothing or 0 for the update's source, or a smaller timestamp |
| Digest.Dedup | index.js:172-173 | keeps each update unless it equals the one just before it in the mapped list |
| Digest.Since | index.js:174-178 | keeps, in order, the updates the peer wants |
| Digest.HistoryOf | index.js:170-179 | the updates of the stored changes, adjacent repeats collapsed, restricted to what the peer wants |
| Digest.DedupMembers | index.js:173 | collapsing runs loses no update, adds none, and keeps the last one |
| Digest.DedupNoAdjacentRepeats | index.js:173 | after collapsing, no update is followed by an equal one |
| Digest.DedupIncreasing | index.js:171-173 | for a history in update order with unique (timestamp, source) keys, the collapsed updates are strictly increasing |
| Order.LaterTransitive | index.js:196 | "sorts after" is transitive |
| Digest.SinceMembers | index.js:174-178 | the filter keeps exactly the updates the peer wants, and keeps everything when no sources are given |
| Digest.SinceIncreasing | index.js:174-178 | filtering keeps an increasing digest increasing |
| Digest.DigestContents | index.js:170-179 | an update is in the digest iff some stored change came from it and the peer wants it; for a compacted history with unique update keys the digest is strictly increasing |
| Document.Lookup | index.js:115-118 | the node at a valid path in the tree, or the fallback when there is none or the path is not valid |
| Document.TagInto | index.js:136-142 | the tagging loop leaves the old history followed by every change of every update, tagged with its update, in order |
| Document.Supersede | index.js:158-162 | the filter loop keeps exactly the entries, in order, whose paths are neither a prefix of nor prefixed by the fresh change's path |
| Document.Fold | index.js:146-166 | the fold loop computes exactly the survivors of the sorted history |
| Document.Model.constructor | index.js:10-15 | a new document has an empty history and no cached projection |
| Document.Model.MergeHistory | index.js:135-167 | the history becomes the merge of the old history with the updates, which is compacted |
| Document.Model.ApplyUpdate | index.js:120-133 | answers true iff the update is valid; a rejected update changes neither history nor cache; an accepted one merges and clears the cache; the invariant is kept |
| Document.Model.ToJSON | index.js:181-194 | returns the projection of the history and caches it; a cached projection is returned unchanged |
| Document.Model.Get | index.js:115-118 | the node at the normalised path in the projection, or the fallback when there is none |
| Document.Model.History | index.js:170-179 | the digest holds exactly the updates of stored changes that the peer wants |
| Document.Model.LocalUpdate | index.js:97 | a local transaction stamped with the given clock and id is applied exactly as a received update |
| Document.Model.LocalChange | index.js:95-98 | an invalid change fails with "invalid change" and changes nothing; a valid one is merged as a one-change transaction |
| Document.Model.Set | index.js:100-103 | succeeds iff the normalised path and the value are valid, and then merges `[path, value]` |
| Document.Model.Delete | index.js:110-113 | succeeds iff the normalised path is valid, and then merges `[path]` |
| Document.Model.Ref | index.js:105-108 | always fails and changes nothing, since the base document accepts no references |
| Document.Model.Transact | index.js:88 | a fresh, empty staging buffer bound to this document |
| Document.Transaction.constructor | index.js:17-20 | a new buffer is empty and bound to its document |
| Document.Transaction.LocalChange | index.js:90-93 | an invalid change fails and leaves the buffer untouched; a valid one is appended at the end |
| Document.Transaction.Set | index.js:100-103 | stages `[path, value]` with a normalised path iff path and value are valid |
| Document.Transaction.Delete | index.js:110-113 | stages `[path]` with a normalised path iff the path is valid |
| Document.Transaction.Ref | index.js:105-108 | never stages anything |
| Document.Transaction.Execute | index.js:87 | the staged changes are merged as one update exactly when something was staged |
| Scenarios.InOrder | index.js:135-167 | a.b@1, a@2, a.c@3 delivered in order leave only a.c |
| Scenarios.OutOfOrder | index.js:135-167 | the same updates delivered as 2, 3, 1 leave a.b and a.c |
| Scenarios.MergeOrderMatters | index.js:135-167 | the two delivery orders end in different histories, and a.b is visible in one projection but not the other |

## Left out

- The replication base class (`localUpdate`'s clock and node id, streams, gossip transport) is not part of this model. `LocalUpdate` takes the timestamp and source id as parameters.
- Change events and the listener check in `applyUpdate` are left out; they are observer plumbing and do not affect the history.
- `_deref` is not part of this model. References never pass validation in the base document, so the `ref` branch of the projection is unreachable and `Op` has no reference case.
- `assocInM` and `getIn` of `fun-map` are replaced by `SetAt` and `GetAt` on the model's own tree.
- Document.Model.Get: a path that is not a valid path after normalisation gives the fallback; what `getIn` does with such paths is not modelled.
- Order.ByTimestamp: the JavaScript comparator answers -1 both ways for two updates with equal timestamp and source id. The model uses a stable insertion sort instead: existing changes stay before new ones, and a transaction keeps its own order. Source ids are compared by Unicode code point, where JavaScript compares UTF-16 code units; the two orders differ for ids that mix characters above U+FFFF with characters in U+E000..U+FFFF ("\uFFFF" sorts before "\u{10000}" here and after it in JavaScript), so for such ids the tie-break, and with it which of two conflicting changes survives, can differ.
- Compaction.MergeIdempotent: the merge itself compares no updates; it only orders them by timestamp and source id. The model stores a copy of the update with each change, where the source tags each change with a reference to the one update object.
- Digest.DedupMembers: the source collapses adjacent repeats with `!==`, by reference identity; the model compares updates by value, so two distinct but equal update objects next to each other are collapsed here and not in the source.
- Digest.Wanted: `sources[source]` is a JavaScript property lookup, which also finds inherited members of `Object.prototype`. For a source id such as `constructor` or `toString` absent from `sources`, the source reads a function, `fn < ts` is false and the update is not sent; the model treats the id as absent and sends it.
- Shapes.ValidUpdate: an update is a record here, so the `Array.isArray(update)` test of `_validUpdate` is always passed; an update that is not an array at all is not modelled.
- Timestamps are integers and source ids are strings. Floating-point timestamps, NaN, and non-string source ids are not modelled.
- Functions and symbols as values (JavaScript `typeof` neither `object` nor a scalar) are not distinguished from scalars; `Value` covers null, undefined, booleans, integers and strings.
- The buffer of a `Transaction` is passed by value into the update. The source shares the array, so later staging after `execute` would alias the stored update; that aliasing is not modelled.
- The mutation of each change object by the `.update` tag is modelled by pairing each change with its update in `Entry`.
- The global-object guard in the constructor and the unused `concat` helper are left out.
