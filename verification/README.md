# jsreport fs-store over S3 and SQS — a Dafny model

This project models the persistence adapter in `lib/fileSystemS3.js`. The adapter
gives jsreport's filesystem store a filesystem-like interface over one S3 bucket
(`jsrtest`). It serialises writers with a lock built on an SQS FIFO queue
(`test.fifo`, a single message group `default`).

- `common.dfy` (`Common`): `Option`, `Result`, bytes, and the no-duplicates and prefix predicates.
- `paths.dfy` (`Paths`): the pure string logic.
  - Key normalisation (strip one leading `/`).
  - `path.join`.
  - JavaScript's first-occurrence `String.replace` with a string pattern.
  - `String.split('/')`.
  - The `readdir` pipeline: strip the prefix, take the first non-empty segment, drop undefined, deduplicate through a `Set`.
- `config.dfy` (`Config`): the factory's credential checks and the region default `eu-west-1`.
- `filesystem.dfy` (`FileSystem`): a `Bucket` class. Its `objects` map is the bucket's contents, and each filesystem operation is a method that changes it in place.
  - `rename` is also specified by a function, `RenameAll`, on which its properties are proved.
- `lock.dfy` (`Lock`): the lock.
  - A pure specification of the queue (`QueueState`) and of the broker calls: send, receive, change visibility to 0, delete.
  - One pass of `waitForMessage` (`Step`) and the bounded retry (`Run`, `Acquire`).
  - Lemmas about them.
  - The classes `FifoQueue` (the queue, changed in place) and `LockClient` (`init`, `lock`, `releaseLock`). Their methods are proved equal to the pure specification.

Behaviour of the code that the model proves, and that a user might not expect:

- `rename(p, p)` copies every key under `p` onto itself before deleting it.
  - In the model, whose store accepts a copy of a key onto itself, every object under `p` is deleted.
  - S3 refuses such a copy, so against S3 the call fails at the copy instead.
- `rename('/a', '/b')` copies `a/x` onto itself:
  - the listing uses the normalised prefix `a`;
  - the replacement looks for the unnormalised `/a`, finds nothing, and keeps the name.
  - The model therefore deletes `a/x`; against S3 the copy is refused as above.
- Prefixes are matched as text, so the key `ab/x` of a sibling directory counts as under `a`:
  - `readdir('a')` reports `b`;
  - `remove('a')` deletes `ab/x`;
  - `rename('a', 'c')` moves it to `cb/x`.
- `writeFile('/x', c)` stores under `/x`, not `x`.
  - `readdir`, `readFile`, `appendFile`, `exists`, `stat` and `remove` normalise the path.
  - So `appendFile` on a missing path equals `writeFile` only for a path without a leading `/`.
  - `rename(p, pp)` normalises `p` only for the listing; the new key is built from `p` and `pp` as given.
  - A `pp` with a leading `/` therefore creates keys that only `writeFile` reaches: `rename('a', '/b')` moves `a/x` to `/b/x`, and `readFile('/b/x')` looks up `b/x` (`FileSystem.RenameToRootedTarget`).
- Two overlapping `lock` attempts of one instance race on which one polls first:
  - if the later attempt polls first, it deletes the earlier request as an orphan, and the earlier attempt then never acquires;
  - if the earlier attempt polls first, it acquires, and once it releases, the later attempt acquires too.
  - An attempt that has not yet acquired keeps polling, and deletes as an orphan any later request of its instance that reaches the head before that request's own attempt polls (`Lock.WaitingAttemptDropsLaterRequest`).
- A request whose instance never calls `lock` again blocks every other instance for good: a visible head from another instance is only made visible again, so every wait spins without change (`Lock.ForeignHeadSpins`).

## Model

| member | source | states |
|---|---|---|
| Paths.ToKey | lib/fileSystemS3.js:35 | a path with a leading `/` is that `/` followed by its key; any other path is its own key |
| Paths.Join | lib/fileSystemS3.js:105 | the joined path is `a`, one separator, then `b` |
| Paths.SplitJoin | lib/fileSystemS3.js:105 | the segments of `join(a, b)` are the segments of `a` followed by those of `b` |
| Paths.IndexFrom | lib/fileSystemS3.js:69 | the result is the first position at or after `from` where the pattern occurs, or none when it occurs nowhere there |
| Paths.ReplaceFirst | lib/fileSystemS3.js:69 | when the pattern does not occur, the string is unchanged; otherwise only its first occurrence is replaced |
| Paths.ReplaceAtStart | lib/fileSystemS3.js:38 | a key that starts with the prefix has exactly that prefix replaced |
| Paths.ReplaceBySelf | lib/fileSystemS3.js:69 | replacing a pattern by itself gives the string back |
| Paths.Split | lib/fileSystemS3.js:38 | `split('/')` gives at least one piece, and no piece holds a separator |
| Paths.JoinAllSplit | lib/fileSystemS3.js:38 | joining the pieces of a string with `/` gives the string back |
| Paths.SplitSepFree | lib/fileSystemS3.js:38 | a separator-free string is a single piece |
| Paths.SplitSepFreeThen | lib/fileSystemS3.js:38 | a separator-free string followed by a separator splits off as the first piece |
| Paths.SplitJoinAll | lib/fileSystemS3.js:38 | splitting the join of separator-free pieces gives the same pieces back |
| Paths.JoinAllAppend | lib/fileSystemS3.js:38 | joining two piece lists equals joining their joins around one separator |
| Paths.NonEmpty | lib/fileSystemS3.js:38 | `filter(f => f)` keeps exactly the non-empty pieces |
| Paths.NonEmptyPieces | lib/fileSystemS3.js:38 | a string has no non-empty piece exactly when it consists only of separators |
| Paths.FirstSegment | lib/fileSystemS3.js:38 | the first non-empty piece is non-empty, separator-free and one of the pieces; it is undefined exactly when the string is all separators |
| Paths.FirstSegmentSkipsSep | lib/fileSystemS3.js:38 | a leading separator does not change the first segment |
| Paths.FirstSegmentOfName | lib/fileSystemS3.js:38 | a non-empty separator-free name followed by a separator or nothing is the first segment |
| Paths.FirstSegmentIs | lib/fileSystemS3.js:38 | after any run of separators, the first segment is the separator-free text up to the next separator or the end |
| Paths.ChildNameUnderPrefix | lib/fileSystemS3.js:38 | for a key under the prefix, the child is the first segment of the rest of the key after the prefix |
| Paths.ChildName | lib/fileSystemS3.js:38 | what one listed key contributes (`Key.replace(prefix, '')`, then its first segment); a defined name is non-empty and separator-free. Further properties are in `ChildNameUnderPrefix`, `ChildOfKey` and `SiblingKeyLeaks` |
| Paths.ChildOfKey | lib/fileSystemS3.js:38 | a key made of the prefix, separators, a name and then a separator or nothing contributes exactly that name |
| Paths.SiblingKeyLeaks | lib/fileSystemS3.js:33-38 | under the prefix `a`, the sibling key `ab/x` contributes the name `b` |
| Paths.Children | lib/fileSystemS3.js:38 | the child names are non-empty and separator-free, and a name is among them exactly when some listed key yields it |
| Paths.Dedup | lib/fileSystemS3.js:39 | the result has no duplicates and holds exactly the input's values |
| Paths.ReaddirNames | lib/fileSystemS3.js:38-39 | the names have no duplicates, none is empty or holds `/`, and a name is returned exactly when some listed key yields it |
| Config.Configure | lib/fileSystemS3.js:11-17 | the factory succeeds exactly when both credentials are truthy; a missing access key is reported first, then a missing secret; on success the credentials are carried over and the region defaults to `eu-west-1` |
| Config.Present | lib/fileSystemS3.js:12-15 | JavaScript truthiness of a credential: defined and not the empty string. `Configure`'s contract is stated in terms of it |
| FileSystem.Bucket.ListPrefix | lib/fileSystemS3.js:33-36 | the listing holds every key under the prefix, and only those, each once |
| FileSystem.Bucket.constructor | lib/fileSystemS3.js:9 | the bucket starts out empty |
| FileSystem.Bucket.Readdir | lib/fileSystemS3.js:32-40 | the names have no duplicates, none is empty or holds `/`, and a name is returned exactly when some stored key under the normalised path has it as the first segment of its remainder |
| FileSystem.Bucket.ReadFile | lib/fileSystemS3.js:41-47 | the body stored under the normalised key, or not-found when there is none |
| FileSystem.Bucket.WriteFile | lib/fileSystemS3.js:48 | the body is stored under the path as given, with no normalisation, and nothing else changes |
| FileSystem.Bucket.AppendFile | lib/fileSystemS3.js:49-62 | an absent key ends up holding exactly `c`; a present one holds its old body followed by `c`; no other key changes |
| FileSystem.Bucket.Rename | lib/fileSystemS3.js:63-77 | the listed keys are exactly those under the normalised path, and the new bucket moves each of them, in listing order, to its key with the first `p` replaced by `pp` |
| FileSystem.Move | lib/fileSystemS3.js:70-75 | one key's copy then delete: a missing key changes nothing; otherwise the new name holds the old body and the key is gone, even when the new name is the key itself; every other key is unchanged |
| FileSystem.MoveAll | lib/fileSystemS3.js:68-76 | the moves of all listed keys in listing order; its properties are in `MoveAllInPlaceDeletes`, `MoveAllKeepsOthers`, `MoveAllOnlyNewNames`, `MoveAllRemovesListed`, `MoveAllCarriesBodies` and `MoveAllMoves` |
| FileSystem.NewName | lib/fileSystemS3.js:69 | the new name of a listed key, `e.Key.replace(p, pp)`; its properties are in `Paths.ReplaceFirst`, `Paths.ReplaceBySelf` and `NewNamesUnderPrefix` |
| FileSystem.RenameAll | lib/fileSystemS3.js:63-77 | the bucket after `rename(p, pp)`; `Bucket.Rename` is proved equal to it, and its properties are in `RenameUnderPrefix`, `RenameToSamePathDeletes`, `RenameLeadingSeparatorDeletes`, `RenameTakesSibling` and `RenameToRootedTarget` |
| FileSystem.SiblingKeyUnderPrefix | lib/fileSystemS3.js:96-103 | the sibling key `ab/x` is under the key of both `a` and `/a`, so by `Bucket.Remove`'s contract `remove('a')` deletes it |
| FileSystem.RenameTakesSibling | lib/fileSystemS3.js:63-77 | `rename('a', 'c')` on a bucket holding only `ab/x` leaves just `cb/x` with the same body |
| FileSystem.RenameToRootedTarget | lib/fileSystemS3.js:63-77 | `rename('a', '/b')` on a bucket holding only `a/x` leaves just `/b/x` with the same body, a key that the normalised lookup of `/b/x` does not find |
| FileSystem.MoveAllInPlaceDeletes | lib/fileSystemS3.js:68-76 | listed keys whose new name is the key itself are all deleted, and nothing else changes |
| FileSystem.MovesApartFront | lib/fileSystemS3.js:68 | dropping the last listed key keeps the new names apart, and that key is not listed earlier |
| FileSystem.MoveAllKeepsOthers | lib/fileSystemS3.js:68-76 | a key that is neither listed nor a new name keeps its presence and its body |
| FileSystem.MoveAllOnlyNewNames | lib/fileSystemS3.js:68-76 | every key afterwards is an old unlisted key or the new name of a listed key |
| FileSystem.MoveAllRemovesListed | lib/fileSystemS3.js:68-76 | when the new names keep apart, no listed key survives |
| FileSystem.MoveAllCarriesBodies | lib/fileSystemS3.js:68-76 | when the new names keep apart, each new name holds the body of its listed key |
| FileSystem.MoveAllMoves | lib/fileSystemS3.js:68-76 | when new names are distinct from each other and from the listed keys: listed keys vanish, each new name holds its old body, unrelated keys are untouched, and nothing else appears |
| FileSystem.NewNamesUnderPrefix | lib/fileSystemS3.js:66-69 | under a prefix not comparable with the target, each new name is the target followed by the key's remainder, and the new names keep apart |
| FileSystem.RenameUnderPrefix | lib/fileSystemS3.js:63-77 | for a normalised `p` not comparable with `pp`: nothing is left under `p`, each object under `p` moves with its body to `pp` plus its remainder, and objects under neither are untouched |
| FileSystem.RenameToSamePathDeletes | lib/fileSystemS3.js:63-77 | `rename(p, p)` deletes every listed object |
| FileSystem.RenameLeadingSeparatorDeletes | lib/fileSystemS3.js:63-77 | `rename('/a', '/b')` on a bucket holding only `a/x` leaves the bucket empty |
| FileSystem.Bucket.Exists | lib/fileSystemS3.js:78-85 | true exactly when the normalised key is stored |
| FileSystem.Bucket.Stat | lib/fileSystemS3.js:86-94 | `isDirectory` is true exactly when the normalised key is not stored |
| FileSystem.Bucket.Mkdir | lib/fileSystemS3.js:95 | the bucket is unchanged |
| FileSystem.Bucket.Remove | lib/fileSystemS3.js:96-103 | afterwards a key is stored exactly when it was stored before and is not under the normalised path; the remaining bodies are unchanged |
| Lock.Sent | lib/fileSystemS3.js:139-144 | the request joins the tail with a fresh handle; the queue stays well formed |
| Lock.Received | lib/fileSystemS3.js:112-116 | a message is received exactly when the queue is non-empty and its head is not in flight; it is the head, which goes in flight |
| Lock.MadeVisible | lib/fileSystemS3.js:119-123 | the contents are unchanged; the head stops being in flight exactly when the handle is the head's |
| Lock.HandleIndex | lib/fileSystemS3.js:129 | the first position holding the handle, or none when no message holds it |
| Lock.RemoveAt | lib/fileSystemS3.js:129 | one element fewer, and the others keep their order |
| Lock.RemoveAtKeepsOrder | lib/fileSystemS3.js:129 | removing a message keeps the remaining handles increasing and below the bound, and none of them equals the removed one |
| Lock.Deleted | lib/fileSystemS3.js:129 | deletion succeeds exactly when some message holds the handle; otherwise nothing changes; deleting by the head's handle removes exactly the head |
| Lock.DeletedWellFormed | lib/fileSystemS3.js:129 | deletion keeps the queue well formed and leaves no message with the handle |
| Lock.DeletedKeepsOthers | lib/fileSystemS3.js:129 | every message with another handle survives a delete |
| Lock.Step | lib/fileSystemS3.js:111-137 | one pass: nothing to receive changes nothing; a foreign head is made visible again with the contents unchanged; an own orphan head is deleted; the own request is returned and kept in flight; well-formedness is kept |
| Lock.IsOrphan | lib/fileSystemS3.js:127-131 | a request of this instance from another attempt; `Step` deletes such a head, and `StepDropsOnlyOrphans` and `RunDropsOnlyOrphans` show it is the only kind ever deleted |
| Lock.Run | lib/fileSystemS3.js:111-137 | `waitForMessage` cut off after `fuel` passes; its properties are in `RunWellFormed`, `RunReturnsOwnRequest`, `RunDropsOnlyOrphans`, `RunAcquiresBehindOrphans`, `ForeignHeadSpins`, `HeldLockExcludes`, `EmptyQueueNeverAcquires` and `WaitingAttemptDropsLaterRequest` |
| Lock.Acquire | lib/fileSystemS3.js:109-146 | `lock`: send the request, then wait for it. `LockClient.Lock` is proved equal to it, and `AcquireAfterOrphans` states its outcome |
| Lock.RunWellFormed | lib/fileSystemS3.js:111-137 | the wait keeps the queue well formed and issues no handles |
| Lock.RunReturnsOwnRequest | lib/fileSystemS3.js:127-133 | the wait returns only this instance's request for this attempt, and it is the in-flight head |
| Lock.StepDropsOnlyOrphans | lib/fileSystemS3.js:127-131 | one pass removes at most the head, and only when it is an orphan of this instance |
| Lock.OrphansDroppedTrans | lib/fileSystemS3.js:130 | dropping orphans twice is dropping orphans once |
| Lock.RunDropsOnlyOrphans | lib/fileSystemS3.js:111-137 | the wait leaves a suffix of the queue, having removed only this instance's orphans, so other requests keep their order |
| Lock.RunAcquiresBehindOrphans | lib/fileSystemS3.js:127-133 | a request preceded only by own orphans is acquired once they are deleted, one pass each |
| Lock.ForeignHeadSpins | lib/fileSystemS3.js:118-125 | while a visible foreign head leads the queue, waiting changes nothing and acquires nothing |
| Lock.HeldLockExcludes | lib/fileSystemS3.js:112-116 | while the head is in flight, no wait changes the queue or acquires |
| Lock.HolderExcludesEveryone | lib/fileSystemS3.js:109-146 | after an attempt acquires, every other wait by any instance leaves the queue alone and acquires nothing |
| Lock.AcquireAfterOrphans | lib/fileSystemS3.js:109-146 | with only own orphans queued, `lock` acquires its new request, and the queue then holds just that request, in flight |
| Lock.ReleaseDeletesHeldRequest | lib/fileSystemS3.js:148 | releasing the acquired request removes exactly the head; no message with its handle remains, and the next request becomes receivable |
| Lock.NextRequestIsServedFirst | lib/fileSystemS3.js:111-137 | with a visible head, its owner acquires it in one pass and every other instance's wait changes nothing |
| Lock.OverlappingAttemptsLoseRequest | lib/fileSystemS3.js:127-131 | of two overlapping attempts by one instance, when the later one polls first: it acquires after deleting the earlier request, and the earlier one can then never acquire |
| Lock.OverlappingAttemptsInArrivalOrder | lib/fileSystemS3.js:127-133 | of the same two attempts, when the earlier one polls first: it acquires its own request, and after its release the later one acquires as well |
| Lock.WaitingAttemptDropsLaterRequest | lib/fileSystemS3.js:127-131 | an attempt still waiting that finds a later request of its own instance at the head deletes it as an orphan and acquires nothing |
| Lock.EmptyQueueNeverAcquires | lib/fileSystemS3.js:116-136 | an empty queue yields nothing to acquire |
| Lock.FifoQueue.constructor | lib/fileSystemS3.js:29 | a new queue is empty and well formed |
| Lock.FifoQueue.Send | lib/fileSystemS3.js:139-144 | the queue's new state is the one `Sent` specifies |
| Lock.FifoQueue.Receive | lib/fileSystemS3.js:112-114 | the queue's new state and the message are the ones `Received` specifies |
| Lock.FifoQueue.MakeVisible | lib/fileSystemS3.js:119-123 | the queue's new state is the one `MadeVisible` specifies |
| Lock.FifoQueue.Delete | lib/fileSystemS3.js:129 | the queue's new state and the result are the ones `Deleted` specifies |
| Lock.LockClient.Init | lib/fileSystemS3.js:28-31 | the client is bound to the queue |
| Lock.LockClient.constructor | lib/fileSystemS3.js:7 | a client carries its instance id and has no queue until `init` |
| Lock.LockClient.WaitStep | lib/fileSystemS3.js:111-137 | one pass, made of the broker calls, changes the queue as `Step` specifies |
| Lock.LockClient.Lock | lib/fileSystemS3.js:109-146 | the result and the new queue are those of `Acquire`; a returned request is this instance's, for this attempt, and is the in-flight head |
| Lock.LockClient.ReleaseLock | lib/fileSystemS3.js:148 | the held request's handle is deleted as `Deleted` specifies |

## Left out

- The AWS SDK clients and every network call (S3 and SQS). The bucket is an in-memory map and the queue an in-memory sequence. Service errors other than "no such key" are not modelled.
- The SHA-1 derivation of `instanceId` from the host name and directory. The instance id is a constructor parameter.
- `Date.now()`. The lock id is a parameter of `Lock`. The deduplication id and the broker's deduplication window are not modelled.
- JSON encoding of message bodies. A message is a record.
- Concurrency. Operations run one after another. `Promise.all` in `rename` and `remove` becomes a loop over the listed keys, so interleavings and partial failures are not modelled.
- Multi-process timing of the lock is not modelled: the visibility timeout never expires, so a held request stays in flight until it is released. The properties of `Lock` are about this sequential model.
- The listing returns every key in one response. The 1000-key page limit of `listObjectsV2` is not modelled: past it, the source sees only the first page.
- Receipt handles are fixed per message when it is sent, not issued anew on each receive.
- `path.basename` and `sep` of the returned path object are library passthroughs and are not modelled.
- `$` patterns in a `String.replace` replacement string are not modelled. `Paths.ReplaceFirst` inserts the replacement literally.
- `Buffer.from(c)` in `appendFile`: the appended content is modelled as bytes, so string encoding is left out.
- `createQueue` is the `FifoQueue` constructor. `init` then only binds the client to the queue.
- Lock.LockClient.Lock: the source retries without bound. The model stops after `fuel` passes and then returns no request.
- Paths.Dedup: states membership and absence of duplicates, but not that each value keeps the place of its first occurrence.
- FileSystem.RenameToSamePathDeletes, FileSystem.RenameLeadingSeparatorDeletes: the in-memory store accepts a copy of a key onto itself (`FileSystem.Move`). S3's CopyObject refuses such a copy when nothing else changes. Against S3, line 70 throws before the delete at line 75, so these renames fail instead of deleting. The store's refusal is not modelled.
- FileSystem.Bucket.ListPrefix: the order of the listing is left open. S3 lists in lexicographic key order.
