# Quiver core, modelled and proved

This project models the parts of the Quiver daemon whose behaviour spans calls,
runs and failures, and proves what they promise. Each module follows one
component:

- **Stitching**: a discovery job numbers its results under a lock and pushes them
  to WebSocket subscribers after releasing it. A subscriber who comes late is sent
  a replay and then joined to the live feed. Goroutines are the steps of a
  transition system, and the writer's `select` may take any branch that is ready.
- **Discovery**: the registry those jobs live in: numbering, the grace of a
  finished job, and giving up a pass nobody listens to.
- **LogRing**: the in-memory log, an array indexed modulo its length that refines an
  unbounded log, with bounded, evictable subscribers.
- **DepTree**: the three-state depth-first search that orders an arrow's
  dependencies.
- **Percent, PathSafe, WorkDirs**: names for cache entries and working directories:
  percent escapes, case folding, the cap on length, and both generations of names.
- **VaultCache, CacheIsolation, CacheTwins**: the manifest cache as operations on one
  directory, what any run of them leaves for each namespace, and exactly which names
  interfere.
- **ConfigPatch, Overlay**: editing the configuration key by key, with its one rule
  over two keys, and the sparse file that is merged back onto the defaults.
- **Ports**: handing out ports from a read model that may lag the event store.
- **Sorting, Ranking, Search**: collapsing, scoring, merging and limiting the
  results of two stores.
- **SelfUpdate**: swapping the daemon's binary and rolling back, as the sequence of
  disks a run passes through.
- **RateLimiting**: the fixed-window limiter on pairing attempts.
- **Wrappers**: the optional value the other modules share.

Code that changes objects is modelled by classes and loops whose contracts equate
the new state with a function of the old one; the theorems are about those
functions and about all runs of them. Bytes of names are characters below 256,
times are integers, scores are reals, SHA-256 is an arbitrary function from
namespaces to 32 lower-case hexadecimal digits, never assumed injective: where two
names may only coincide when two digests do, the result says so.

## Where the code falls short of its words

Each item names the theorem that says exactly when the promise holds and the lemma
that exhibits the runs where it does not.

- A socket closed as "completed" may have lost frames, when a finish and a kick are
  ready together and the writer picks the finish: it is complete exactly when the
  subscriber was never kicked (`Stitching.CompletedIsComplete`,
  `Stitching.CompletedCanLose`).
- The grace after a subscriber's leaving is granted exactly when no check of an earlier
  idle timer is waiting or about to cancel (`Discovery.GraceIsGrantedExactly`,
  `Discovery.StaleTimerCutsTheGrace`).
- A pass nobody ever attached to is never given up, although the interface says a pass
  with no subscriber is cancelled; one that somebody attached to is
  (`Discovery.NeverHeardNeverGivenUp`, `Discovery.AbandonedIsWatched`).
- Sanitizing a configuration is one pass: it leaves an invalid document exactly when an
  invalid start meets a valid end below the default start (`ConfigPatch.SanitizeExact`).
- A swap whose `os.Stat` of the self path fails although the binary is there
  overwrites the only copy, and only such a swap does
  (`SelfUpdate.OldBinarySurvivesExactly`, `SelfUpdate.BlindSwapLosesTheOldBinary`).
- An update begun after a process was stopped inside a rollback sweeps away the last
  copy; a sweep is harmless exactly when the old binary is at the self path or at an
  aside the sweep does not take (`SelfUpdate.SweepKeepsOld`,
  `SelfUpdate.StoppedRollbackThenUpdate`).
- Two namespaces with different digests share a cache name exactly when the capped name
  of one spells out the other, which takes a `~` (`PathSafe.CacheNamesShared`,
  `PathSafe.TildeInBareCollides`, `PathSafe.TildeInRefCollides`). A work directory lies
  inside another exactly when the other's bare namespace passes through it, which takes
  a capped leaf that lost its `@`; among the identities the store accepts one lies inside
  a directory exactly when it is that of a repository with such a leaf
  (`WorkDirs.WorkDirsNeverNest`, `WorkDirs.NestingIsExact`).
- Answers are a namespace's own in every run exactly when no namespace writes under
  another's cache name or has the path of a meta that hides an earlier entry for a cache
  name (`CacheTwins.IsolationIsExact`, `CacheTwins.SharedNameMisleads`,
  `CacheTwins.MetaTwinMisleads`); and every put is answered for its lifetime exactly when
  no path a put writes is a cache name either (`CacheTwins.UndisturbedIsExact`,
  `CacheTwins.TwinLoses`). A selector with `.md`, `.yaml` or `.meta.json` appended to
  another is such a name (`CacheTwins.SuffixTwin`, `CacheTwins.TwinLosesThePut`).
- An allocation gives up after 64 adoptions: it answers as a search of both stores
  exactly when that search meets fewer live ports its read model lacks, or finds nothing
  free (`Ports.Netbridge.Allocate`, `Ports.GivesUpBeforeAFreePort`).
- A port range whose start is above both its own end and the configured one loses its
  end too, although that end alone would have been fine; no other port is withdrawn
  needlessly (`ConfigPatch.NeedlessWithdrawal`).
- A new daemon that does not answer healthy is killed, but nothing checks that it went: it
  is left beside the old one exactly when it was started and outlived its kill
  (`SelfUpdate.FailureLeavesTheOldBinary`).
- The limiter's sliding bound is 2 * limit - 1, one better than the obvious 2 * limit
  (`RateLimiting.SlidingBound`, `RateLimiting.SlidingBoundIsTight`).

## Model

| member | source | states |
|---|---|---|
| Stitching.FilteredClient.Enqueue | internal/api/ws/broadcaster.go:178-194 | Under the disconnecting overflow policy, a full send buffer drops the frame and asks for a kick; otherwise the frame is last in the buffer |
| Stitching.FilteredClient.Deliver | internal/api/ws/broadcaster.go:161-176 | A frame at or below the floor is dropped, one that comes while holding is held, any other is enqueued |
| Stitching.FilteredClient.Release | internal/api/ws/broadcaster.go:112-121 | Sets the floor, ends the holding and enqueues exactly the held frames above the floor, in order |
| Stitching.UnnumberedFramesPass | internal/api/ws/broadcaster.go:112-176 | A frame without a number is held, enqueued or dropped with a kick whatever the floor, and a held one survives the release |
| Stitching.InvariantHolds | internal/api/ws/broadcaster.go:44-73 | In every interleaving the invariant holds: before the release the wire and buffer are the replay so far and the pending list is what was pushed since registration; afterwards every owed frame was written, is buffered, or was dropped with a kick asked for |
| Stitching.FloorIsLength | internal/api/ws/broadcaster.go:98-100 | The floor a replay sets is its length, because items are numbered from 1 without gaps |
| Stitching.EnqueueAboveHeld | internal/api/ws/broadcaster.go:116-120 | Releasing enqueues exactly the held frames the replay did not cover |
| Stitching.ExactlyOnce | internal/api/ws/broadcaster.go:87-122 | A released subscriber never kicked has been sent one frame, what the encoder writes, for each result of its replay and each one pushed so far that its filter accepts and the encoder can write, no other and none twice; in Seq order if pushes do not overlap |
| Stitching.NothingOwedBefore | internal/api/ws/broadcaster.go:57-65 | Every push that came before the registration is covered by a replay taken after it |
| Stitching.CompletedIsComplete | internal/api/ws/client.go:102-120 | A socket closed "completed" with its peer still there carried each result of the job that the filter accepts and the encoder can write, exactly once, if and only if it was never kicked and no such result was forgotten before its replay; in order if pushes do not overlap |
| Stitching.CompletedCanLose | internal/api/ws/client.go:79-98 | For every subscription that matches anything some run drops a frame and still closes "completed" |
| Discovery.Registry.Start | internal/app/usecases/discovery.go:186-223 | An empty query is refused; otherwise expired jobs are swept and a running job with no items is registered |
| Discovery.Registry.Get | internal/app/usecases/discovery.go:225-241 | Sweeps and answers from what is left |
| Discovery.Registry.Sweep | internal/app/usecases/discovery.go:390-398 | Removes exactly the completed jobs whose grace has run out |
| Discovery.Registry.Cancel | internal/app/usecases/discovery.go:243-255 | Tells a known job to stop and changes nothing else |
| Discovery.Registry.Attach | internal/app/usecases/discovery.go:257-272 | One subscriber more, no timer armed; unknown jobs are ignored |
| Discovery.Registry.Detach | internal/app/usecases/discovery.go:274-289 | One subscriber less; the last one to leave a running pass arms the timer, and a spare detach does nothing |
| Discovery.Registry.CheckAbandoned | internal/app/usecases/discovery.go:291-297 | Reports, under the lock, that nobody is attached and the pass still runs; a job swept meanwhile is left alone |
| Discovery.Registry.CancelAbandoned | internal/app/usecases/discovery.go:298-300 | After the lock was released, cancels the pass even if somebody has attached in between |
| Discovery.Registry.CancelIfAbandoned | internal/app/usecases/discovery.go:291-301 | The check followed, only if it found nobody, by the cancellation |
| Discovery.Registry.Replay | internal/app/usecases/discovery.go:303-314 | The items so far, none for an unknown job |
| Discovery.Registry.Done | internal/app/usecases/discovery.go:316-328 | Closed for a finished or unknown job, open otherwise |
| Discovery.Registry.Emit | internal/app/usecases/discovery.go:366-385 | Appends the item with the next number and hands out that item |
| Discovery.Registry.Finish | internal/app/usecases/discovery.go:344-364 | Completes the job, stores its outcome, starts its grace, disarms the timer and closes its channel |
| Discovery.JobsAreSound | internal/app/usecases/discovery.go:366-385 | In every run a job's items are numbered 1, 2, 3 …, its done channel is closed exactly when it has completed, and a timer is armed only while it runs with nobody attached |
| Discovery.ReadableForItsGrace | internal/app/usecases/discovery.go:387-398 | In every run a look-up finds a job if and only if it was started and has not ended a whole grace ago, whatever was swept in between |
| Discovery.NothingOverstays | internal/app/usecases/discovery.go:390-398 | After a start or a look-up no known job has ended a whole grace ago |
| Discovery.SubscribersAreCounted | internal/app/usecases/discovery.go:257-289 | In every run a job has at least as many subscribers as joined it and have not left, and exactly so many while nobody leaves who has not joined |
| Discovery.JobsKeepTheirHistory | internal/app/usecases/discovery.go:243-255 | In every run a known job holds the query it began with, the results emitted for it in order and the outcome it ended with, and its pass has been told to stop exactly when a request, a check or its end did so |
| Discovery.TimerRemembers | internal/app/usecases/discovery.go:284-288 | An armed timer fires one grace after the last subscriber left, and nobody has attached since |
| Discovery.GivenUpOnlyAfterAGrace | internal/app/usecases/discovery.go:284-301 | A pass neither finished nor cancelled by request is told to stop only by a check that ran after a whole grace with nobody attached and before which there were as many leavings as joinings |
| Discovery.GraceIsGrantedExactly | internal/app/usecases/discovery.go:267-301 | After the last subscriber's leaving no run gives the pass up before a whole grace without a subscriber, if and only if no check of an earlier timer was waiting or about to cancel |
| Discovery.TimerOrGrace | internal/app/usecases/discovery.go:284-288 | After such a leaving the timer is still armed with nothing waiting, or has fired a whole grace later |
| Discovery.AbandonedIsWatched | internal/app/usecases/discovery.go:274-301 | A running pass everybody has left has a timer armed, a check waiting or about to cancel, or has been told to stop |
| Discovery.NeverHeardNeverGivenUp | internal/app/usecases/discovery.go:88-93 | A pass nobody ever attached to is never given up |
| Discovery.StaleTimerCutsTheGrace | internal/app/usecases/discovery.go:267-270 | Stopping a timer that has fired does not stop its check: some run gives a pass up at the moment its last subscriber leaves |
| LogRing.Subscriber.Offer | internal/core/logring/subscriber.go:22-31 | The record is buffered exactly when there is room |
| LogRing.RingBuffer.Stream | internal/core/logring/ring_buffer.go:27-56 | One atomic cut: a first session, or one ahead of the log, is replayed the last 500 records at its level, any other those after its position as far as the last 5000 go; the live channel starts empty, and reset says that the caller is ahead of the log |
| LogRing.RingBuffer.Replay | internal/core/logring/ring_buffer.go:43-68 | Reading the modulo array gives the level filter of the last min(seq, limit) log positions after since |
| LogRing.AtLevelMeans | internal/core/logring/ring_buffer.go:58-68 | What a stream passes on is exactly the records of its level or above, each once, in log order |
| LogRing.RingBuffer.Append | internal/core/logring/ring_buffer.go:70-82 | The log grows by the record under the next number, and exactly the subscribers with room for it stay subscribed |
| LogRing.RingBuffer.Store | internal/core/logring/ring_buffer.go:70-77 | Overwriting one slot keeps the array a view of the newest records |
| LogRing.RingBuffer.Deliver | internal/core/logring/ring_buffer.go:84-94 | A stream stays the level filter of the log from its start, or is dropped and closed just before the record that did not fit |
| LogRing.RingBuffer.Unsubscribe | internal/core/logring/ring_buffer.go:96-102 | Closing a stream, at any time and any number of times, leaves it closed and out of the set |
| LogRing.RingBuffer.Remove | internal/core/logring/ring_buffer.go:104-112 | A channel is closed at most once, when its subscriber leaves the set |
| LogRing.RingBuffer.Receive | internal/core/logring/open_stream.go:27-29 | Taking a record from the channel moves it from buffered to received and loses nothing |
| LogRing.RingBuffer.Reconnect | internal/core/logring/ring_buffer.go:27-41 | Reconnecting with the number of the last record received joins both sessions into the log without gap or repeat, unless more than 5000 records came in between |
| LogRing.LastNumberIsTheCut | internal/core/logring/open_stream.go:17-19 | The number of a client's last record says exactly how much of the log it has |
| LogRing.ResumeIsLossless | internal/core/logring/ring_buffer.go:34-37 | Two sessions together are the log if and only if the ring forgot no record the client wants; at most 5000 records behind is enough |
| DepTree.Traversal.Dfs | internal/engine/deptree/traversal.go:30-44 | Skips a finished node, reports the cycle a node in progress closes, stops when the context is done, and otherwise visits the node |
| DepTree.Traversal.Visit | internal/engine/deptree/traversal.go:45-64 | Visits every node it reaches once, keeps the stack a path of exactly the nodes in progress and the order dependencies-first, and reports a genuine cycle, resolver failure or cancellation |
| DepTree.Traversal.VisitAll | internal/engine/deptree/traversal.go:53-57 | When all dependencies are visited each is in the order and the stack is as before |
| DepTree.Traversal.BuildCycleError | internal/engine/deptree/traversal.go:66-82 | The reported path is a closed walk along dependency edges, begins and ends at the repeated node, and is reachable from the root |
| DepTree.StartKeepsValid | internal/engine/deptree/traversal.go:44-46 | Entering a node keeps the traversal invariant |
| DepTree.FinishKeepsValid | internal/engine/deptree/traversal.go:59-61 | Leaving a node whose dependencies are ordered keeps the traversal invariant |
| DepTree.OrderExcludesCycles | internal/engine/deptree/deptree.go:29-41 | A dependencies-first order without repeats holds everything reachable from its members and rules out a reachable cycle |
| DepTree.Resolve | internal/engine/deptree/deptree.go:29-41 | Success gives exactly the reachable nodes, each once, dependencies first, root last, each resolved once; with no resolver or context error a cycle is reported exactly when one is reachable; it terminates on every finite graph; the resolver is called only while the context is found not done, and a context done from the start ends it at once |
| Percent.DecodeEncode | internal/engine/vault/pathsafe.go:66-77 | Percent-decoding (section 2.1 of RFC 3986) undoes any encoding that escapes the percent sign |
| Percent.DecodeFoldedEncode | internal/engine/vault/pathsafe.go:61-87 | It does so even after ASCII case folding, when upper-case letters are escaped too |
| Percent.CutSplitsNoEscape | internal/engine/vault/pathsafe.go:92-105 | A cut outside an escape leaves the encoding of a prefix |
| PathSafe.WithRefAlgebra | internal/domain/namespace.go:14-83 | Setting a ref and reading it back, and reading the bare namespace, agree; splitting and joining a namespace is the identity |
| PathSafe.EncodeRefSegment | internal/engine/vault/pathsafe.go:66-77 | The loop computes the percent encoding of the selector |
| PathSafe.SelectorRoundTrip | internal/engine/vault/pathsafe.go:61-87 | For every byte string decoding its segment, folded or not, gives it back |
| PathSafe.SelectorsNeverCollide | internal/engine/vault/pathsafe.go:61-65 | Distinct selectors have distinct segments on a case-insensitive file system |
| PathSafe.SegmentBytes | internal/engine/vault/pathsafe.go:79-87 | A segment holds no slash and no tilde |
| PathSafe.SegmentIsPortable | internal/engine/vault/pathsafe.go:17-26 | A segment is printable ASCII without anything Windows refuses, a slash or a tilde, and ends in no dot or space |
| PathSafe.PlainSelectorsKeepTheirSpelling | internal/engine/vault/pathsafe.go:61-65 | A selector is its own segment if and only if it holds none of these and no capital or percent sign |
| PathSafe.ColonsAreEscaped | internal/engine/vault/pathsafe.go:53-59 | The earlier names escape colons too, so replacing them is an encoding |
| PathSafe.CacheNamesAreSegments | internal/engine/vault/pathsafe.go:41-59 | No cache name of either generation holds a slash |
| PathSafe.NamesDecode | internal/engine/vault/pathsafe.go:43-59 | Names of both generations decode to their namespace as long as they are not capped |
| PathSafe.CappedNamesFit | internal/engine/vault/pathsafe.go:89-105 | Every current name has at most 96 bytes, and what a cap keeps decodes to a prefix of the namespace |
| PathSafe.CutPointIsSafe | internal/engine/vault/pathsafe.go:97-103 | The cut never falls inside a percent escape |
| PathSafe.CacheNamesShared | internal/engine/vault/store.go:185-193 | Two namespaces with different digests share a cache name of either generation if and only if the capped name of one is an uncapped or earlier name of the other |
| PathSafe.ShadowsNeedTildes | internal/engine/vault/pathsafe.go:89-105 | A namespace whose name another's capped name spells out holds a tilde, and by its current name only a bare one can be |
| PathSafe.CurrentNamesDiffer | internal/engine/vault/store.go:185-193 | Two namespaces have the same current name only if they are equal, their digests are, or one is capped and the other a bare one that holds a tilde |
| PathSafe.CacheNamesDisjoint | internal/engine/vault/store.go:185-193 | Two namespaces share a cache name of either generation only if they are equal, their digests are, or one is capped and the other holds a tilde |
| PathSafe.TildeInBareCollides | internal/engine/vault/pathsafe.go:89-105 | The capped name of every namespace without a selector is also the name of a second one, which spells out the cut and the digest with a tilde |
| PathSafe.TildeInRefCollides | internal/engine/vault/pathsafe.go:53-59 | A capped current name of a plain selector is the earlier name of another selector that contains a tilde |
| WorkDirs.EscapeComponent | internal/engine/vault/pathsafe.go:127-157 | The loop computes the encoding that escapes what a path component may not hold |
| WorkDirs.DeviceNames | internal/engine/vault/pathsafe.go:159-170 | A device name is CON, PRN, AUX, NUL, COM1-9 or LPT1-9, in capitals or not, with any extension |
| WorkDirs.EscapeRefDir | internal/engine/vault/pathsafe.go:116-122 | The nested directory is the join of the escaped components |
| WorkDirs.DecodeNSDir | internal/engine/vault/pathsafe.go:174-188 | Decodes each component after the separator and keeps a directory it cannot decode as it is |
| WorkDirs.DecodedPartByPart | internal/engine/vault/pathsafe.go:174-188 | A directory name is decoded part by part after its separator, and kept as it is when a part does not decode |
| WorkDirs.DirectoriesRoundTrip | internal/engine/vault/pathsafe.go:174-188 | Decoding inverts the earlier nested layout always and the current one whenever the leaf was not capped |
| WorkDirs.ComponentRoundTrip | internal/engine/vault/pathsafe.go:127-140 | An escaped component decodes back and holds no slash |
| WorkDirs.ComponentIsPortable | internal/engine/vault/pathsafe.go:127-157 | An escaped component holds no control character and nothing Windows refuses, ends in no dot or space, and is no device name when it stands alone |
| WorkDirs.WorkDirsNeverNest | internal/engine/vault/pathsafe.go:238-245 | Of two namespaces with refs one directory lies inside the other if and only if the other's bare namespace passes through it, which takes a capped leaf without its separator and a tilde; the directories are equal, even up to case, only if the namespaces or their digests are |
| WorkDirs.NestedTwin | internal/engine/vault/pathsafe.go:89-105 | Every capped leaf that lost its separator has a namespace whose directory lies inside, and the store accepts it when the leaf is that of a repository it accepts |
| WorkDirs.NestingIsExact | internal/domain/namespace.go:34-52 | For an identity the store accepts, some accepted one lies inside its directory if and only if it is a repository's whose capped leaf lost its separator; nothing lies inside the directory of an arrow hosted in a collection |
| WorkDirs.Validate | internal/domain/namespace.go:34-52 | Accepts exactly the namespaces whose part before the selector has three or four segments, none empty |
| WorkDirs.BareTwinIsValid | internal/engine/vault/pathsafe.go:89-105 | The second namespace with a capped bare name is one the store accepts if and only if the cut leaves a part of the third segment |
| VaultCache.Store.ReadCachedMeta | internal/engine/vault/manifest.go:68-78 | Answers from the first of the two names that has a meta file |
| VaultCache.Store.GetArrow | internal/engine/vault/manifest.go:21-55 | Fresh, stale, absent, confirmed absent or failed, as a function of the directory and the clock |
| VaultCache.Store.PutArrow | internal/engine/vault/manifest.go:101-173 | Writes the manifest and then its meta under the current name, keeping the previous default mark and channels the new file does not set |
| VaultCache.Store.PutArrowNotFound | internal/engine/vault/manifest.go:80-99 | Writes only a meta that says the arrow is absent |
| VaultCache.Store.DeleteArrow | internal/engine/vault/manifest.go:175-186 | Deletes both generations of entry; it succeeds exactly when none of their metas is left, and otherwise stops at one it cannot read |
| VaultCache.Store.DeleteCacheEntry | internal/engine/vault/manifest.go:188-205 | Removes the manifest the meta names and the meta, and nothing when there is none |
| VaultCache.Store.SweepCacheEntry | internal/engine/vault/sweep.go:53-62 | Deletes an entry exactly when it has expired and its namespace can be told |
| CacheTwins.NamesAreNotPaths | internal/engine/vault/store.go:175-193 | A namespace not spelled like a file of the cache has no cache name that is |
| CacheTwins.SweepIsExact | internal/engine/vault/sweep.go:31-62 | Sweeping an entry that names its namespace removes its meta and its manifest if and only if it has expired, and nothing else |
| CacheTwins.WritesAreSweptInTime | internal/engine/vault/sweep.go:31-62 | What a put or a mark writes is swept once it has expired and not before, whether its name was capped or not |
| CacheIsolation.OthersNamesDiffer | internal/engine/vault/store.go:185-193 | No cache name of one of the isolated namespaces is one of another's |
| CacheIsolation.CollectionPaths | internal/engine/manifold/resolver/resolver.go:75-87 | Whatever the path of an arrow hosted in a collection, the filename it is put under is one the runs below admit |
| CacheIsolation.PutIsOwn | internal/engine/vault/manifest.go:101-151 | A put for any namespace keeps, for every namespace, that its entry is what its own last operation left |
| CacheIsolation.MarkIsOwn | internal/engine/vault/manifest.go:80-99 | So does a not-found mark |
| CacheIsolation.DeleteIsOwn | internal/engine/vault/manifest.go:175-205 | So does a delete |
| CacheIsolation.DeleteClears | internal/engine/vault/manifest.go:175-205 | Deleting leaves neither the meta nor the manifest filed under the current name |
| CacheIsolation.SweepIsOwn | internal/engine/vault/sweep.go:31-62 | So does the sweep of any entry |
| CacheIsolation.RunIsOwn | internal/engine/vault/manifest.go:101-205 | After any run with a monotone clock every namespace's entry is what its own last operation left, or has expired |
| CacheIsolation.AnswersAreOwn | internal/engine/vault/manifest.go:21-55 | After any run every answer is the namespace's own: a fresh hit is its latest put within its lifetime, or its own earlier entry if there has been no operation on it; a stale one is one of these out of its lifetime; absence is confirmed only by its latest mark, or one the run left alone, within its lifetime and with the mark's commit; no look-up fails |
| CacheIsolation.StepStaysFiled | internal/engine/vault/manifest.go:101-205 | No operation removes a file of a live put or mark unless a cache name in play spells its path |
| CacheIsolation.LastWriteIsAnswered | internal/engine/vault/manifest.go:21-55 | Conversely a put within its lifetime is answered fresh, one out of it whose files remain stale with its own content and release, a mark within its lifetime as confirmed absent with its commit and one out of it as a miss, and after a delete nothing is cached; where a cache name spells the manifest's path a lost manifest is a miss |
| CacheIsolation.EarlierEntriesCount | internal/engine/vault/store.go:185-193 | An entry filed under the earlier name is answered while there is none under the current one, and deleted with it, unless its name is longer than a component may be |
| CacheIsolation.FailsExactly | internal/engine/vault/manifest.go:21-55 | A look-up fails if and only if the first entry there is, current before earlier, has an unreadable meta or manifest |
| CacheIsolation.HitsKeepTheirMark | internal/engine/vault/manifest.go:153-173 | From an empty cache, while each put comes within the lifetime of the one before, a hit is the default one if and only if some put since the last mark or delete made it so, dated by the latest of these, and has the channels of the latest put that carried any |
| CacheTwins.IsolationIsExact | internal/engine/vault/manifest.go:21-55 | Every answer of every run is the namespace's own if and only if the names in play are isolated, and where they are not some run ends in a fresh hit that is another's |
| CacheTwins.SharedNameMisleads | internal/engine/vault/manifest.go:101-151 | A namespace that writes under another's cache name is overwritten by it or read as it |
| CacheTwins.MetaTwinMisleads | internal/engine/vault/sweep.go:31-62 | Whenever a cache name is the meta path of a namespace that has an earlier name, some run answers that namespace's put with its earlier entry |
| CacheTwins.UndisturbedIsExact | internal/engine/vault/manifest.go:21-55 | Every put is answered fresh for its lifetime in every run if and only if no namespace writes under another's cache name and no path a put writes is one |
| CacheTwins.SharedNameLoses | internal/engine/vault/manifest.go:175-205 | Deleting a namespace under one of whose names another writes loses the other's put |
| CacheTwins.TwinLoses | internal/engine/vault/sweep.go:31-62 | Sweeping an expired mark under a name that spells a path of a put loses the put |
| CacheTwins.PlainNamesAreIsolated | internal/engine/vault/store.go:175-193 | Namespaces with distinct digests, without tilde and not spelled like a meta file are isolated |
| CacheTwins.PlainNamesAreUndisturbed | internal/engine/vault/store.go:175-193 | Not spelled like a manifest either, their puts last |
| CacheTwins.SuffixTwin | internal/engine/vault/store.go:177-183 | A selector with a suffix of the cache's files appended has the path of the other's file as its cache name |
| CacheTwins.TwinLosesThePut | internal/engine/vault/manifest.go:188-205 | Marking and deleting such a twin in an empty cache turns the other's live put into a miss |
| ConfigPatch.ReportIsExact | internal/core/config/fields.go:165-182 | Validation reports a key exactly when its own rule refuses its value or the port range is upside down |
| ConfigPatch.PassesMeansNoReport | internal/core/config/validate.go:36-53 | A document passes exactly when validation reports nothing |
| ConfigPatch.Sanitize | internal/core/config/validate.go:19-30 | Puts the default back for exactly the reported keys and reports them |
| ConfigPatch.SanitizeExact | internal/core/config/validate.go:19-30 | A sanitized document passes if and only if it was not an invalid start with a valid end below the default start; what can fail is only the range; a second pass always passes; a document that passes is left alone |
| ConfigPatch.SetField | internal/core/config/fields.go:63-89 | Succeeds exactly for a known key with a decodable, non-null value, and then changes that key only |
| ConfigPatch.Set | internal/app/usecases/config.go:140-161 | Every key sent ends in exactly one list, and the document is the configured one with exactly the settable keys as requested |
| ConfigPatch.FirstBlamable | internal/app/usecases/config.go:204-237 | Finds a touched key to blame whenever a reported failure has one, and nothing only if none has |
| ConfigPatch.Settle | internal/app/usecases/config.go:170-200 | Terminates with the sent keys still partitioned, the document the configured one plus the kept keys, and no failure left that a kept key can be blamed for |
| ConfigPatch.WithdrawalSettles | internal/app/usecases/config.go:185-197 | Withdrawing a blamed key keeps the document the configured one plus the remaining keys |
| ConfigPatch.SettledFailsNoMore | internal/app/usecases/config.go:170-237 | A settled document fails no rule the configured one did not: no key's own rule, and not the one over both ports |
| ConfigPatch.SettledIsSafe | internal/app/usecases/config.go:170-237 | Outside the port range a setting stands exactly when its own rule accepts it, a request whose ports are fine together keeps them, and over a configured range of ports a start or an end is kept exactly when it is a port on the right side of the other one named, or of the configured one |
| ConfigPatch.NeedlessWithdrawal | internal/app/usecases/config.go:164-200 | A withdrawn start would not fit the saved document; a withdrawn end would if and only if the start named with it is a port above both that end and the configured one, and the end is not below the configured start |
| ConfigPatch.ConfigUsecase.Patch | internal/app/usecases/config.go:100-136 | Applied and rejected partition the keys sent; nothing is saved if nothing is applied; an applied null puts the default back and any other applied value is stored as it decodes, every other key keeps what was configured, unknown keys and undecodable values are never applied and nulls outside the ports always; what is saved is safe, and which ports are applied is exact |
| Overlay.Prune | internal/core/config/overlay.go:122-155 | The loop leaves exactly the entries that lead to a kept leaf |
| Overlay.DifferingIsExact | internal/core/config/fields.go:28-43 | The kept keys are exactly the leaves and lists on which document and defaults disagree |
| Overlay.MergePruned | internal/core/config/overlay.go:32-49 | Merging what was pruned onto the defaults gives the document back, at any depth |
| Overlay.PrunedLeaves | internal/core/config/overlay.go:122-155 | The overlay holds exactly the differing leaves, with their own values |
| Overlay.PrunedHasNoEmptyMapping | internal/core/config/overlay.go:138-150 | No empty mapping is left at any depth |
| Overlay.OverlayRoundTrip | internal/core/config/overlay.go:83-107 | For every document of the defaults' shape the overlay merges back to it, holds exactly the differing leaves, and has no empty mapping |
| Overlay.DefaultsSaveNothing | internal/core/config/overlay.go:83-107 | The defaults themselves are saved as an empty file |
| Ports.Netbridge.FindAvailablePort | internal/engine/netbridge/allocation.go:12-45 | The first of the preferred port and the range upwards that the read model lacks and the system lets bind; a preference out of range is refused, and a read model that cannot be read ends the search |
| Ports.Netbridge.AdoptIfClaimed | internal/engine/netbridge/netbridge.go:190-200 | Adopts into the read model exactly a port that is live in the event store, except that a store that fails counts as not claimed |
| Ports.Netbridge.Attempt | internal/engine/netbridge/netbridge.go:150-157 | One attempt settles the allocation's answer, adopts one more live port the read model lacked, or fails with a store |
| Ports.Netbridge.Choose | internal/engine/netbridge/netbridge.go:150-182 | The attempts together answer as a function of the event store, and only adopt live allocations |
| Ports.Netbridge.Record | internal/engine/netbridge/netbridge.go:167-176 | Adds one allocation to the event store, which refuses a live port and stays exclusive, whether or not the projection arrives |
| Ports.Netbridge.Allocate | internal/engine/netbridge/netbridge.go:141-182 | Answers what a search of both stores would if and only if that search meets fewer than 64 live ports its read model lacks or finds nothing free, and otherwise that none is available; adds only that allocation, never of a live port, and nothing when it fails; it fails over a store only if one failed |
| Ports.Netbridge.Release | internal/engine/netbridge/netbridge.go:219-223 | A release that is sent removes the port from the live ones, and from the read model if its projection arrives |
| Ports.Netbridge.DeallocateByOwner | internal/engine/netbridge/netbridge.go:203-228 | Releases every port the read model says the owner holds, or some of them when a store fails; no port of anybody else, and on success it leaves the owner only what the read model did not know |
| Ports.ExclusiveMeans | internal/engine/netbridge/internal/commands/allocate_port.go:39-48 | Between two allocations of one port lies its release: no port ever has two owners |
| Ports.SearchMeetsLive | internal/engine/netbridge/allocation.go:24-44 | A search over a lagging read model finds nothing where there is nothing, meets a live port it did not know, or finds what a search of the event store finds |
| Ports.AttemptSettles | internal/engine/netbridge/netbridge.go:150-157 | While fewer than 64 were adopted an attempt gives the final answer or meets another unknown live port |
| Ports.AnswersAsTheEventStore | internal/engine/netbridge/netbridge.go:141-182 | A read model that lacks fewer than 64 live allocations gives the same answer as the event store |
| Ports.UnknownMeans | internal/engine/netbridge/allocation.go:24-44 | The ports an allocation adopts are exactly the live ones its read model lacks among the candidates before the first free one |
| Ports.GivesUpBeforeAFreePort | internal/engine/netbridge/netbridge.go:150-182 | With 64 or more unknown live ports in a row before a free one, an allocation answers that none is available |
| Ports.FirstFreeMeans | internal/engine/netbridge/allocation.go:24-44 | The answer is the preferred port when it is free, and otherwise the lowest free port of the range, or none if there is none |
| Sorting.OneArrangement | internal/app/usecases/ranking.go:123-134 | An order that tells all elements apart leaves exactly one way to arrange them |
| Sorting.SortOrders | internal/app/usecases/ranking.go:125-134 | The sorted list has no element before one that should precede it |
| Sorting.SortPermutes | internal/app/usecases/ranking.go:125-134 | The sorted list has the same elements as often |
| Sorting.BelowMeans | internal/app/usecases/ranking.go:129-132 | Names are compared by the first place where they differ, the shorter first when there is none |
| Sorting.SortedRefsAreExact | internal/app/usecases/search.go:257-264 | A version list holds each ref once, in increasing order, and no other |
| Ranking.PositionScores | internal/app/usecases/ranking.go:45-53 | Place i of n scores n - 1 - i |
| Ranking.Normalise | internal/app/usecases/ranking.go:70-93 | Every score becomes its place between the least and the greatest, or 1 when there is no spread |
| Ranking.NormaliseKeepsRanking | internal/app/usecases/ranking.go:55-69 | Normalised scores lie in [0,1], the best is 1, and both order and relative distances are kept |
| Ranking.BaseScores | internal/app/usecases/ranking.go:45-93 | Positions normalised run from 1 to 0 in equal steps |
| Ranking.ApplyBoosts | internal/app/usecases/ranking.go:98-112 | The loop-free sum of relevance, exact name, followed and star boosts |
| Ranking.StarsAreCapped | internal/app/usecases/ranking.go:114-121 | The star boost grows with the stars and stays in [0, 0.3] |
| Ranking.StarBoostIs | internal/app/usecases/ranking.go:114-121 | The star boost is 0.06 for every power of ten of one more than the stars, up to five, and nothing without stars |
| Ranking.StarsMove | internal/app/usecases/ranking.go:114-121 | Between results alike in all else more stars score higher if and only if they make a higher power of ten and the fewer do not reach the fifth |
| Ranking.ScoreSet | internal/app/usecases/search.go:229-245 | Each result is scored by its place in its own list |
| Ranking.Merge | internal/app/usecases/search.go:208-227 | The merged list is the sorted union of both scored lists |
| Ranking.MergeIsPermutation | internal/app/usecases/search.go:208-227 | Nothing is lost, added or repeated by merging |
| Ranking.OneRanking | internal/app/usecases/ranking.go:123-134 | With distinct namespaces the sorted list does not depend on the order the items are combined in |
| Ranking.SourcesCommute | internal/app/usecases/search.go:208-227 | Which store answers first does not change the ranking |
| Ranking.MergedByScore | internal/app/usecases/ranking.go:123-134 | Of two results of the merged list the one with the higher score, or at equal scores the lower namespace, comes first |
| Ranking.RelevanceIsKept | internal/app/usecases/ranking.go:45-53 | Results of one store that only their relevance tells apart keep that store's order in the merged list |
| Ranking.ScoreBounds | internal/app/usecases/ranking.go:16-36 | An exactly named result scores at least 2.0 and any other at most 1.8 |
| Ranking.ExactNameOutranksEverything | internal/app/usecases/ranking.go:16-25 | In the merged list no result the query does not name precedes one it names, for any places, follows and stars |
| Ranking.CurationOutranksPopularity | internal/app/usecases/ranking.go:25-26 | At equal relevance a followed arrow precedes any other, whatever the stars |
| Ranking.CurationMoves | internal/app/usecases/ranking.go:26-34 | Following moves a result past one d places ahead if and only if 2d < n - 1, and ties if and only if 2d = n - 1 |
| Search.FirstNamespaces | internal/engine/vault/index_query.go:98-114 | Keeps every row of the first limit distinct namespaces, in rank order, and no other |
| Search.DistinctIsRanked | internal/engine/vault/index_query.go:98-114 | Namespaces come in the order of their first rows |
| Search.BestIsFirst | internal/app/usecases/search.go:134-137 | The row whose metadata an arrow keeps is the first it has |
| Search.SeenResults | internal/app/usecases/search.go:143-172 | One result per namespace the catalog lacks, in rank order of its best row |
| Search.Group | internal/app/usecases/search.go:148-163 | The grouping loop keeps, per namespace, its best row's metadata and all its refs |
| Search.SeenIsWhole | internal/app/usecases/search.go:139-196 | A result has the name and stars of its best row, every ref the rows hold for it, each once, sorted, is not installed, and comes from a collection exactly when it is followed |
| Search.CatalogIsWhole | internal/app/usecases/search.go:109-137 | A catalog result has the hit's name and refs, each once, sorted, is installed, and has the hit's source unless a followed collection has it |
| Search.RestrictKeepsWhole | internal/engine/vault/index_query.go:98-114 | A namespace that is kept keeps all its refs and its best row |
| Search.WidenedLimitIsEnough | internal/app/usecases/search.go:67-77 | What the vault contributes is a prefix of all matches the catalog lacks, of length at least min(limit, their number), each described as by all its rows |
| Search.SourcesAreApart | internal/app/usecases/search.go:139-142 | Catalog and vault never contribute the same namespace |
| Search.OneResultPerArrow | internal/app/usecases/search.go:208-227 | No arrow is shown twice |
| Search.ResultsAreAccountedFor | internal/app/usecases/search.go:67-84 | Every result is a hit of the catalog, or an arrow the catalog lacks as all the rows that match it describe it |
| Search.SearchFillsTheLimit | internal/app/usecases/search.go:67-84 | A search shows min(limit, number of matches in both stores) results |
| Search.Gather | internal/app/usecases/search.go:70-79 | The steps from the two stores' answers to the merged list compute the specified ranking |
| Search.Run | internal/app/usecases/search.go:46-84 | Empty queries and failing stores are refused in that order; otherwise the answer is the start of the merged list, as many as there are up to the limit, 25 when none was given |
| SelfUpdate.FreeAside | internal/cli/selfupdate/selfupdate.go:277-286 | The first numbered aside name no file has |
| SelfUpdate.Updater.SweepAsides | internal/core/paths/paths.go:149-154 | The sweep passes through the disks that lack one aside more each |
| SelfUpdate.Updater.Stage | internal/cli/selfupdate/selfupdate.go:259-275 | Staging passes only through disks that differ in the temporary file |
| SelfUpdate.Updater.Exchange | internal/cli/selfupdate/selfupdate.go:244-256 | Moves the old binary aside, renames the new one into place, and restores on failure |
| SelfUpdate.Updater.SwapIn | internal/cli/selfupdate/selfupdate.go:233-257 | Sweep, stage, exchange and the deferred removal, in that order |
| SelfUpdate.Updater.Restore | internal/cli/selfupdate/selfupdate.go:289-300 | Removes what is at the self path and renames the aside back, or does nothing without an aside |
| SelfUpdate.Updater.StartAndCheck | internal/cli/selfupdate/selfupdate.go:196-211 | Succeeds exactly when the new daemon starts and answers healthy; otherwise no healthy daemon runs, and one that was started is left over exactly when it outlives its kill |
| SelfUpdate.Updater.Update | internal/cli/selfupdate/selfupdate.go:150-183 | The run passes through exactly the specified disks, with the specified verdict and daemon |
| SelfUpdate.SucceedsExactly | internal/cli/selfupdate/selfupdate.go:145-183 | An update succeeds if and only if the new binary gets into place, which takes the old one moving aside if it was seen, and the new daemon starts and answers healthy; it rolls back if and only if the binary gets into place and the daemon does not |
| SelfUpdate.OldBinarySurvives | internal/cli/selfupdate/selfupdate.go:233-257 | At every point of every run before the new daemon is healthy the complete old binary is at the self path or aside, unless the self path was wrongly found empty |
| SelfUpdate.OldBinarySurvivesExactly | internal/cli/selfupdate/selfupdate.go:243-253 | With no second copy around that condition is exact |
| SelfUpdate.BlindSwapLosesTheOldBinary | internal/cli/selfupdate/selfupdate.go:243-253 | When the stat fails and the rename succeeds, no copy is left |
| SelfUpdate.SelfIsNeverPartial | internal/cli/selfupdate/selfupdate.go:229-232 | The self path never holds a half-written binary, whatever fails |
| SelfUpdate.FailureLeavesTheOldBinary | internal/cli/selfupdate/selfupdate.go:145-182 | A run that errs leaves the old binary at the self path if and only if it was never moved or its restoring rename worked, and then that is what a restart runs; a new daemon is left beside it if and only if one was started and outlived its kill |
| SelfUpdate.NothingSwappedWhileRunning | internal/cli/selfupdate/selfupdate.go:147-168 | Until the old daemon is known to be gone nothing on disk changes |
| SelfUpdate.UpdateRunsTheNewBinary | internal/cli/selfupdate/selfupdate.go:175-182 | A successful run leaves the complete new binary at the self path and running |
| SelfUpdate.NoTempIsLeft | internal/cli/selfupdate/selfupdate.go:237-275 | However a run ends, no temporary file is left where its removal works |
| SelfUpdate.UpdateTidiesUp | internal/cli/selfupdate/selfupdate.go:180-182 | After a success neither the temporary file nor the old binary is left when their removals work, and the old binary is left aside when its removal fails |
| SelfUpdate.SweepKeepsOld | internal/core/paths/paths.go:146-154 | A sweep is harmless if and only if the old binary is at the self path or at an aside it does not take |
| SelfUpdate.StoppedRollbackThenUpdate | internal/cli/selfupdate/selfupdate.go:289-300 | Stopped between the halves of a rollback, the old binary is only aside, and an update that follows sweeps it away first |
| RateLimiting.RateLimiter.Allow | internal/api/middleware/ratelimit.go:53-69 | Decides by the counter the whole history of requests leads to |
| RateLimiting.WindowInvariantHolds | internal/api/middleware/ratelimit.go:53-69 | In every run the counter is the number of requests allowed in the open window, and earlier windows have ended |
| RateLimiting.SlidingBound | internal/api/middleware/ratelimit.go:53-69 | In every run with a non-decreasing clock any half-open interval as long as the window holds at most 2 * limit - 1 allowed requests, and none without a positive limit |
| RateLimiting.SlidingBoundIsTight | internal/api/middleware/ratelimit.go:53-69 | For every limit and window of at least two ticks a run meets that bound |
| RateLimiting.RefusedOnlyWhenSpent | internal/api/middleware/ratelimit.go:64-68 | A request is refused exactly when its window already let through the limit, and no window lets through more |

## Left out

- HTTP, WebSocket framing, SQL matching, bm25, YAML and JSON parsing, and the asynx event store's own storage: frames are values, ranked rows and matches are inputs, documents are trees, the event store is its log.
- Arrow, runtime, lifecycle, graph and versioning packages, CLI rendering, DTO mappers, wiring and authentication.
- Stitching: one job and one subscriber; several are independent except for the lock a push holds while it goes through the clients. Pings and deadlines are write failures. Sequence numbers do not wrap at 2^64.
- Stitching.FilteredClient.Enqueue: only the overflow policy that disconnects, which is what discovery uses; the other one drops the frame without asking for a kick.
- Stitching.ExactlyOnce: says nothing of a subscriber whose job had been swept before it asked for the replay; `Stitching.CompletedIsComplete` states what that one gets.
- Discovery.Registry.Start: ids are given by the caller as unused, and the pipeline a job runs is not modelled; its listeners are those of Stitching.
- LogRing: the slog handler in front of the ring and its redaction of attributes; records carry a level and a text. Sequence numbers do not wrap at 2^64.
- DepTree.Resolve: the graph is a function from namespaces to answers, so a resolver that answers differently when asked again is not modelled; polling the context is a function of the number of polls. Finiteness of the reachable graph is a ghost argument.
- PathSafe.CacheNamesShared: supposes different digests, which SHA-256 is trusted to give.
- PathSafe.CacheNamesDisjoint: stated up to equal digests, and so is PathSafe.CurrentNamesDiffer.
- WorkDirs.WorkDirsNeverNest: likewise up to equal digests; up to case it compares refs of one bare namespace, because the bare part keeps its case in a path.
- Collections and quivers in the vault use the same name encoders; their own files are not modelled.
- VaultCache.Store.GetArrow: every operation of the store first refuses a namespace that `WorkDirs.Validate` does not accept; the model's operations are total, and its theorems hold for any set of namespaces, accepted ones included.
- VaultCache.Store.PutArrow: a put is one step without I/O errors; its upkeep of working directories and of the search index is not modelled. The two writes are not separated by a crash.
- CacheIsolation.HitsKeepTheirMark: supposes that nothing was filed before the run and that no put comes after the one before it has expired, because then a sweep in between decides what is kept.
- VaultCache.Store.SweepCacheEntry: reads the expiry in one step with the deletion; the code reads it before it takes the lock, and a put in between is not modelled.
- ConfigPatch.ConfigUsecase.Patch: the request arrives as the keys sent with their raw values; nested objects are flattened beforehand, keys come in the sorted order the code gives them, and the schema gives each key's own rule and decoding.
- Overlay.Prune: works on tree values, not in place on YAML nodes, so sharing of nodes is not captured. Dotted keys are lists of segments; nil and empty lists are one value; replacing the file on disk is not modelled.
- Ports.Netbridge.Record: router forwarding is best effort and its outcome is left open, as is whether a projection arrives. Bind tests are a predicate that does not change during a call.
- Ranking.ApplyBoosts: reals instead of floats, and `log10(1 + stars)` is any non-negative, non-decreasing function; Unicode case folding of the query is a predicate on names.
- Search.Run: the query text comes trimmed; descriptions, tags, media, operating systems and confidence ride along with a result unchanged and are not carried; a failed look-up of followed collections is an empty set of them. Namespaces in rows and hits are bare already, as the index stores them.
- Ranking.OneRanking: the library's sort is stood for by an insertion sort; `Sorting.OneArrangement` says why any other gives the same list.
- SelfUpdate.Updater.Update: processes and health probes are booleans of the fate, polling is one answer, and the recorded executable of the old daemon is the self path. A sweep ignores asides whose suffix is not a number. Zombies, permissions and the boot lock file are not modelled.
- RateLimiting.RateLimiter.Allow: times are integer ticks from the zero time, and the mutex makes each call one step.
