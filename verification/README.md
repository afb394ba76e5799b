# Elasticsearch as a filesystem: a verified model

This project models the parts of ESFS that make a mount of an Elasticsearch
cluster trustworthy, and proves what they promise:

- the write path: handles that stage bytes, validate JSON, and save with
  optimistic concurrency (`Staging`, `Write`, `Answers`, `Sessions`, `Aliasing`);
- the store, the live client and its bounded LRU cache with expiry, as objects
  over a real doubly linked list and as values (`Store`, `Client`, `Recency`,
  `Cache`, `CacheTraces`, `Coherence`);
- all of these together as a state machine, with any number of handles, late and
  lost answers, and outside writers in any order (`System`, `SystemSafety`,
  `SystemTheorems`, `Staleness`);
- names and paths: percent encoding, hashed names, path parsing, listings and
  routing of typed paths (`Utf8`, `PathEnc`, `Paths`, `Listing`, `Routing`);
- paging through a point-in-time snapshot, and searching several indices
  (`Search`);
- the query planner, with a meaning for the queries it emits (`Ordering`,
  `Planner`, `PlannerMeaning`), per-index settings (`Config`), and the planning
  of a search over several indices (`SearchPlanning`).

Check it with `dafny verify dfyconfig.toml` (Dafny 4.11).

## How to read it

Where the program changes things step by step there is a class or a method with
loops (`Cache.TtlCache`, `Store.Fake`, `Client.ESClient`, `Write.Handle`,
`Write.VFS`, `Search.StreamPIT`, ...). Each such method is proved equal to a
function on values (`Recency.Lookup`, `Client.PutSpec`, `Write.FlushSpec`, ...),
and the theorems are about those functions, so that they compose; `Answers` says
for each operation what it answers and leaves behind. `System.Next`
is built from the same functions; the lemmas `SendAckIsFlush`, `SendLoseIsFlush`,
`SendIsFlush`, `RefuseIsFlush`, `OpenHitIsOpenWrite`, `OpenMissIsOpenWrite` and
`OpenErrorIsOpenWrite` say that its steps are the calls.

Byte strings are sequences of numbers below 256. Clocks, network outcomes, the
order in which a Go map is enumerated and the moment a consumer goes away are
parameters, and every theorem holds for all of them. SHA-256 with base32 is an
arbitrary function to thirty-two lower-case characters; where collisions matter
they are named, and the theorem says what happens with them. `encoding/json` is
a validity test, an is-object test (which `null` passes) and an indenter, all
arbitrary.

## Where the code and its words differ

The model follows the code.

- The ids `.` and `..` are shown verbatim, so a printed path to them is cleaned
  away, and under a mount root "/" no path resolves
  (`Routing.PrintedPathExactly`).
- A handle opened without Create on a document its read did not yield (also
  because the read failed) saves unconditionally the first time, and such a save
  can destroy an outside update (`SystemTheorems.UnconditionalExactly`,
  `LosesExactlyWhenBlind`, `OutsideUpdateLost`).
- Unlink deletes whatever version is there (`SystemTheorems.UnlinkLosesUnseen`).
- After a lost answer, trying again on the same handle conflicts with the save
  that went through (`SystemTheorems.RetryAfterLostAnswer`).
- Growing the buffer zeroes the spare cells of the old array one by one before it
  moves, so saving, emptying the file and writing a longer text leaves a store
  that kept the slice with zeros (`Aliasing.RewriteErases`).
- Under the create-only policy a handle saves once (`Sessions.CreateOnlySavesOnce`).
- The fake checks a captured version for upserts; the live client does not send
  it (`Store.FakeMirrorsLive`).
- Ranked search sorts scores upwards, and the limit applies to each index
  (`Search.BestKeptExactlyDownwards`, `Search.BestKeptExactly`,
  `Search.SearchComplete`).
- A write of no bytes past the end grows the buffer (`Staging.EmptyWriteGrows`).
- `normalizeJSON` trims trailing NULs and nothing else (`Staging.TrimNulsIsTrimmed`).
- A larger cache can miss where a smaller one hits, once entries expire
  (`CacheTraces.HitsCanShrink`).
- In `OpenWrite`, the branch that falls back to the raw name cannot be reached,
  because resolving fails only for hashed names.

## Model

| member | source | states |
|---|---|---|
| Cache.TtlCache.constructor | internal/escore/cache.go:26-37 | a new cache is empty; a capacity of zero or less means 1024 |
| Cache.TtlCache.Get | internal/escore/cache.go:39-55 | over the linked list and the map, a lookup is exactly lookup on the recency list: a live entry moves to the front, an expired one disappears |
| Cache.TtlCache.Put | internal/escore/cache.go:57-76 | an insert refreshes or pushes to the front and evicts from the back; never more than capacity entries, one element per key, the map pointing at it |
| Cache.TtlCache.Invalidate | internal/escore/cache.go:78-84 | removes the key's entry and nothing else |
| Cache.TtlCache.RemoveElement | internal/escore/cache.go:86-92 | unlinks one element and drops its key, keeping list and map in agreement |
| Cache.TtlCache.MapIsList | internal/escore/cache.go:11-18 | the map has exactly the keys of the list and leads from each to the element that carries it |
| CacheTraces.Retention | internal/escore/cache.go:39-84 | after a touch of a key, its entry is there if fewer than capacity other keys were touched since; when nothing expired or was invalidated, only if |
| CacheTraces.RunSound | internal/escore/cache.go:57-76 | over any run keys stay distinct and the capacity is never exceeded |
| CacheTraces.Inclusion | internal/escore/cache.go:39-76 | two caches driven by the same reads: the smaller recency list is always a prefix of the larger, whatever expires |
| CacheTraces.AccessKeys | internal/escore/esclient.go:118-144 | a read through the cache puts its key in front of the others and cuts at the capacity, whether it hit, missed or found an expired entry |
| CacheTraces.HitsGrow | internal/escore/cache.go:39-55 | without expiry, whatever hits in the smaller cache hits in the larger |
| CacheTraces.HitsCanShrink | internal/escore/cache.go:47-54 | for every positive lifetime a run after which the cache of one entry hits and the cache of two misses |
| Recency.LookupSound | internal/escore/cache.go:39-55 | a lookup keeps keys distinct and the size within capacity |
| Recency.InsertSound | internal/escore/cache.go:57-76 | an insert keeps them too, and puts the new entry first |
| Recency.HitsWithinLifetime | internal/escore/cache.go:47-66 | what was just inserted hits until its lifetime is over, and exactly so long |
| Client.CacheKeyInjective | internal/escore/esclient.go:119-119 | index names hold no NUL, so index, NUL, id tells all documents apart |
| Client.CacheKeyNeedsNoNul | internal/escore/esclient.go:119-119 | with a NUL in an index name two documents would share a key |
| Client.ESClient.Get | internal/escore/esclient.go:118-145 | a cached document, or the server's, which is then cached and its name remembered; a 404 and a failed request cache nothing |
| Client.ESClient.Send | internal/escore/esclient.go:147-160 | the request carries create-only, the captured version, or no condition |
| Client.ESClient.Put | internal/escore/esclient.go:147-181 | a write is refused, conflicts, or commits; only a commit whose answer arrives is cached |
| Client.ESClient.Delete | internal/escore/esclient.go:183-203 | a deletion that is acknowledged invalidates the cached document |
| Client.ESClient.RememberHashed | internal/escore/esclient.go:85-96 | enters a hashed name in the reverse map |
| Client.ESClient.ResolveHashed | internal/escore/esclient.go:99-104 | the id a hashed name was remembered for |
| Coherence.CoherentStep | internal/escore/esclient.go:118-203 | an answered operation of the only writer keeps every cached document equal to the server's |
| Coherence.CoherentRun | internal/escore/esclient.go:118-203 | so does any run of them |
| Coherence.SoleWriterReads | internal/escore/esclient.go:118-145 | after any such run a read returns exactly the server's document, or not found: writes are read back and deleted documents are not served |
| Coherence.LostReplyExactly | internal/escore/esclient.go:161-203 | a lost answer breaks this if and only if the store's own checks let the operation through and the document is cached |
| Store.Fake.SeedLocked | internal/escore/fake.go:46-64 | a commit takes the next sequence number and remembers the name |
| Store.Fake.Get | internal/escore/fake.go:73-82 | the stored document or not found |
| Store.Fake.Put | internal/escore/fake.go:84-108 | both JSON checks, then create-only or version check, then commit |
| Store.Fake.Delete | internal/escore/fake.go:110-121 | gated; removes an existing document |
| Store.FakeMirrorsLive | internal/escore/fake.go:94-104 | the fake lets through what the live client's request lets through, except for upserts that carry a version, and exactly then not |
| Config.ForIndex | internal/escore/config.go:97-134 | the merge, done field by field, is the one the next rows are about |
| Config.OverrideWins | internal/escore/config.go:113-133 | an override of a field decides that field, whatever the global setting, and no other |
| Config.ListsComeFromIndex | internal/escore/config.go:116-123 | search fields and semantic fields come from the index alone, each to its own place; redaction is global, then the index's own |
| Config.Unconfigured | internal/escore/config.go:98-112 | an index without settings has the global ones, and no lists but the global redaction |
| Config.OverrideIsLocal | internal/escore/config.go:109-112 | the settings of one index concern no other index |
| Config.GlobalReaches | internal/escore/config.go:98-105 | the global write policy, delete sync and time field reach exactly the indices that do not override them |
| Config.GlobalModeReaches | internal/escore/config.go:98-108 | so do the global mode, where unset means auto, and the profile opt-out |
| Staging.BufferIsFile | internal/vfs/write.go:90-116 | after any edits every byte is that of the last write covering it, unless it was cut off since; gaps are zero |
| Staging.ChunksArrive | internal/vfs/write.go:105-116 | a payload written in sequential chunks of any sizes arrives as it was |
| Staging.DisjointWritesCommute | internal/vfs/write.go:105-116 | writes to disjoint ranges may arrive in either order |
| Staging.EmptyWriteGrows | internal/vfs/write.go:109-112 | a write of no bytes grows the buffer to its offset |
| Staging.TrimNulsIsTrimmed | internal/vfs/write.go:199-206 | normalizing removes the trailing NULs, all of them and nothing else |
| Staging.NormalizeJSON | internal/vfs/write.go:199-206 | the loop computes that |
| Write.Handle.TruncateTo | internal/vfs/write.go:90-102 | resizes the buffer, zero-filled, and marks it dirty |
| Write.Handle.WriteBytes | internal/vfs/write.go:105-116 | places the data and marks the buffer dirty; a negative offset changes nothing |
| Write.Handle.Checked | internal/vfs/write.go:124-144 | the order of the checks: clean, invalid, not an object, else the trimmed text and the policy |
| Write.Handle.Flush | internal/vfs/write.go:123-158 | only dirty, valid content is pushed, create-only while the handle is; success recaptures the version |
| Write.VFS.OpenWrite | internal/vfs/write.go:35-84 | the calls, in order, are those whose outcome `Answers.OpenAnswers` states |
| Write.VFS.NewHandle | internal/vfs/write.go:60-81 | the switch on what the read found; `Answers.OpenedExactly` says what comes of it |
| Write.VFS.Unlink | internal/vfs/write.go:167-185 | gated by the index's delete sync; the answers are those of `Answers.UnlinkAnswers` |
| Write.VFS.FindTarget | internal/vfs/vfs.go:185-194 | the document a path names, through the reverse map for hashed names |
| Answers.GetAnswers | internal/escore/esclient.go:118-145 | a read answers with the live cached document, else with the server's, not found, or an upstream error |
| Answers.PutAnswers | internal/escore/esclient.go:147-181 | the answer to a write and the server it leaves, for every policy, version and network outcome |
| Answers.WriteReadsBack | internal/escore/esclient.go:177-178 | a write is read back, without the server, for as long as the cache keeps it |
| Answers.FetchReadsBack | internal/escore/esclient.go:142-144 | so is a document that was fetched |
| Answers.ReadNameOpens | internal/escore/esclient.go:142-144 | a fetched document opens under its shown name, hashed or not |
| Answers.WrittenNameOpens | internal/escore/esclient.go:177-180 | so does a written one |
| Answers.TargetExactly | internal/vfs/vfs.go:185-194 | which document a path means, and the error when it means none |
| Answers.OpenedExactly | internal/vfs/write.go:50-81 | a handle is for its document and its index's policy, holds the version and text that were read, and is create-only exactly when nothing was read and the flags ask for a new document |
| Answers.OpenAnswers | internal/vfs/write.go:35-84 | every refusal of OpenWrite and its error, in order; otherwise such a handle |
| Answers.StagedTextIsDocument | internal/vfs/write.go:68-74 | the staged text means what the document's text means, so saving it unchanged changes nothing |
| Answers.EditsMakeFile | internal/vfs/write.go:90-116 | after any edits the handle holds the sparse file they make and is dirty exactly when one of them counted |
| Answers.FlushAnswers | internal/vfs/write.go:123-158 | what a flush answers and records, in terms of the text, the network and the document it would replace |
| Answers.UnlinkAnswers | internal/vfs/write.go:167-185 | the first refusal that applies, with its error |
| Answers.UnlinkSucceedsExactly | internal/vfs/write.go:167-185 | success if and only if the path means a document, its index has delete sync, the server allows it, the answer arrives and the document was there |
| Answers.UnlinkLeaves | internal/escore/esclient.go:183-203 | after success the document is gone from server and cache and nothing else changed; a refusal that arrived changed nothing |
| Sessions.FlushTwice | internal/vfs/write.go:123-126 | after a successful flush another one changes nothing and succeeds |
| Sessions.FailedFlush | internal/vfs/write.go:128-150 | a failed flush leaves buffer, dirty mark and version as they were, and unless the answer was lost the store and the cache too |
| Sessions.OpenInStep | internal/vfs/write.go:60-81 | opening on an answered read gives a handle whose condition fits the server |
| Sessions.FlushInStep | internal/vfs/write.go:141-154 | such a flush fails exactly for content that is not storable or, under create-only, for an existing document; success puts the trimmed buffer on the server |
| Sessions.SessionSmooth | internal/vfs/write.go:90-158 | while nobody else writes, every save in any alternation of edits, flushes and other work succeeds, for every policy but create-only |
| Sessions.CreateOnlySavesOnce | internal/vfs/write.go:141-144 | under create-only the second save conflicts with the first |
| System.TraceSteps | internal/vfs/write.go:35-185 | each state of a run is one step of the mount or of an outsider from the one before |
| SystemSafety.NextInv | internal/vfs/write.go:35-185 | every step keeps the invariant on server, cache, answers in flight, handles, log and reverse map |
| SystemSafety.RunInv | internal/vfs/write.go:35-185 | it holds at every moment of every run |
| SystemSafety.SendEvent | internal/vfs/write.go:141-150 | a conditional save that is let through replaces the captured document, text and all |
| SystemTheorems.NoLostUpdate | internal/vfs/write.go:60-154 | in every interleaving a save through a guarded handle replaced exactly the document last captured, or wrote where there was none; everything saved passed both JSON checks |
| SystemTheorems.LogIsComplete | internal/vfs/write.go:123-185 | the log tells every change this mount made to the server, exactly |
| SystemTheorems.LosesExactlyWhenUnconditional | internal/escore/esclient.go:152-160 | a save destroys an update it never saw if and only if its handle is unconditional |
| SystemTheorems.UnconditionalExactly | internal/vfs/write.go:61-81 | at every moment of every run, a handle is unconditional if and only if its history says so: policy, flags, what its read found, whether a save was acknowledged |
| SystemTheorems.LosesExactlyWhenBlind | internal/vfs/write.go:61-154 | so, in every run, a save destroys an outside update it never saw if and only if the handle was opened blind |
| SystemTheorems.OutsideUpdateLost | internal/vfs/write.go:76-80 | the loss is reachable: a failed read at open, an edit, a foreign write, a save |
| SystemTheorems.RetryAfterLostAnswer | internal/vfs/write.go:145-154 | after a lost answer, a retry on the handle conflicts with its own save unless the handle is unconditional |
| SystemTheorems.UnlinkLosesUnseen | internal/vfs/write.go:167-185 | a foreign update that comes before an unlink is deleted unseen exactly when the deletion is allowed and sent |
| SystemTheorems.NeverShrinks | internal/vfs/write.go:172-174 | without delete sync, no run of this mount removes a document from the index |
| SystemTheorems.RemovalsAreGated | internal/vfs/write.go:167-185 | every removal this mount made was in an index whose settings allow it |
| SystemTheorems.HandlesFollowPolicy | internal/vfs/write.go:50-51 | every handle of every run has the write policy of its index |
| SystemTheorems.CreateOnlyNeverReplaces | internal/vfs/write.go:141-145 | in a create-only index no save of any run replaced a document |
| SystemTheorems.CreateOnlyFreezes | internal/vfs/write.go:123-185 | in a create-only index without delete sync an existing document stays as it is, text and version, whatever this mount does |
| SystemTheorems.CleanHandles | internal/vfs/write.go:123-158 | a handle that is not dirty shows what it was opened with, or its trimmed buffer is the committed text of the version it holds |
| SystemTheorems.SendAckIsFlush | internal/vfs/write.go:145-157 | a commit and its answer are one call of Flush |
| SystemTheorems.SendLoseIsFlush | internal/vfs/write.go:145-150 | a commit and a lost answer are one call of Flush that fails |
| SystemTheorems.SendIsFlush | internal/vfs/write.go:124-150 | a flush that does not commit is one call of Flush |
| SystemTheorems.RefuseIsFlush | internal/vfs/write.go:145-150 | a flush whose request is not delivered is one call of Flush |
| SystemTheorems.OpenHitIsOpenWrite | internal/vfs/write.go:35-84 | opening on a cached document is one call of OpenWrite |
| SystemTheorems.OpenMissIsOpenWrite | internal/vfs/write.go:35-84 | looking up, fetching, filling and opening are one call of OpenWrite |
| SystemTheorems.OpenErrorIsOpenWrite | internal/vfs/write.go:35-84 | looking up and failing to fetch are one call of OpenWrite |
| SystemTheorems.ListedStaysOpenable | internal/vfs/vfs.go:149-168 | once listed, a document's printed path names it at every later moment, unless the hash maps two ids to one name |
| Staleness.TimedStep | internal/escore/esclient.go:118-181 | every step keeps: what is cached or in flight was the server's recently enough |
| Staleness.BoundedStaleness | internal/escore/cache.go:47-54 | a cached document that a lookup yields was the server's at a moment at most the lifetime plus the delay ago, whatever others write |
| Staleness.NoExpiryNoBound | internal/escore/cache.go:60-63 | with expiry off there is no such bound |
| Aliasing.Slice.TruncateTo | internal/vfs/write.go:90-102 | on the shared slice: the handle's text, and what a keeper of the old array sees, zeros included |
| Aliasing.Slice.WriteAt | internal/vfs/write.go:105-116 | the same for a write: the new data if it stays in the array, zeros over the spare cells even if it then moves |
| Aliasing.KeptSurvivesExactly | internal/vfs/write.go:90-145 | a kept text is unchanged throughout an editing session if and only if every edit is harmless when made: repeats bytes, refills zeros, or moves away without a cut before |
| Aliasing.SafeForEverExactly | internal/vfs/write.go:127-145 | a kept text is safe from every later session if and only if it is empty or the handle has left its array |
| Aliasing.RewriteErases | internal/vfs/write.go:90-116 | emptying the file and writing it anew goes over the kept text, or leaves it all zeros when the new text outgrows the array |
| Aliasing.SaveThenRewrite | internal/vfs/vfs_test.go:55-58 | the same on the objects |
| Aliasing.SavedObjectErased | internal/vfs/write.go:90-145 | a concrete document that is lost this way |
| Utf8.DecodeEncode | internal/contract/pathenc.go:55-62 | every scalar value decodes from its encoding, whatever follows |
| Utf8.EncodeDecode | internal/contract/pathenc.go:55-57 | whatever decodes is the one encoding of a scalar value |
| Utf8.AsciiRuneIsByte | internal/contract/pathenc.go:58-62 | a check for an ASCII character on runes is that check on bytes, also in ill-formed text |
| PathEnc.PercentEscape | internal/contract/pathenc.go:125-138 | the loop prints the escape of every byte in turn |
| PathEnc.PercentUnescape | internal/contract/pathenc.go:140-160 | the loop reads it back, or reports a bad escape |
| PathEnc.UnescapeEscape | internal/contract/pathenc.go:125-160 | unescaping undoes escaping |
| PathEnc.EscapeUnescape | internal/contract/pathenc.go:125-160 | escaping restores a text exactly if it is canonical |
| PathEnc.RawSafeBytes | internal/contract/pathenc.go:58-62 | the rune loop of isRawSafe is a guarantee about bytes, both ways |
| PathEnc.EncodedIsFileName | internal/contract/pathenc.go:75-85 | every id is shown under a name of 1 to 255 bytes, valid UTF-8, not reserved, without separators, NUL or control bytes |
| PathEnc.NameClasses | internal/contract/pathenc.go:75-109 | verbatim, reversible and hashed names are told apart by their first bytes |
| PathEnc.HashedExactly | internal/contract/pathenc.go:75-85 | which ids are hashed; none of up to 84 bytes, all above 255 |
| PathEnc.RoundTrip | internal/contract/pathenc.go:75-106 | decoding a name gives back the id, or says that it is hashed |
| PathEnc.EncodeInjective | internal/contract/pathenc.go:75-85 | distinct ids have distinct names, except for hash collisions and exactly then |
| PathEnc.DecodeThenEncode | internal/contract/pathenc.go:75-106 | a name prints back to itself if and only if it is canonical |
| PathEnc.DecodeNotInjective | internal/contract/pathenc.go:90-106 | two names may decode to one id |
| PathEnc.VerbatimExactly | internal/contract/pathenc.go:45-78 | an id is shown as it is if and only if it is a legal file name not starting with the escape character |
| PathEnc.DecodeExactly | internal/contract/pathenc.go:90-106 | what decoding answers for every name: the bytes it spells, hashed, reserved, or itself |
| PathEnc.UnescapedExactly | internal/contract/pathenc.go:140-173 | unescaping gives exactly what a text spells, hexadecimal digits in either case, and fails exactly when it spells nothing |
| PathEnc.UnreservedExactly | internal/contract/pathenc.go:112-121 | the bytes that are never escaped are those of section 2.3 of RFC 3986 |
| PathEnc.HexExactly | internal/contract/pathenc.go:123-173 | digits are printed in upper case and read in both |
| Paths.ValidIndexBytes | internal/contract/paths.go:96-113 | a valid index name has no separator and no NUL byte |
| Paths.PrintThenParse | internal/contract/paths.go:45-90 | parsing a printed document path gives the document, or its hashed name |
| Paths.ParseThenPrint | internal/contract/paths.go:63-85 | printing a parsed document restores the path exactly if its leaf is canonical |
| Paths.DocumentExactly | internal/contract/paths.go:63-87 | which paths mean documents, and which node they give |
| Paths.VirtualExactly | internal/contract/paths.go:45-79 | a path means a directory or virtual file if and only if it is that file's path |
| Paths.ValidIndexExactly | internal/contract/paths.go:96-113 | which names are index names, byte by byte |
| Paths.TrimIsMiddle | internal/contract/paths.go:46-46 | trimming takes away the separators at both ends and nothing else |
| Listing.ReadIndexDir | internal/vfs/vfs.go:149-168 | the virtual files, then the name of every document delivered before the consumer left, in order, each remembered |
| Listing.StayingGetsAll | internal/vfs/vfs.go:149-168 | a consumer that stays gets all of them |
| Listing.EntriesParse | internal/vfs/vfs.go:149-168 | every entry of a listing parses to the virtual file or document it stands for |
| Listing.ListedNameOpens | internal/vfs/vfs.go:149-194 | every streamed name leads back to the id that was listed |
| Listing.ListedNamesOpenExactly | internal/vfs/vfs.go:149-194 | all of them do if and only if no two listed ids collide |
| Listing.NamesDistinctExactly | internal/vfs/vfs.go:149-168 | a listing has no duplicate name, virtual files included, if and only if no two ids collide |
| Listing.ReverseMapSound | internal/escore/esclient.go:85-104 | the reverse map never gives an id that does not encode to the name asked for |
| Routing.Resolve | internal/routing/routing.go:58-74 | the scope of a path is that of the first root that contains it; none if none does |
| Routing.PrintedPathResolves | internal/routing/routing.go:58-74 | for a mount root other than "/": where a printed path typed back leads, for every id |
| Routing.PrintedPathExactly | internal/cmdshim/grep.go:187-188 | for every clean absolute root: it leads to that root and document if and only if the root is not "/" and the id is not . or .. |
| Routing.TopContainsOnlyItself | internal/routing/routing.go:68-71 | the mount root "/" contains no cleaned path but itself |
| Routing.CleanTwice | internal/routing/routing.go:63-63 | cleaning an absolute path is idempotent |
| Routing.CleanRules | internal/routing/routing.go:63-63 | empty elements and . count for nothing, .. takes away the element before it and at the top nothing |
| Routing.RelativeIsJoined | internal/routing/routing.go:59-63 | a relative path means what working directory, separator and path mean as an absolute one |
| Routing.NoPathIsHere | internal/routing/routing.go:59-63 | an empty path means the working directory |
| Routing.TypedNameResolves | internal/routing/routing.go:58-74 | a name typed in its index directory, or index and name in the mount root, lead to the same document under the same conditions |
| Search.BeyondHit | internal/escore/search.go:84-85 | what lies beyond the sort values of a hit is what follows it |
| Search.Sink.Emit | internal/escore/search.go:127-135 | remembers the name, then offers the hit to a consumer that may be gone |
| Search.StreamPIT | internal/escore/search.go:64-115 | offers the hits of the snapshot in order, once each, up to the limit or the first refusal; a failed request leaves a prefix; the consumer has what it accepted |
| Search.OnePage | internal/escore/search.go:69-115 | one request: the page after the cursor is offered and the cursor moves behind it |
| Search.EmitPage | internal/escore/search.go:104-113 | the inner loop over one page |
| Search.ReachAll | internal/escore/search.go:104-113 | with a consumer that stays, exactly the first limit hits, or all |
| Search.TakenIsPrefix | internal/escore/search.go:104-107 | with one that leaves, a prefix of the snapshot, at most one hit shorter than what was offered |
| Search.SearchAll | internal/escore/search.go:196-218 | the streams of the planned indices one after the other; after a failed request, a prefix of that; the name of every offered hit is remembered |
| Search.SearchComplete | internal/escore/search.go:196-218 | the first limit hits of each index, so limit times the number of indices in all |
| Search.BestKeptExactlyDownwards | internal/escore/search.go:140-142 | a limited ranked search keeps a best hit for all results and limits if and only if scores are sorted downwards, as the comment says |
| Search.BestKeptExactly | internal/escore/search.go:192-192 | sorted as the request asks, it keeps one exactly when the limit reaches the last score |
| SearchPlanning.PlanIndex | internal/escore/search.go:157-180 | one index is planned with what the request leaves open taken from its settings |
| SearchPlanning.PlanSearch | internal/escore/search.go:143-184 | a plan for every index, or the first failure; mode and time field are the last index's |
| SearchPlanning.DefaultsPrecedence | internal/escore/search.go:161-176 | the request wins over the index, the index over the global settings, field by field |
| SearchPlanning.ConfiguredFieldsAreSearched | internal/escore/search.go:171-173 | a lexical search without fields covers exactly those configured for the index |
| SearchPlanning.ConfiguredFieldsAreAsked | internal/escore/search.go:174-176 | a search of open mode asks the semantic fields configured for the index |
| Ordering.SortSorts | internal/escore/query.go:116-116 | sorting gives a sorted permutation |
| Ordering.SortedUnique | internal/escore/query.go:116-116 | there is only one |
| Planner.SemanticTextFields | internal/escore/query.go:109-118 | the sorted names of the semantic text fields |
| Planner.TextFields | internal/escore/types.go:54-62 | the names of the searchable text fields, in enumeration order |
| Planner.LexicalClause | internal/escore/query.go:120-140 | the query over the configured or all text fields, sorted, or over the engine's defaults |
| Planner.PlanTextClause | internal/escore/query.go:71-104 | the text clause and the mode |
| Planner.InferTimeField | internal/escore/query.go:162-179 | the one well-known date field, or an error |
| Planner.PlanQuery | internal/escore/query.go:26-66 | the compiled query, mode and time bound |
| PlannerMeaning.PlanSelects | internal/escore/query.go:26-66 | the query selects exactly the documents that match the text in the resolved fields and the time bound |
| PlannerMeaning.TextClauseSelects | internal/escore/query.go:71-140 | the text clause selects what the text of the request asks for |
| PlannerMeaning.SinceIsWithinASecond | internal/escore/query.go:144-160 | no document new enough is excluded, and none a second or more too old is admitted |
| PlannerMeaning.PlanFailsExactly | internal/escore/query.go:85-93 | planning fails exactly without a demanded semantic field or a usable date field |
| PlannerMeaning.ModeExactly | internal/escore/query.go:71-104 | the mode is semantic if and only if the request leaves it open or demands it and there is a field for it |
| PlannerMeaning.TimeFieldExactly | internal/escore/query.go:144-160 | the time field is the one asked for or the only dated candidate, the bound that of the filter |
| PlannerMeaning.InferredExactly | internal/escore/query.go:162-184 | a time field is inferred if and only if exactly one well-known name is a date |
| PlannerMeaning.PlanIgnoresOrder | internal/escore/query.go:109-140 | the plan is the same for every order in which the field map is enumerated |

## Left out

- Write.Handle.Flush: takes Put to copy the text it is given, where the program passes a slice of the staging buffer that the store and the cache keep; module `Aliasing` says exactly when that sharing changes a kept text.
- Write.Handle.WriteBytes: offsets are unbounded integers; an offset plus length beyond the 64-bit range is not modelled.
- Write.Handle.Value: the buffer is a sequence the methods reassign; spare slice capacity appears in `Aliasing` only.
- Client.ESClient.Put: the server's answer always carries a sequence number; primary terms and version numbers, constant in the fake, are not modelled, and neither is a conditional write on an absent document that a real cluster would refuse (the fake accepts it, and so does the model).
- Client.ESClient.Delete: only the unconditional form that Unlink uses.
- Search.StreamPIT: opening, refreshing and closing the point in time; the deferred close releases the identifier the stream was opened with.
- Listing.ReadIndexDir: the goroutines of List and ReadDirStream run as one loop; a consumer that leaves is a refusal at any hit.
- Routing.Resolve: reading the mount roots from the environment; `filepath.Clean` is its documented lexical rules.
- Planner.PlanQuery: the bound is a number of whole seconds; its RFC 3339 text (section 5.6) is not printed.
- SearchPlanning.PlanSearch: fetching and caching field capabilities; each index comes with the answer it got, and the point-in-time streams that follow are `Search.SearchAll`.
- Search hits are not scored: relevance and semantic inference are arbitrary relations on documents.
- Handles are used by one caller at a time: edits while a flush is in flight are not modelled.
- Nested Go maps (index, then id) are maps keyed by the pair; visible indices, aliases other than the write check, mappings, mget and virtual file contents are not modelled.
- HTTP transport, status mapping, FUSE, the command line, the shims, profiles and sync counters: input, output and text.
