# A verified model of safedep/dry

`safedep/dry` is SafeDep's Go utility library. This project models, in Dafny, the parts of
it whose promises span many steps or many processes, and proves those promises for every
input, every interleaving and every run.

**How concurrency is modelled.** A concurrent protocol is a total function
`Step(state, event)`; an event that is not enabled leaves the state alone, so
`Execute(Init, events)` over *all* event sequences is every interleaving, with crashes and
errors anywhere. The Go methods are then written as sequential Dafny methods of a class
(`LocalDb.Manager`, `SinkBatcher.Batcher`, `S3Writer.Writer`, `StreamReader.Consumer`):
every statement fires one event, after an arbitrary number of events of everybody else. So
each run of a method is one of the executions that the theorems quantify over.

**How failures are modelled.** Whether a system call, a statement or a context fails is a
havoc (`:= *`), so contracts hold whatever fails. Code outside the library (SQLite, S2, the
S3 uploader, GORM, JSON and YAML libraries) appears only through what it promises, listed
under "Left out".

| files | what they model |
|---|---|
| `Migrations`, `MigrationRuns`, `Backoff`, `LocalDb` | several processes migrating one SQLite file, and the manager on top |
| `ErrorBatcher`, `BatcherWaiting`, `SinkBatcher` | the bounded asynchronous error batcher: its steps, its waits and late deliveries, its methods |
| `YamlTree`, `YamlMeaning`, `YamlHeap`, `YamlStyle`, `YamlDocument`, `YamlPrinter` | the YAML merge: value semantics, what it means, the in-place version, flow and block style, whole documents, and a parser and printer that meet the assumptions on them |
| `S3Pipe`, `S3Writer` | the pipe between an S3 writer and its uploader goroutine |
| `Decimal`, `StreamCursor`, `StreamReader` | stream positions, read sessions, crashing consumers |
| `StreamIdentity`, `Routing` | stream identities, scopes, access requests; event names |
| `FileKeychain`, `Profiles` | the crash-safe credential file and the credential profiles |
| `ReadThrough` | the read-through cache over its three adapters |
| `Outcomes`, `Text` | options, results and answers of the world outside; splitting, joining and trimming |

Properties that hold of the code only under a condition are stated with that condition, in
both directions:

- a nil migration run leaves the schema at exactly the caller's version iff no binary in use
  ships a longer list (`MigrationRuns.NilMeansExactVersion`): the newer-schema check runs
  once, before the loop;
- YAML merge is associative iff there is no path where the third tree has a value and the
  first has nothing and blocks nothing, while a prefix of the path is a mapping of the first
  and a scalar of the second (`YamlMeaning.Associativity`, `YamlMeaning.GroupingMatters`);
- the merged YAML tree is aligned iff no empty destination mapping receives keys, because
  those land at column 1 (`YamlMeaning.AlignedMerge`, `YamlMeaning.EmptyMeetMisaligns`);
- the merge of two trees that can be written as YAML can be written iff no block mapping
  moves between braces (`YamlStyle.StyledMerge`, `YamlStyle.BlockBetweenBraces`);
- a consumer never skips a record iff it holds a cursor or starts at the beginning
  (`StreamCursor.NeverSkipsExactly`); with FromTail and nothing persisted it can;
- a parsed event name is reprinted from its parts iff its version has no leading zero
  (`Routing.PrintParsed`), and two accepted names share a stream exactly when they agree up
  to such zeros (`Routing.StreamOfEvent`, `Routing.LeadingZeroCollides`);
- a scope prefix matches exactly the scope's members plus one family of confusions of
  tenants with namespaces (`StreamIdentity.ScopeCovers`,
  `StreamIdentity.TenantMeetsNamespace`);
- a table lookup of the cache is confined to its own key iff no key field is empty
  (`ReadThrough.MatchIsOwn`), and a joined string key iff no field holds a slash
  (`ReadThrough.JoinedIsOwn`);
- once the driver is closed a delivery to it can still follow iff an accepted error was left
  undelivered (`BatcherWaiting.LateAfterClose`), which only a Close that timed out can do
  (`BatcherWaiting.LateNeedsTimeout`) and does (`BatcherWaiting.TimeoutLeavesErrors`);
- Handle, documented as non-blocking, waits for its lock iff a Close stands between its claim
  of the lock and its return (`BatcherWaiting.HandleWaitsExactly`); at its select it never
  waits;
- a Get of the credential file panics iff the member is a JSON null, which the provider
  itself never writes (`FileKeychain.PanicsOnNull`, `FileKeychain.NoNullsAppear`).

A second Close of an S3 writer waits forever (`S3Pipe.SecondCloseBlocks`).

Where code and comments differ the model follows the code: `mergeMappings` is documented as
preserving all destination formatting, but entries that join an empty mapping land at
column 1; `StreamScope` rules speak of segments, but the matcher compares strings; `Sink`
promises a non-blocking Handle (errors/sink.go:67-69), but Handle takes a lock that Close
holds until the driver is closed.

## Model

| member | source | states |
|---|---|---|
| Migrations.StepKeepsInv | localdb/localdb.go:395-550 | every statement, failure or crash of any process keeps the system invariant, and committed versions and applied logs only grow |
| Migrations.StepFrame | localdb/localdb.go:521-550 | a step of one process touches no other process, and nothing that a transaction holder has pending or relies on |
| MigrationRuns.Safety | localdb/localdb.go:395-492 | the invariant holds after every execution of any number of processes |
| MigrationRuns.FileOnlyGrows | localdb/localdb.go:395-492 | from any good state, whatever happens next only extends logs and raises versions |
| MigrationRuns.AppliedExactlyOnce | localdb/localdb.go:395-438 | in every reachable state a schema's applied log is the first `version` entries of each shipped list (and starts with each shorter one): every migration ran once, in order |
| MigrationRuns.StepIsAtomic | localdb/localdb.go:517-550 | the committed file changes only by one statement together with its version bump; errors and crashes leave it alone and give up the lock |
| MigrationRuns.OneWriter | localdb/localdb.go:521-524 | no two processes are inside a transaction at once |
| MigrationRuns.NilMeansApplied | localdb/localdb.go:444-492 | once a run returned nil, its whole list is applied, then and in every later state, even when peers applied entries in between |
| MigrationRuns.OpenMeansFramework | localdb/localdb.go:253-305 | a process that has the file open has its framework list committed, and the tracker is never read before it exists |
| MigrationRuns.SoloCompletes | localdb/localdb.go:409-436 | from the loop head an undisturbed process reaches the end of its list, skipping what peers applied |
| MigrationRuns.RunCanEnd | localdb/localdb.go:409-436 | no deadlock: from every reachable state, whoever holds the lock, a process in its loop can still run to the end and return nil |
| MigrationRuns.NilMeansExactVersion | localdb/localdb.go:397-437 | nil implies "exactly my version" in every interleaving iff no shipped list of the schema is longer |
| MigrationRuns.OpensOnce | localdb/localdb.go:253-256 | a process that has the file open never runs the framework list again |
| Backoff.ClampIsExact | localdb/localdb.go:331-335 | clamping the wrapped 64-bit shift equals clamping the true power of two, for every attempt |
| Backoff.WrappedStaysLarge | localdb/localdb.go:332-335 | a positive wrapped multiple of 2^26 is at least 2^26 |
| Backoff.Delay | localdb/localdb.go:331-335 | the delay is min(2^attempt ms, 50 ms), in nanoseconds, despite the wrap-around |
| LocalDb.NamesExactly | localdb/localdb.go:368-390 | which module names and file names are valid, character by character |
| LocalDb.Manager.constructor | localdb/localdb.go:135-140 | a new manager is closed-up, caches nothing and satisfies the manager invariant |
| LocalDb.Manager.ApplyEntry | localdb/localdb.go:411-430 | the transaction body ends ready to commit or leaves an open transaction to roll back |
| LocalDb.Manager.MigrateOne | localdb/localdb.go:460-486 | one iteration advances the loop by one or fails the run with the lock released |
| LocalDb.Manager.RunMigrations | localdb/localdb.go:444-492 | returns nil only at the end of the whole list, for any activity of other processes; fails only when a database call failed or the schema is newer; a framework run that returned nil makes the process open |
| LocalDb.Manager.BootstrapOnce | localdb/localdb.go:307-320 | nil means the framework run finished; any failure leaves the process resting and not open |
| LocalDb.Manager.EnsureOpen | localdb/localdb.go:253-305 | calls the bootstrap at most eleven times, reports a busy file only after all eleven, keeps one pool when it returns nil and none otherwise, and refuses a newer schema |
| LocalDb.Manager.Store | localdb/localdb.go:142-202 | failures cache nothing and always have a named reason; a cached name gives the same handle for the same list and an error for another; success means the list is applied in the file; closed or invalid managers touch nothing. a schema newer than the list is refused; only a list that may get to run has to be append-only |
| LocalDb.Manager.MigrateAndCache | localdb/localdb.go:180-202 | only a completed module run is cached, under a fresh handle |
| LocalDb.Manager.Close | localdb/localdb.go:209-248 | closed for good, idempotent, nil when already closed or never opened, an error exactly when the checkpoint or the pool failed; nil from an open manager means the log was checkpointed |
| LocalDb.Manager.Serve | localdb/localdb.go:142-248 | over any script of Store and Close calls no Store succeeds after a Close and every handle returned is still the cached one; every call is made, edited or reordered lists under cached names and calls after a Close included, but a Store that might run a list from outside the catalog |
| LocalDb.AllMade | localdb/localdb.go:142-248 | where no call had to be skipped the calls made are the whole script |
| LocalDb.Manager.HandlesAgree | localdb/localdb.go:162-201 | two handles returned for one name are identical, with identical lists, and those lists are applied |
| ErrorBatcher.StepKeepsInv | errors/sink.go:131-237 | every step of any Handle, any Close and the worker keeps the invariant that links lock, flag, cancel, channel and worker |
| ErrorBatcher.Conservation | errors/sink.go:131-158 | accepted = delivered + in hand + buffered, in send order, in every reachable state |
| ErrorBatcher.NothingLost | errors/sink.go:212-237 | whenever the worker has exited, what it delivered is exactly what was accepted, although it may leave by `default: return` |
| ErrorBatcher.ClosedForGood | errors/sink.go:136-157 | once closed, no later execution accepts another error |
| ErrorBatcher.NoPanicNoInterrupt | errors/sink.go:136-195 | no send on a closed channel, no double close, the driver closed at most once, and a Handle that saw `closed` false never sees the context cancelled |
| ErrorBatcher.SelectNeverBlocks | errors/sink.go:148-157 | in every reachable state a Handle at its select can send at once or, when the buffer is full, drop |
| ErrorBatcher.SelectDecides | errors/sink.go:148-157 | in every reachable state a step that ends a Handle at its select either appends its error to the send history or finds the buffer full |
| ErrorBatcher.GracefulClose | errors/sink.go:160-198 | a Close that did not time out returns with everything accepted delivered and nothing in flight |
| BatcherWaiting.LateExactly | errors/sink.go:183-195 | from any good state with the driver closed a late delivery can follow iff an error is in the worker's hands or buffered |
| BatcherWaiting.LateAfterClose | errors/sink.go:183-195 | in every reachable state with the driver closed: some continuation delivers late iff not everything accepted was delivered |
| BatcherWaiting.LateNeedsTimeout | errors/sink.go:183-195 | without a timeout nothing is delivered late and the driver is closed with everything delivered |
| BatcherWaiting.TimeoutLeavesErrors | errors/sink.go:183-195 | for every batch size some execution closes the driver with an accepted error undelivered |
| BatcherWaiting.HandleWaitsExactly | errors/sink.go:136-142 | in every reachable state a waiting Handle can take the read lock iff no Close stands between its claim of the lock and its return, and otherwise waits for exactly one Close |
| BatcherWaiting.WaitedInVain | errors/sink.go:136-142 | a Handle still waiting when a Close has set the flag is never accepted, whatever follows |
| BatcherWaiting.HandleHasToWait | errors/sink.go:136-162 | an execution in which a Handle has to wait |
| BatcherWaiting.WaitCanEnd | errors/sink.go:136-198 | no deadlock: from every reachable state a waiting Handle can still be let in |
| ErrorBatcher.TakesAndDelivers | errors/sink.go:212-221 | a worker that waits in either select takes the oldest buffered error and hands it to the driver, whether a Close has begun or not |
| ErrorBatcher.WorkerDelivers | errors/sink.go:204-237 | from every good state the worker's own steps, at most two for each buffered error and one more, deliver all that was accepted |
| ErrorBatcher.AcceptedGetsDelivered | errors/sink.go:204-237 | the same for every reachable state, without any Close |
| ErrorBatcher.ShutdownTerminates | errors/sink.go:222-237 | after the cancel the worker takes at most 2 * buffered + 3 steps, however other calls interleave |
| ErrorBatcher.WorkerCanMove | errors/sink.go:212-237 | after the cancel a worker that has not exited always has a step that makes progress |
| SinkBatcher.Batcher.Handle | errors/sink.go:131-158 | an accepted error is last in the send history; an error is dropped only after Close or when the buffer was found full; never by the cancelled context |
| SinkBatcher.Batcher.Select | errors/sink.go:148-157 | the select takes exactly one case, with its exact effect on the history |
| SinkBatcher.Batcher.Shutdown | errors/sink.go:171-189 | cancel, close and wait end with the driver still to be closed, with a timeout or without; the timer may also win when the worker is gone |
| SinkBatcher.Batcher.Close | errors/sink.go:160-198 | a Close without timeout returns with all accepted errors delivered, the worker gone and the driver closed once; with a timeout a prefix was delivered |
| SinkBatcher.Batcher.CheckClosed | errors/sink.go:136-169 | the flag decides the outcome, and a Close that passes the check sets it |
| YamlTree.FindIsLast | utils/yaml_merge.go:87-90 | the index map holds the last occurrence of a key |
| YamlTree.PrefixKept | utils/yaml_merge.go:86-111 | destination keys and columns stay in place, whatever the source |
| YamlTree.EntryInMerge | utils/yaml_merge.go:92-110 | what stands under every key of a merge: the destination's entry merged below, the source's entry shifted, or nothing |
| YamlMeaning.KeyOrder | utils/yaml_merge.go:92-103 | result keys are the destination's in order, then the source's missing keys in source order |
| YamlMeaning.UniquePreserved | utils/yaml_merge.go:86-111 | merging trees without repeated keys gives a tree without repeated keys, at every depth |
| YamlMeaning.MergeMeaning | utils/yaml_merge.go:83-111 | under every path: the destination's value if any, nothing below a destination scalar, else the source's value |
| YamlMeaning.ScalarsSurvive | utils/yaml_merge.go:11-12 | every value present in the destination survives any merge |
| YamlMeaning.MergeTwice | utils/yaml_merge.go:86-111 | merging the same source twice equals merging it once, down to order and columns |
| YamlMeaning.Associativity | utils/yaml_merge.go:86-111 | grouping does not matter iff there is no conflict path |
| YamlMeaning.AlignedMerge | utils/yaml_merge.go:93-118 | merging aligned, strictly nested trees gives one iff no empty destination mapping meets a non-empty source mapping |
| YamlMeaning.GroupingMatters | utils/yaml_merge.go:105-109 | three small trees whose two groupings differ |
| YamlMeaning.EmptyMeetMisaligns | utils/yaml_merge.go:96-102 | two aligned trees whose merge is not aligned |
| YamlMeaning.LandsAtColumnOne | utils/yaml_merge.go:113-118 | keys that join a mapping without entries all land at column 1 |
| YamlStyle.StyledMerge | utils/yaml_merge.go:86-118 | for trees that can be written, flow and block style mixed, the merge can be written iff no block mapping moves between braces |
| YamlStyle.BlockBetweenBraces | utils/yaml_merge.go:95-103 | two trees that can be written whose merge cannot |
| YamlHeap.EntryNode.AddColumn | utils/yaml_merge.go:97-100 | the recursive column move changes every key column of the subtree by the difference and nothing else |
| YamlHeap.MappingNode.AddColumnBelow | utils/yaml_merge.go:97-100 | the same for all entries of a mapping |
| YamlHeap.IndexKeys | utils/yaml_merge.go:87-90 | the loop fills exactly the last index of every key |
| YamlHeap.MergeOne | utils/yaml_merge.go:92-110 | one source entry: moved in, merged below or dropped, as the value-level merge says |
| YamlHeap.MoveIn | utils/yaml_merge.go:95-103 | the node itself is appended after its columns moved; ownership passes to the destination |
| YamlHeap.MergeMappings | utils/yaml_merge.go:86-111 | on disjoint trees the in-place merge leaves a valid tree without sharing whose value is the functional merge |
| Text.SpacesExactly | utils/yaml_merge.go:54-60 | which characters a trim takes for white space, one by one |
| YamlDocument.IsEmptyYAML | utils/yaml_merge.go:53-66 | the loop decides the line-by-line predicate |
| YamlDocument.EmptyIsOnlyComments | utils/yaml_merge.go:53-66 | trims and splits together accept exactly what one pass over the characters accepts: white space and comments |
| YamlDocument.Yaml.DocumentMeaning | utils/yaml_merge.go:13-51 | any two texts that stand for mappings merge, and as long as no block mapping moves between braces every branch, shortcuts included, gives a text that stands for the merge of the two mappings |
| YamlDocument.Yaml.MergeYAMLFails | utils/yaml_merge.go:13-46 | exactly when a merge is refused, in terms of what the two texts stand for |
| YamlDocument.Yaml.MergeYAMLTwice | utils/yaml_merge.go:13-51 | under the same condition merging the same text again never changes the tree, and not even the text once the destination was not empty |
| YamlDocument.Yaml.MergeIsWritable | utils/yaml_merge.go:28-50 | the trees of two parsed texts merge to one that can be written iff no block mapping moves between braces |
| YamlPrinter.AssumptionsHold | utils/yaml_merge.go:28-50 | the assumptions on parser and printer can be met together, by a pair that represents every mapping that can be written |
| S3Pipe.Safety | storage/s3.go:154-205 | the invariant between caller, pipe and uploader holds after every interleaving |
| S3Pipe.CloseNilIsDurable | storage/s3.go:191-205 | Close returning nil means the object is stored and is exactly the concatenation of the successful writes, none of them cut short |
| S3Pipe.FailureSurfaces | storage/s3.go:164-177 | an upload failure is what Close returns; nil is returned only after an upload that succeeded |
| S3Pipe.CloseTellsFailure | storage/s3.go:164-205 | a Close that returned gave nil iff no upload returned an error, over every execution |
| S3Pipe.SuccessReachesClose | storage/s3.go:164-205 | once the upload that stored the object returns nil, the waiting Close returns nil |
| S3Pipe.ReadTakes | storage/s3.go:162-169 | each read takes from a pending Write what it has room for, and the last one ends it in full |
| S3Pipe.BlockedWriteReleased | storage/s3.go:171-174 | a Write blocked on the pipe is released, with an error, once the upload is over |
| S3Pipe.CloseCompletes | storage/s3.go:195-205 | from every reachable state the first Close returns within six steps |
| S3Pipe.SecondCloseBlocks | storage/s3.go:164-177 | only one result is ever sent, so a second Close never returns |
| S3Writer.PrefixIsCore | storage/s3.go:207-215 | surrounding slashes never matter: the key is the slash-free-ended core |
| S3Writer.PrefixRejects | storage/s3.go:207-215 | an error iff the key is all slashes; an accepted key is its own prefix |
| S3Writer.Writer.Write | storage/s3.go:187-189 | the call's record is what was taken; it fails only after Close or after the upload ended |
| S3Writer.Writer.Close | storage/s3.go:195-205 | nil only with the object stored and equal to all successful writes; an error is the uploader's own; no return only while no result was sent |
| Decimal.ValueIsDecimal | stream/stream_s2_read.go:141-158 | digits count from 0 and each further place is worth ten times as much |
| Decimal.ParseFormat | stream/stream_s2_read.go:141-158 | parsing a printed number gives it back, within any bound |
| Decimal.FormatOfValue | stream/stream_s2_read.go:141-143 | a digit string is what its value prints as iff it has no leading zero |
| Decimal.StepIsExact | stream/stream_s2_read.go:152-155 | the 64-bit cutoff and the wrap test detect exactly the out-of-range step |
| Decimal.FormatUint | stream/stream_s2_read.go:141-143 | the digit loop prints the decimal form |
| Decimal.ParseUint | stream/stream_s2_read.go:147-158 | the digit loop accepts exactly the non-empty digit strings within range, with their value |
| StreamCursor.StreamRecordFromS2 | stream/stream_s2_read.go:94-115 | the record's body, exactly its header names with the last value of each, its position, and the position one past it, held at the top value |
| StreamCursor.HeaderKept | stream/stream_s2_read.go:95-98 | a header is found under its name unless a later one has the same name |
| StreamCursor.DecodeAccepts | stream/stream_s2_read.go:145-158 | the empty position is 0; besides it exactly the digit strings below 2^64 are accepted, with their value |
| StreamCursor.DecodeEncode | stream/stream_s2_read.go:141-158 | decode(encode(n)) = n for every n below 2^64 |
| StreamCursor.EncodeInjective | stream/stream_s2_read.go:137-143 | distinct sequence numbers have distinct positions |
| StreamCursor.NothingSkipped | stream/stream.go:312-335 | whatever crashes and reopens happen, every data record from the start (0 for the empty position) up to the cursor was handled and the cursor never decreases |
| StreamCursor.DeliveriesFromCursor | stream/stream.go:312-335 | no later delivery lies below the cursor |
| StreamCursor.NoRedelivery | stream/stream_s2_read.go:100-114 | a record whose Next was persisted is never redelivered, below the top sequence number |
| StreamCursor.TopIsRedelivered | stream/stream_s2_read.go:100-107 | the record at the top sequence number is redelivered on reopening |
| StreamCursor.CanCatchUp | stream/stream.go:312-335 | from every reachable state a consumer that reopens can handle every data record from its start on and persist past them all |
| StreamCursor.NeverSkipsExactly | stream/stream_s2_read.go:120-135 | no run loses a record iff the consumer holds a cursor or starts at the beginning |
| StreamReader.Consumer.Next | stream/stream_s2_read.go:63-85 | the next data record with both positions, nothing but command records passed over; or the terminal error with nothing consumed, only when the session stopped or nothing was left, a clean end only when neither session nor context failed |
| StreamReader.Consumer.Connect | stream/stream_s2_read.go:32-61 | a session opens only at a well-formed cursor, exactly there or at the tail, and changes no cursor |
| StreamReader.Consumer.Consume | stream/stream.go:312-335 | any number of sessions that crash anywhere lose nothing from the start on (0 for the empty position), never move the cursor back and never deliver below it |
| StreamIdentity.IDExactly | stream/stream.go:112-132 | when a stream has no ID, and what the ID reads otherwise |
| StreamIdentity.IDCollision | stream/stream.go:112-132 | two IDs are equal exactly when their colon-separated pieces are |
| StreamIdentity.IDInjective | stream/stream.go:112-132 | for colon-free fields the ID determines tenant (if multi-tenant), namespace and name |
| StreamIdentity.ColonsCollide | stream/stream.go:112-132 | with a colon two tenants' streams can share an ID |
| StreamIdentity.S2ScopePrefix | stream/stream_s2_control.go:40-52 | the string built step by step is the closed full segments followed by NamePrefix |
| StreamIdentity.PrefixIsSegmentwise | stream/stream_s2_control.go:31-52 | as a string prefix it matches iff the full segments lead and NamePrefix starts the next segment |
| StreamIdentity.ScopeCovers | stream/stream_s2_control.go:20-52 | exactly which streams a valid scope matches: its members and the tenant/namespace confusions |
| StreamIdentity.ScopeIsMembership | stream/stream.go:55-79 | with tenants and namespaces disjoint the matcher is field-level membership |
| StreamIdentity.TenantMeetsNamespace | stream/stream_s2_control.go:20-52 | where a tenant is named like a namespace, the scope of either matches a stream of the other |
| StreamIdentity.S2StreamMatcher | stream/stream_s2_control.go:20-29 | exact match of the ID without a scope, prefix match with one |
| StreamIdentity.ValidateExactly | stream/stream.go:185-207 | accepted iff a role is named, the expiry is zero or between a minute and a day, and exactly one well-formed target is given |
| StreamIdentity.GrantIsAsRequested | stream/stream.go:42-53 | a validated request always has a matcher, is granted the lifetime asked for (an hour for zero), and covers exactly what it names |
| Routing.ParsePrinted | events/routing.go:49-116 | parsing a printed valid literal gives the same parts |
| Routing.AcceptedShape | events/routing.go:82-129 | what every accepted name looks like, part by part |
| Routing.AcceptedExactly | events/routing.go:82-129 | every name of that look is accepted, with its parts |
| Routing.PrintParsed | events/routing.go:57-116 | an accepted name prints as itself; from its parts alone iff it has no leading zero |
| Routing.NameInjective | events/routing.go:49-51 | Name determines domain, major and message when those are dot-free |
| Routing.StreamOfEvent | stream/stream_events.go:12-17 | accepted colon-free names share a stream exactly when their parsed parts agree; without leading zeros, only when equal |
| Routing.RenderedID | stream/stream_events.go:12-24 | the full ID of a feed, with and without a tenant |
| Routing.TenantFeeds | stream/stream_events.go:19-24 | under non-empty tenants, colons in them included, accepted colon-free names share an ID iff tenant and feed agree, and never with a global feed |
| Routing.PaddedAccepted | events/routing.go:118-129 | a version written with a leading zero is accepted, with the same parts |
| Routing.LeadingZeroCollides | events/routing.go:118-129 | so two different accepted names can render to one stream |
| FileKeychain.LoadedExactly | keychain/file_provider.go:109-125 | a written store reads back; a document without secrets and a missing file are empty; an unparsable one is nothing |
| FileKeychain.FileProvider.ReadStore | keychain/file_provider.go:109-125 | yields the stored document, or that it is missing, and never a value from a file that does not parse |
| FileKeychain.FileProvider.Publish | keychain/file_provider.go:151-168 | write, close, chmod and rename: after any failure or crash the credential file is untouched or completely new |
| FileKeychain.FileProvider.WriteStore | keychain/file_provider.go:127-169 | what any reader sees switches once from the whole old file to the whole new one; a failure leaves the file alone and a temporary file only if its removal failed |
| FileKeychain.FileProvider.Discard | keychain/file_provider.go:144-149 | the deferred cleanup removes the temporary file unless the removal fails |
| FileKeychain.FileProvider.Get | keychain/file_provider.go:46-64 | answers as the stored map does; fails only when a call failed or the file does not parse |
| FileKeychain.FileProvider.Set | keychain/file_provider.go:66-83 | success is the map update in a file for its owner only, failure leaves everything and has a cause, death leaves old or new; an unparsable file is never overwritten and no file stays open |
| FileKeychain.FileProvider.Delete | keychain/file_provider.go:85-103 | success removes the key; a missing key is NotFound and writes nothing |
| FileKeychain.FileProvider.Serve | keychain/file_provider.go:46-103 | any sequence of calls with crashes and restarts is explained by one history of maps |
| FileKeychain.GetReturnsLastSet | keychain/file_provider.go:46-83 | a Get that answers gives the last successful Set, whatever failed in between |
| FileKeychain.DeletedStaysDeleted | keychain/file_provider.go:85-103 | a deleted key is not found until it is set again |
| FileKeychain.PanicsOnNull | keychain/file_provider.go:58-63 | a Get that neither fails nor dies panics iff the member is null |
| FileKeychain.NoNullsAppear | keychain/file_provider.go:66-103 | from a file without nulls no run makes a Get panic |
| Profiles.BuildKeychainConfig | cloud/keychain_options.go:72-81 | plaintext storage is on iff an option asked for it, a keychain is injected iff one was, the profile is never blank, and without options the defaults stand |
| Profiles.LastAppNameWins | cloud/keychain_options.go:28-33 | the last application name decides, else the shared default |
| Profiles.LastPathWins | cloud/keychain_options.go:63-70 | the last fallback path decides, else none |
| Profiles.LastProfileWins | cloud/keychain_options.go:35-45 | the last profile option decides, blank meaning the default |
| Profiles.ProfileNeverBlank | cloud/keychain_options.go:35-81 | the configured profile is never blank |
| Profiles.KeysOf | cloud/keychain_options.go:83-85 | the four keys of a profile, spelled out |
| Profiles.KeyInjective | cloud/keychain_options.go:83-85 | keys are equal iff profile and field are, even when profiles contain slashes |
| Profiles.SlashInFieldCollides | cloud/keychain_options.go:83-85 | with a slash in a field name two profiles would share a key |
| Profiles.ProfilesAreIsolated | cloud/keychain_store.go:49-98 | no operation on one profile, complete or failed halfway, changes what another resolves to |
| Profiles.ResolvesLastKey | cloud/keychain_resolver.go:59-73 | after any run the last saved API key is resolved, with the tenant of the last save of either kind |
| Profiles.ResolvesLastToken | cloud/keychain_resolver.go:75-94 | the same for tokens, with the refresh token saved alongside |
| Profiles.ResolvesMissing | cloud/keychain_store.go:88-98 | with nothing saved since the last Clear, or ever, credentials are missing |
| Profiles.FieldHoldsLastWrite | cloud/keychain_store.go:49-98 | over any run, with calls cut short anywhere, a field holds the last write to it that took effect |
| Profiles.ResolvesLastWrites | cloud/keychain_resolver.go:59-94 | over any such run what resolves is decided by the last write to each field |
| Profiles.KeySavedHalfway | cloud/keychain_store.go:57-64 | after a save that failed between its calls: the new key with the tenant of before, or missing credentials |
| Profiles.TokenSavedHalfway | cloud/keychain_store.go:75-85 | the same for the three calls of a token save |
| Profiles.ClearedHalfway | cloud/keychain_store.go:88-98 | what each point of a failed Clear leaves to resolve |
| Profiles.CredentialStore.SaveAPIKeyCredential | cloud/keychain_store.go:49-65 | nil means both fields written; a failed keychain call leaves a prefix of the writes; refused, with nothing written, iff key or tenant is empty |
| Profiles.CredentialStore.SaveTokenCredential | cloud/keychain_store.go:67-86 | the same for the three token fields; an empty refresh token is accepted |
| Profiles.CredentialStore.Clear | cloud/keychain_store.go:88-98 | nil means all four fields are gone; absent fields are no error |
| Profiles.CredentialResolver.Resolve | cloud/keychain_resolver.go:48-57 | returns what the stored fields determine unless a keychain call failed, and changes nothing |
| Profiles.CredentialResolver.ResolveToken | cloud/keychain_resolver.go:75-94 | only a missing refresh token is tolerated |
| Profiles.Serve | cloud/keychain_store.go:49-98 | stores opened one after another on one keychain play the run that the lemmas are about |
| ReadThrough.MatchIsOwn | cache/mysql.go:133-138 | a table lookup is confined to its own key iff no field is empty |
| ReadThrough.EmptyFieldHitsAnotherRow | cache/mysql.go:133-138 | a key with an empty field finds another key's row |
| ReadThrough.JoinedInjective | cache/memory.go:23-38 | joined keys with slash-free Source and Type are equal only for equal keys |
| ReadThrough.JoinedIsOwn | cache/memory.go:23-38 | against arbitrary keys a joined key is safe iff no field holds a slash |
| ReadThrough.MySqlCache.FindByCacheKey | cache/mysql.go:125-145 | the lowest matching row, or that none matches |
| ReadThrough.MySqlCache.CreateEntry | cache/mysql.go:147-155 | without a fault the insert succeeds iff no row has the key |
| ReadThrough.MySqlCache.Get | cache/mysql.go:110-123 | a value is served only while now <= ExpiresAt; the expired row, and only it, is deleted |
| ReadThrough.MySqlCache.Put | cache/mysql.go:94-108 | inserts the row expiring at now + ttl, or leaves the table alone |
| ReadThrough.MissMakesRoom | cache/mysql.go:110-123 | after a miss without a fault the unique index has room for the key |
| ReadThrough.MemoryCache.Put | cache/memory.go:23-28 | the joined key holds the data, every other key is unchanged |
| ReadThrough.Client.Through | cache/cache.go:51-85 | the function's own result unless the adapter mistakes another key for this one; errors are not cached; without faults a non-empty key ends with a live row |
| ReadThrough.Client.Run | cache/cache.go:51-85 | over any run, with any faults and any passing of time, every result is the function's own unless some earlier key is mistaken for this one |
| ReadThrough.FittingKeysStayApart | cache/cache.go:18-23 | non-empty fields (table) or slash-free Source and Type (map) rule that out |

## Left out

- The database below `localdb` is reduced to a write lock, pending state, commit and rollback. What the statements say, how the connection is configured and how the journal reaches the disk are not modelled, nor is a ROLLBACK that itself fails.
- Migration lists of one schema are assumed to be append-only versions of each other, and module SQL not to touch the tracker, as `localdb/localdb.go:69-73` asks; migration statements are opaque ids.
- LocalDb.Manager.RunMigrations: one method models both migration functions, which are the same loop over two schemas.
- The mutexes of the manager, the file provider and the credential file: methods are called one at a time. Processes that write one credential file at the same time are not modelled; the source guards only within a process.
- LocalDb.Manager.Close: waiting, checkpoint contents and closing of pool connections are reduced to succeeding or failing.
- The worker loop of the batcher appears as events only, because the loop itself need not end; CloseTimeout is a step that may happen at any time while a Close waits.
- SinkBatcher.Batcher.Handle: the metadata functions and log lines are not modelled; the driver's errors are logged by the source and dropped here. The error that Close returns when the driver fails to close is not modelled. After a Close returns, Go admits the waiting readers before the next writer; the model admits either.
- Parsing and printing of YAML and JSON: `YamlDocument.Yaml` takes the parser and the printer as parameters. It assumes that the parser yields only mappings without repeated keys that YAML can be written for, and that a parsed file given such a mapping as its root prints to a text that parses back to the same tree, at whatever columns, and prints as itself from then on. Column moves inside sequences and anchors are not modelled.
- YamlDocument.Yaml.DocumentMeaning: says what is printed only when no block mapping moves between braces; `YamlStyle.StyledMerge` shows that otherwise the merged tree is one that YAML cannot be written for, and what the library prints for it is not modelled.
- YamlDocument.Yaml.MergeYAMLTwice: the same.
- YamlHeap.MergeMappings: takes ghost shapes of the two trees, which say that the trees are disjoint and without sharing, as trees fresh from the parser are.
- S3Pipe: one goroutine writes and closes; two goroutines that write concurrently are not modelled. Upload is trusted to return nil only after reading to the end and storing what it read; retries and multipart details are not modelled.
- S2: reads are trusted to yield data records in ascending order from the start position; trimming, retention and a start position beyond the tail are not modelled. A session that waits for records is represented by its eventual record or stop.
- FileKeychain: a crash is a process crash. The source does not sync to disk, so loss of power is not modelled. Writing a document of strings never fails to marshal.
- Profiles: nil secrets, Close and the choice between OS keychain and file are not modelled; the keychain is a map whose failed calls change nothing.
- Profiles.ResolvesLastKey: stated for complete operations on the profile itself; `Profiles.ResolvesLastWrites` covers operations that stop halfway.
- ReadThrough: the cached function is pure per key and serialization round-trips; column collation and length limits of MySQL, nil keys and concurrent callers are not modelled. Failed statements are taken to change nothing.
- The packages that talk to registries, models, gateways, databases, message brokers or a terminal (packageregistry, aiservices, apiguard, adapters, obs, db, tui, sandbox, async): what they promise is up to the service at the other end.
- semver/constraint.go picks a version from a constraint and config/encoder.go converts configuration values: neither meets a component modelled here.
- retry repeats a call, usefulerror and the log helpers attach text to errors, cvss maps a score to a label: none keeps state between calls.
