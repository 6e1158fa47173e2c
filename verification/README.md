# Verified model of the filesystem adapters

A Dafny model of a Go library that puts one filesystem interface over memory, local directories,
SFTP, FTP and S3. It models the parts where behaviour spans several calls, goroutines or representations, and
proves what holds for every input, every interleaving and every run. `dafny verify dfyconfig.toml` checks it all.

What is modelled, module by module:

- `Paths`, `Text`: logical paths, their normal form and their algebra.
- `Memory`, `MemoryAdapter`, `MemoryLaws`, `Listing`, `Sorting`: the in-memory store as a specification on maps, the
  adapter as a class proved against it, with shared buffers, snapshots and the listing loop, and the laws between
  its calls, stated on answers alone.
- `Decorator`: the prefix decorator, bisimilar to a store on the stripped keys, also nested.
- `IOFS`: the io/fs view, a coherent directory tree derived from flat keys.
- `LocalPublication`: temporary file, Link, Rename and Remove steps of any number of writers, movers, deleters and readers.
- `StreamWriter`: producers, consumer, cancellation and Close around a rendezvous pipe, ending in a memory Write.
- `Sessions`: the reconnecting session managers of SFTP and FTP, with late dials.
- `FtpLocks`, `FtpAborts`: the goroutines of the FTP adapter with its two mutexes, its session field and the done
  channels of its streams. Each operation is a small program; a static discipline on programs is proved sound for
  every interleaving, every operation is proved disciplined, and whom an Abort meets is stated exactly.
- `FtpTransfer`: the goroutine behind an FTP read stream, with its one replay.
- `RemoteListing`: the breadth-first listing of a remote tree, against the tree cut into levels.
- `RenameBuffer`, `S3`, `Redact`, `Streams`: the Windows rename record, S3 keys, pages and ranges, error
  sanitizing, and readers with a byte cursor.

Concurrent parts are transition systems: a state, labels, when a label is enabled and what it does. Theorems about
runs quantify over every sequence of enabled labels. Code that mutates objects is a class or a method with a loop,
proved against functions and predicates on values. What the code takes from outside (the network, the clock,
random names, the reader's pace, how much a reader hands out, map iteration order) is a parameter or an arbitrary choice.

Where a property one might expect fails, the exact condition is proved instead: stripping and rejoining paths
(`ExternalSegments`, `DirJoinBase`), listings of colliding keys (`ListingDeterminedIff`), panics
(`RootListingPanicsIff`, `Directory.ReadDir`), errors after publication (`ErrorPublishedIff`), S3 keys
(`KeyOfLogicalPath`), surviving secrets (`SecretSurvivesIff`), a bare end-of-file in an FTP transfer (`Transfer`) and
aborts that hit another operation (`AbortHitsAnotherIff`).

## Model

| member | source | states |
|---|---|---|
| Paths.ParsePath | path.go:45-78 | the loop computes the parsing function: same accepted texts, same normal form, same refusals |
| Paths.AcceptedTexts | path.go:45-78 | a text parses to p if and only if p is normal, the pieces of the text, backslashes taken as slashes, are p's segments with empty pieces and dots inserted anywhere, and the text starts neither with two backslashes nor with a drive letter; every other text is refused |
| Paths.ParseYieldsNormal | path.go:45-78 | a parsed path has at least one segment, none of them empty, dot, dot-dot or holding a slash, backslash or control character, no drive letter in front, and its segments are exactly the significant pieces of the text |
| Paths.ParseNormal | path.go:45-78 | a normal form parses to itself, so parsing is idempotent and every normal form is reached |
| Paths.FromSegmentsSegments | path.go:45-78 | normal segment lists and normal paths are in bijection |
| Paths.JoinConcatenates | path.go:117-127 | Join succeeds if and only if its argument parses, and then concatenates segments |
| Paths.JoinAssociative | path.go:117-127 | Join is associative wherever its arguments parse |
| Paths.LeadingIsNormal | path.go:45-88 | leading segments of a normal path are a normal path, so parsing them cannot fail |
| Paths.TrailingParses | path.go:133-137 | trailing segments parse if and only if they do not begin with a drive letter |
| Paths.DirBaseSegments | path.go:101-114 | Dir drops the last segment and Base is that segment |
| Paths.DirJoinBase | path.go:101-127 | joining Dir and Base restores the path if and only if Base has no drive form |
| Paths.DriveTailExample | path.go:133-137 | a/C:/x is normal although its tail C:/x does not parse |
| Paths.DriveBaseExample | path.go:101-127 | for a/C: the join of Dir and Base is refused |
| Listing.SortEntriesSorts | memory/memory.go:258-260 | sorting entries by path orders them and loses, adds and duplicates nothing |
| Listing.EntryIterator.Next | memory/memory.go:409-424 | the iterator hands out its snapshot one by one, in order, until it is closed or used up |
| Listing.EntryIterator.Close | memory/memory.go:435-438 | closing ends the iteration |
| LocalPublication.InvariantStep | local/local.go:252-509 | every step of any Write, Move, Delete or reader keeps the publication invariant, in every interleaving |
| LocalPublication.NamesHoldWholeSources | local/local.go:275-323 | in every run a client-visible name is bound only to a closed file holding one Write's whole source |
| LocalPublication.WriteIsAsBegun | local/local.go:252-274 | destination, mode and source of a Write are those of the call that began it |
| LocalPublication.PublishedIsFrozen | local/local.go:275-323 | a published file keeps its content for the rest of the run |
| LocalPublication.ReadsAreNeverMixed | local/local.go:207-219 | a reader holds a prefix of one Write's source, and all of it at the end |
| LocalPublication.ReaderGetsItsFile | local/local.go:207-219 | a reader has the file its name was bound to when it was opened, and exactly as many of its bytes as it asked for |
| LocalPublication.PublishedIffBound | local/local.go:304-316 | in every run a Write counts as published if and only if one of its own steps, the Link of a create-only Write on an unbound name or the Rename of an overwriting one, has left the destination bound to its file |
| LocalPublication.TemporariesDoNotLeak | local/local.go:282-318 | if no cleanup Remove fails, every temporary name belongs to a Write still running, so none is left when all have returned |
| LocalPublication.SuccessLinearizes | local/local.go:304-316 | a Write that succeeds took effect at a step of its own that bound the destination to its file: a Link that found it unbound, or a Rename |
| LocalPublication.ConflictLinearizes | local/local.go:262-321 | in every run a Write is returning PreconditionFailed if and only if its precheck or its Link found the destination bound, and then nothing was published |
| LocalPublication.BindingIsStable | local/local.go:304-321 | a name keeps its binding while nothing deletes, replaces or moves it |
| LocalPublication.AtMostOneClaim | local/local.go:304-504 | of any number of creators and exclusive movers on an undisturbed name at most one wins in the whole run |
| LocalPublication.MoveReturnsIff | local/local.go:474-509 | in every run a Move, exclusive or overwriting, has returned a result if and only if one of its steps found what calls for it: nil if the rename found the source bound and, unless it may overwrite, the destination unbound; NotFound, AlreadyExists or a failure otherwise |
| LocalPublication.MoveEndsOnce | local/local.go:474-509 | exactly one step of a Move ends it |
| LocalPublication.SuccessfulMoveMoves | local/local.go:497-508 | the step of a Move that returned nil bound the destination to the file the source was bound to, unbound the source unless both names already held that file, and left every other binding as it was |
| LocalPublication.MoveIsAsBegun | local/local.go:474-482 | source, destination and mode of a Move are those of the call that began it |
| LocalPublication.ExclusiveMoveConserves | local/local.go:484-504 | an exclusive rename moves exactly the current source binding to an absent destination and keeps every other binding and every file |
| LocalPublication.FailedMoveChangesNothing | local/local.go:484-504 | a Move that returns an error changed no binding at any of its steps |
| LocalPublication.FilesStayVisible | local/local.go:474-509 | in a run without deletion or replacement no visible file loses its last name |
| LocalPublication.BindingHistory | local/local.go:252-509 | in every run a name is bound to what the last step deciding it set: a Write's Link or Rename, a successful Move onto or away from it, or a Delete; undecided names are unbound |
| LocalPublication.ErrorPublishedIff | local/local.go:282-323 | in every run a Write that is returning an error has bound its destination to its file if and only if it failed behind that step: removing the linked temporary, or the final Stat |
| LocalPublication.ErrorAfterPublication | local/local.go:304-322 | such a state is reachable, for every path and source, create-only or overwriting |
| StreamWriter.InvariantStep | internal/streamwriter/writer.go:28-63 | every step of producers, closers, cancellation, callback and consumer keeps the invariant |
| StreamWriter.CloseReportsPublication | internal/streamwriter/writer.go:57-63 | in every run Close returns nil if and only if the object was published with exactly the bytes the pipe accepted; then the writer changed the store in one step, storing them, and otherwise in none; all Closes return the same result |
| StreamWriter.CloseReturnsIff | internal/streamwriter/writer.go:28-63 | in every run a Close that has returned returned a result if and only if a step of the consumer called for it: the refusal of the path, of the visibility or of the commit, Canceled after a cancellation it met, or nil |
| StreamWriter.StoreFollowsPublication | memory/memory.go:137-186 | in every run the writer has left the store alone until it publishes, and then changed it in exactly one step, which stores all accepted bytes under the path |
| StreamWriter.CommitStoresAccepted | memory/memory.go:137-186 | the step that publishes stores the accepted bytes under the requested path, changes no other key, and respects IfNoneMatch |
| StreamWriter.UnclosedPublishesNothing | internal/streamwriter/writer.go:28-63 | a writer never closed publishes nothing, has changed nothing in the store, and its consumer sees no end of input |
| StreamWriter.CanceledPublishesNothing | internal/streamwriter/writer.go:28-43 | once cancelled before the commit check, nothing is published and nothing in the store changed by the writer in the whole run |
| StreamWriter.CleanEndNeedsClose | internal/streamwriter/writer.go:28-43 | the consumer sees a clean end only after a Close; cancellation reaches it as an error |
| StreamWriter.WritesReportWhatWasTaken | internal/streamwriter/writer.go:45-51 | a Write that returned reports exactly the bytes taken from it, also when it failed |
| StreamWriter.WriteReturnsIff | internal/streamwriter/writer.go:45-51 | in every run a Write has returned without an error if and only if its last byte was taken, and with an error if and only if it met a closed pipe: Canceled once cancelled, else the consumer's error or a closed pipe |
| StreamWriter.NeverStuck | internal/streamwriter/writer.go:28-63 | in every reachable state where a Write or Close has not returned, or the closed pipe or the callback has work left, a call already made, the consumer or the callback has a step |
| StreamWriter.StepsUseUpWork | internal/streamwriter/writer.go:28-63 | every such step uses up unsent bytes, open calls or consumer phases, so no schedule blocks or runs forever |
| StreamWriter.EveryCallReturns | internal/streamwriter/writer.go:28-63 | from every reachable state, without new calls, all Writes and Closes return, and a closed pipe leaves neither its reader nor a writer waiting |
| StreamWriter.PublicationHappens | internal/streamwriter/writer.go:28-63 | for every accepted path, store and data there is a run in which Close returns nil and the object holds the data |
| Memory.EffectKeepsKeysValid | memory/memory.go:137-386 | every operation keeps all stored keys valid paths or Root |
| Memory.FullListingPaths | memory/memory.go:219-265 | two listings of one store agree on their paths and order, whatever the map iteration order |
| Memory.ListingsAreOrders | memory/memory.go:232-265 | the specified full listings are exactly what the iteration orders of the object map collect: every order gives one, and every one is given by an order |
| Memory.AnswersAreOrders | memory/memory.go:219-265 | the pages List may answer with are exactly the cut listings of some iteration order |
| Memory.ListingDeterminedIff | memory/memory.go:219-265 | every iteration order lists the same entries if and only if the listing is recursive or no listed key is also an ancestor |
| Memory.AmbiguousEntry | memory/memory.go:236-252 | for a colliding key another iteration order lists the same paths with that one the other way, as the directory or as the file |
| Memory.CollisionExample | memory/memory.go:236-252 | with keys like a and a/b the entry a is a directory or a file, whichever key is visited last |
| MemoryAdapter.Collect | memory/memory.go:230-254 | the pass over the object map computes the collection of some iteration order, and panics exactly when the listing does |
| MemoryLaws.AnswersFit | memory/memory.go:93-217 | Open, Stat and Visibility answer about one object: its bytes, their number and one visibility; or all three answer NotFound |
| MemoryLaws.RangeIsSlice | memory/memory.go:110-135 | a range is that slice of what Open answers, cut at the end of the object, and refused exactly when it is empty or starts outside |
| MemoryLaws.WriteThenRead | memory/memory.go:137-173 | after a Write, Open answers the bytes written and Stat the content type, metadata, time and visibility given, Private if none was; no other path answers differently; the refusals are stated by what exists |
| MemoryLaws.DeleteThenRead | memory/memory.go:189-201 | after a Delete the path answers NotFound and every other path as before |
| MemoryLaws.CopyThenRead | memory/memory.go:268-290 | after a Copy the destination answers what the source answered, apart from path and time, and every other path, the source included, as before; refused if and only if the source is missing or the destination is there and may not be overwritten |
| MemoryLaws.MoveThenRead | memory/memory.go:292-314 | after a Move the destination answers what the source answered, the source answers NotFound, and every other path as before; a Move onto itself changes no answer |
| MemoryLaws.SetMetadataThenRead | memory/memory.go:316-330 | only metadata and time of the one path are answered differently |
| MemoryLaws.SetVisibilityThenRead | memory/memory.go:368-388 | only visibility and time of the one path are answered differently; unset means Private |
| MemoryLaws.CanceledAnswers | memory/memory.go:93-388 | with a cancelled context every operation answers Canceled, unless its arguments are refused before the context is looked at |
| MemoryLaws.RefusedChangesNothing | memory/memory.go:93-388 | after a refused operation every path answers as before |
| MemoryLaws.EntriesAgreeWithStat | memory/memory.go:232-254 | a listed file has the size and time that Stat answers for its path, and a listed directory has something stored below it |
| MemoryLaws.StoredIsListed | memory/memory.go:232-265 | every stored path below the directory is listed, or in a shallow listing the child it is below |
| MemoryLaws.PageLength | memory/memory.go:258-265 | a limited listing is the beginning of the unlimited one, exactly as long as asked for while there are entries; zero means all |
| Memory.ListedNameParses | memory/memory.go:241-246 | the name listed for a stored normal key parses, so the panicking parser is safe on it |
| Memory.ListPanicsIff | memory/memory.go:241-246 | List panics if and only if Root is listed while an object is stored at Root |
| Memory.RootOccupiedIff | memory/memory.go:268-313 | over any requests an object is at Root if and only if a Copy or Move onto Root succeeded and nothing removed it since |
| Memory.RootListingPanicsIff | memory/memory.go:241-313 | over any requests listing Root panics if and only if such an object is there |
| Memory.RootPanicHappens | memory/memory.go:241-313 | a Write and a Copy or Move onto Root, on an empty store, bring the panic about, for every path and content |
| MemoryAdapter.Adapter.Open | memory/memory.go:93-105 | answers as the store says, with the stored bytes, and changes nothing |
| MemoryAdapter.Adapter.OpenRange | memory/memory.go:110-131 | answers with the part of the stored bytes the range selects, or the error for a bad range, and changes nothing |
| MemoryAdapter.Adapter.Write | memory/memory.go:137-171 | the new store is the effect of the operation on the old one, and the answer is the specified one, with the refusals in the order of the checks |
| MemoryAdapter.Adapter.Delete | memory/memory.go:189-200 | removes exactly the key, or reports its absence |
| MemoryAdapter.Adapter.Stat | memory/memory.go:203-214 | reports the stored metadata and changes nothing |
| MemoryAdapter.Adapter.Copy | memory/memory.go:268-287 | the destination gets the source's object; overwrite and missing-source refusals change nothing |
| MemoryAdapter.Adapter.Move | memory/memory.go:292-313 | the source's object is re-keyed; a move onto itself and refusals as specified |
| MemoryAdapter.Adapter.SetMetadata | memory/memory.go:316-330 | replaces the metadata of one key only |
| MemoryAdapter.Adapter.SetVisibility | memory/memory.go:368-386 | replaces the visibility of one key only, after normalizing it |
| MemoryAdapter.Adapter.List | memory/memory.go:219-265 | returns the sorted first limit of the direct-child or descendant set, or the specified error or panic |
| MemoryAdapter.RangeReader.Read | memory/memory.go:107-131 | a range reader delivers the next bytes of the slice it shares, and its end exactly there |
| MemoryAdapter.RangeSurvives | memory/memory.go:107-131 | a range reader, used in any interleaving with operations on the adapter, hands out exactly the bytes the range had when it was opened |
| MemoryAdapter.ListingSurvives | memory/memory.go:219-265 | an iterator, used in any interleaving with operations on the adapter, yields exactly a listing of the store it was opened on |
| Decorator.InternalAppends | decorator/decorator.go:408-416 | prefixing never panics and appends segments |
| Decorator.ExternalSegments | decorator/decorator.go:451-463 | stripping drops the prefix's segments, and fails if and only if the path is not below the prefix or what remains begins with a drive letter |
| Decorator.DriveBelowPrefixExample | decorator/decorator.go:451-463 | a/C:/x does not strip under the prefix a |
| Decorator.ExternalInternal | decorator/decorator.go:408-463 | stripping undoes prefixing |
| Decorator.EffectCommutes | decorator/decorator.go:211-402 | an operation through the prefix changes the backend as it changes the stripped map |
| Decorator.OutsideUntouched | decorator/decorator.go:211-402 | no operation touches a key outside the prefix |
| Decorator.ListAnswersCommute | decorator/decorator.go:269-279 | a listing through the prefix has the same possible answers as a listing of the stripped map: entries, order, limit and errors |
| Decorator.OtherAnswersCommute | decorator/decorator.go:211-402 | every other operation answers as on the stripped map |
| Decorator.PrefixBisimulation | decorator/decorator.go:211-463 | memory behind a prefix and memory on the stripped map are bisimilar step by step |
| Decorator.BisimilarRuns | decorator/decorator.go:211-463 | over every request sequence the two stay related, give the same answers, and keys outside the prefix stay as they were |
| Decorator.RootObjectDiverges | decorator/decorator.go:269-279 | the one exception: with an object stored at the prefix itself only the undecorated Root listing panics |
| Decorator.InternalNested | decorator/decorator.go:408-416 | prefixing twice is prefixing with the joined prefix |
| Decorator.ExternalNested | decorator/decorator.go:451-463 | stripping twice is stripping the joined prefix, errors included |
| Decorator.NestedPrefixes | decorator/decorator.go:211-463 | a decorator over a decorator over memory has the same effect and the same answers as the single decorator with the joined prefix, for every operation |
| Decorator.PrefixIterator.Next | decorator/decorator.go:425-438 | each call yields the next stripped entry, and stops for good at the first entry that cannot be stripped, reporting its error |
| IOFS.NamesArePaths | iofs.go:233-245 | accepted names are exactly the names of valid paths |
| IOFS.DirectoriesAreAncestors | iofs.go:100-125 | Stat reports as directories exactly Root and the proper ancestors of stored keys, and as files exactly the stored keys |
| IOFS.EntriesReopen | iofs.go:127-154 | every directory entry re-opens by its name with the kind, size and time the entry shows |
| IOFS.StatableIsListed | iofs.go:100-154 | every name Stat accepts is listed in its parent, which is a directory |
| IOFS.NamesFollowPaths | iofs.go:127-154 | sorting entries by name after listing by path changes nothing, for every valid store |
| IOFS.ProbeFindsDescendants | iofs.go:100-125 | a listing of one entry is non-empty if and only if the path has a descendant |
| IOFS.Metadata | iofs.go:100-125 | the probing code computes what the store says about the path, for every valid store |
| IOFS.Stat | iofs.go:68-78 | Stat by name is the metadata of the named path, or the refusal of the name |
| IOFS.DirectoryEntries | iofs.go:127-154 | the collected entries are a whole listing, each once, sorted by name; only listing Root with an object at Root panics |
| IOFS.ReadDir | iofs.go:81-98 | the whole sorted listing of a directory, the error of a name that is invalid, absent or a file, or the panic of listing Root, exactly as the store says |
| IOFS.Directory.ReadDir | iofs.go:189-205 | a page is the next part of what is unread; end, closed and panic occur exactly when stated, the panic when offset plus count leaves the integer range |
| IOFS.ReadPages | iofs.go:189-205 | any page sizes concatenate to the whole listing, unless a page overflows the offset, and exactly then it panics |
| IOFS.OverflowExample | iofs.go:189-205 | two entries read with page sizes 1 and the largest integer: the second page is the one that overflows |
| Sessions.InvariantStep | sftp/sftp.go:591-639 | every step of concurrent calls, dials and Close keeps the session ledger in balance |
| Sessions.SessionsAreConserved | sftp/sftp.go:257-270 | over every run each session ever dialed is current, or quit exactly once, or still in a dial's hands, and these exclude each other |
| Sessions.QuitReasons | sftp/sftp.go:632-639 | in every run a session has been quit if and only if one of three steps has happened to it: Close while it was current, the invalidate of a call that lost that very session, or the drain of its abandoned dial; and only one such step ever does |
| Sessions.LostSessionIsQuitIff | ftp/ftp.go:616-623 | in every run a call that lost a session was handed it as the current one, and its invalidate quits it if and only if it has been current ever since; otherwise nothing changes, so a newer session is never quit |
| Sessions.ClosedForever | ftp/ftp.go:277-293 | once closed the adapter stays closed and never has a session again |
| Sessions.LateSessionsAreQuit | ftp/ftp.go:902-938 | a dial result that comes after cancellation is still undelivered or has been quit |
| Sessions.OperatesAtMost | sftp/sftp.go:611-630 | in every run a call operates at most once, and once more after one invalidate; a call begun without retry never invalidates and never operates again |
| Sessions.AfterOperation | sftp/sftp.go:611-630 | in every run an operation that is not its call's last step was the first one of a retrying call and lost its connection, and the next step of that call is its invalidate |
| Sessions.SecondOperation | ftp/ftp.go:573-594 | a second operation needs a first one of a retrying call that lost its connection, and an invalidate between them |
| Sessions.CallReturnsIff | ftp/ftp.go:573-614 | in every run a call has returned a result if and only if one of its steps called for it: its operation succeeded, failed without being retried, or no session was to be had |
| Sessions.ResultFromOneSession | sftp/sftp.go:611-630 | a call that succeeds on its second attempt used a session other than the one it lost, which has been quit |
| Sessions.MutexHasOneOwner | ftp/ftp.go:596-614 | the session mutex is held by exactly the call inside currentSession |
| Sessions.ReconnectHappens | ftp/ftp.go:573-594 | a run in which a call loses its session, reconnects and succeeds |
| Sessions.LateDialHappens | ftp/ftp.go:902-938 | a run in which a dial finishes after its caller gave up and its session is quit |
| FtpLocks.OperationsAreDisciplined | ftp/ftp.go:277-378 | every path of Open, Write, Stat, List, Delete, Close and stream Close locks in order, unlocks only what it owns and ends owning nothing, opMu being handed to the transfer goroutine; touches the session field only under mu, replaces it only under both mutexes, and works only on the session found or dialed there |
| FtpLocks.StatInsideWriteIsRefused | ftp/ftp.go:358-378 | calling Stat before Write has unlocked would break the discipline |
| FtpLocks.InvariantStep | ftp/ftp.go:566-632 | every step of any number of goroutines keeps ownership, session and program in agreement |
| FtpLocks.ReleasedOnceByItsOwner | ftp/ftp.go:277-326 | over every run each mutex alternates between one acquisition and one release by its current owner, handovers included |
| FtpLocks.NextStepIsLegal | ftp/ftp.go:566-632 | whoever unlocks owns the mutex, whoever locks opMu owns nothing, whoever locks mu owns at most opMu, and whoever waits for a stream to be done owns nothing |
| FtpLocks.FinishedOwnNothing | ftp/ftp.go:690-709 | a mutex is never owned by a finished goroutine |
| FtpLocks.WaitsOnlyUpwards | ftp/ftp.go:277-293 | the holder of mu waits for nothing and the holder of opMu at most for mu, so there is no cycle of waits |
| FtpLocks.TransferOwnsOpMu | ftp/ftp.go:690-709 | the transfer of a stream owns opMu exactly until it ends |
| FtpLocks.NeverStuck | ftp/ftp.go:277-326 | in every reachable state with work left some goroutine can take a step, waits for a stream's done channel included |
| FtpLocks.StepsUseUpWork | ftp/ftp.go:566-632 | every step uses up work, so no schedule runs forever without new calls |
| FtpLocks.EveryRunCanFinish | ftp/ftp.go:277-326 | from every reachable state all calls can finish, and then both mutexes are free |
| FtpAborts.WorkIsExclusive | ftp/ftp.go:573-593 | in every run only the owner of opMu is at work on a session, and on the one in the field |
| FtpAborts.AbortHitsAnotherIff | ftp/ftp.go:625-632 | an Abort by a stream's Close or cancellation is of a session read from the field before; it meets another goroutine than the stream's transfer at work on it if and only if the transfer has ended, the session was not replaced since it was read, and the owner of opMu is at work; until the transfer has ended it can meet nobody else |
| FtpAborts.AbortHitsAnotherHappens | ftp/ftp.go:729-736 | from every idle open adapter there is a run in which the late Close of a stream aborts a Stat |
| FtpAborts.AbortMissesHappens | ftp/ftp.go:625-632 | and one in which the session is replaced between read and Abort, so that the Abort meets nobody although another operation is at work |
| FtpTransfer.CountingWriter.Write | ftp/ftp.go:738-747 | takes what the reader still accepts, and remembers whether any byte was delivered |
| FtpTransfer.ClassOfErrors | ftp/ftp.go:999-1009 | wrapping does not hide a lost transport, exactly the transient reply codes 421, 425 and 426 mean one, and of two joined errors the second counts unless it is only such a code behind another reply code |
| FtpTransfer.PlainErrors | ftp/ftp.go:999-1009 | the four transport sentinels and the codes 421, 425 and 426 mean a lost connection, and no other plain error does |
| FtpTransfer.Retrieve | ftp/ftp.go:690-692 | whatever the chunks, the reader gets the longest part of the output it accepts |
| FtpTransfer.Transfer | ftp/ftp.go:690-709 | at most two Retrieves, the second exactly after a transport failure with nothing delivered and a live context; delivered bytes are a prefix of one attempt's output; the exact condition for a clean end |
| FtpTransfer.ReadAll | ftp/ftp.go:690-747 | a clean end gives the whole output of one successful Retrieve with the context live, unless a failing Retrieve returns a bare end-of-file |
| FtpTransfer.BareEndLooksComplete | ftp/ftp.go:703-706 | a failing Retrieve that returns a bare end-of-file looks like a complete file |
| RemoteListing.QueueIsLevelOrder | ftp/ftp.go:482-518 | the first-in first-out queue visits the tree level by level |
| RemoteListing.SortByNameSorts | ftp/ftp.go:494-496 | children are visited by name, each once |
| RemoteListing.Visit | ftp/ftp.go:494-517 | one directory: children by name until one is bad or the limit is reached |
| RemoteListing.List | ftp/ftp.go:476-521 | terminates with exactly the first limit items in level order as sorted entries, or with the error of the first bad item among them |
| RemoteListing.ListReconnecting | ftp/ftp.go:573-594 | with one reconnect the result is one session's listing from start to end, never a mixture |
| RemoteListing.ListingIsSorted | sftp/sftp.go:449-492 | entries are strictly sorted, so without duplicates, at most limit, and all beneath the listed directory |
| RemoteListing.LevelOrderIsOrderly | sftp/sftp.go:455-489 | no path twice and none before a shallower one, also in a listing cut at the limit |
| RemoteListing.ListingIsComplete | sftp/sftp.go:449-492 | a listing below its limit has an entry exactly where the tree has a node, at any depth or one level down |
| RemoteListing.EntriesDescribeNodes | ftp/ftp.go:473-520 | every entry, of a cut-off listing too, is for a node of the tree at that path, no link: a directory or a file as the node is, with its size and time |
| RemoteListing.ErrorsHaveCauses | ftp/ftp.go:473-520 | a failed listing reports its first bad item: Unsupported for a link, InvalidPath for a name that is no path, or the error of listing a directory of the tree |
| RenameBuffer.PutNumber | local/rename_information.go:49-56 | little-endian bytes read back as the number, other bytes untouched |
| RenameBuffer.PutName | local/rename_information.go:57-59 | the code units read back as written, other bytes untouched |
| RenameBuffer.RecordSize | local/rename_information.go:44-47 | the size is the round-up to the pointer alignment, 532 or 544 |
| RenameBuffer.Marshal | local/rename_information.go:34-60 | nil exactly for the refused inputs; otherwise the record decodes to the handle and name, with every other byte zero |
| S3.KeyRoundTrip | s3/s3.go:499-519 | every object path comes back from its key and every directory from its common prefix, and Root never does |
| S3.KeyOfLogicalPath | s3/s3.go:506-519 | a key is its logical path's own key if and only if what follows the prefix has no backslash and no empty or dot piece |
| S3.DoubledSlashExample | s3/s3.go:506-519 | tenant//a is listed as a, whose key is tenant/a |
| S3.TakeRows | s3/s3.go:374-400 | rows become entries in order, invalid keys skipped, up to the limit |
| S3.RowsInOrder | s3/s3.go:370-398 | rows are shown one after the other: a row with a logical path as a file with its size and time, or as a directory for a common prefix, and any other row not at all |
| S3.QueryCoversDirectory | s3/s3.go:349-363 | the requested key prefix is that of exactly the paths strictly below the listed directory |
| S3.List | s3/s3.go:344-404 | every request has that prefix, the delimiter of its mode, the token of the response before it and what is missing as size, in 1..1000; requests go on exactly while pages have more and the limit is not reached; the result is the sorted first limit entries shown, or the service's error |
| S3.EntriesAreRows | s3/s3.go:344-404 | every entry of a listing is what some row of some response says |
| S3.NothingIsDropped | s3/s3.go:656-666 | a service that keeps to the requested page sizes never sends an entry that is cut off |
| S3.RangeEndIsExact | s3/s3.go:630-639 | accepted ranges are exactly the non-empty ones whose positions fit 64 bits, the same as for SFTP, and the end is offset plus length minus one |
| S3.SumMayWrap | s3/s3.go:630-639 | the intermediate sum can wrap although the result is exact |
| Redact.CutKeepsMeaning | internal/redact/redact.go:83-97 | each turn of the loop keeps the line-by-line meaning and leaves fewer matching lines |
| Redact.RedactHeaders | internal/redact/redact.go:83-97 | the loop terminates with every line cut at its first match, case folded, and nothing else changed |
| Redact.AnyCaseMatches | internal/redact/redact.go:83-97 | a header is found in any mixture of upper and lower case |
| Redact.HeaderPassOnLine | internal/redact/redact.go:83-97 | a pass keeps each line up to its first match and puts the mark behind it, keeps a line without a match, and treats each line on its own |
| Redact.LinesAreFree | internal/redact/redact.go:83-97 | a pass removes its own header everywhere and brings back no other |
| Redact.FreeTextStays | internal/redact/redact.go:83-97 | a message without the header is left as it is |
| Redact.ReplaceGlues | internal/redact/redact.go:33-37 | cutting out the leftmost secret again and again leaves parts: glued by the secret they are the message, glued by [REDACTED] they are the result |
| Redact.PartsExist | internal/redact/redact.go:33-37 | every message has such parts |
| Redact.AbsentSecretStays | internal/redact/redact.go:33-37 | a message without the secret is left as it is |
| Redact.SecretSurvivesIff | internal/redact/redact.go:33-37 | a secret without brackets survives its own replacement if and only if it occurred and is part of REDACTED |
| Redact.ReplaceBringsOnlyMarks | internal/redact/redact.go:33-37 | replacing a secret brings in nothing but the mark |
| Redact.Sanitize | internal/redact/redact.go:19-39 | the final message has no listed header and no removable secret, whatever the later passes do |
| Streams.FaultReader.Read | fstest/fault.go:65-94 | hands out the next bytes of the corrupted content within chunk and failure limits, and injects its error exactly at the failure point |
| Streams.ReadWithFaults | fstest/fault.go:65-94 | any sequence of buffer sizes and answers delivers a prefix of one corrupted content, ends where it must, and at the latest after one read per byte |
| Streams.BoundedReader.Read | integration/tabular-ingestion/composition.go:131-149 | hands out bytes within the limit, and reports an object too large exactly when the probe at the limit finds a byte |
| Streams.ReadBounded | integration/tabular-ingestion/composition.go:131-149 | any sequence of reads delivers a prefix within the limit: the whole object and a clean end, or exactly the first limit bytes of a larger one and the error |

## Left out

- Error texts, wrapping and paths inside errors: errors are kinds only. The link refusal of a remote listing and a lost connection are each one kind.
- UTF-8 validity and byte order: strings are code points. A text that is no valid UTF-8 is outside the model.
- Native renames, os.Root, permissions, durability and symbolic links on the local disk: exclusive rename, Link, Rename and exclusive create are atomic steps.
- Generated temporary names: client paths are taken to be different from them, and the names to be fresh.
- Link and symbolic link preflight checks of the remote adapters, makeDirectories, and the upload and rename steps of remote writes.
- Dialing, SDK and protocol client calls; the r2 package; S3 uploads, copies and signed URLs.
- Capability tables, option validation, unsupported-operation stubs and the read-only guard: one branch each.
- The retry loop of the decorator, which repeats a call up to a configured number of attempts while a policy function calls its error retryable: policy, backoff and observers are the caller's.
- Digests and checksums.
- IOFS.Open and its file streams: they pass through to the adapter.
- The writer and iterator with injected faults, the network proxy and the conformance suite of the test support package: the writer has the cursor arithmetic of the reader.
- URL redaction by the URL parser: `Redact` starts from its output. Secrets with brackets have no guarantee, since the mark itself has brackets.
- `FtpLocks` lets every branch go either way, takes the remote calls of one operation on one session as one stretch of work, and lets remote work always end; that a reader who neither reads nor closes can hold up a transfer is outside it. Of several Closes of one stream any may be the one that aborts.
- Remote trees are fixed during one listing, and their names are single segments; a server that changes the tree or returns names with slashes is outside `ListingIsSorted` and `ListingIsComplete`.
- Decorator.PrefixIterator.Next: stated per call; the whole drained listing is stated in `ListAnswersCommute`.
