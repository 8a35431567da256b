# Dewarr: protocols, paged reads and bounded loops

Dewarr keeps a library service, a queue of background jobs and a database that an operator may
restore offline, and it talks to remote services that lose replies, change between pages or refuse
large answers. This project models the parts that must stay exact under all of that, and proves
what they promise.

- `RecoveryQueue.dfy`, `StateBundle.dfy`, `Bundles.dfy`: the restore fence. A database as settings,
  checkpoints, fences, sealed subjects, rows and queued jobs; sealing, the decision made before every
  job, an offline restore that may crash between any two statements, and the bundle that a backup
  writes and verifies.
- `HardcoverWriteback.dfy`, `HardcoverSeries.dfy`, `DownloaderCensus.dfy`: uncertain remote writes
  and multi-pass reads, against a remote side that may do anything.
- `Audiobookshelf.dfy`, `Batching.dfy`, `Grimmory.dfy`, `HardcoverDiscovery.dfy`: adaptive, split,
  cached and overlapping reads, each proved equal to the simple read it replaces.
- `Soulseek.dfy`, `TorrentProbe.dfy`, `Magnets.dfy`, `AuthBudget.dfy`, `ProcessTree.dfy`,
  `UploadCredit.dfy`, `ListCsv.dfy`: matching, tree walking, printing and parsing, counting,
  closure, spending and de-duplication.
- `Outcomes.dfy`, `Maxima.dfy`, `Ordering.dfy`, `Decimals.dfy`, `QueryStrings.dfy`: optional values
  and errors, maxima of sets, text order, printed numbers and percent-encoding, shared by the others.

Next to the theorems about runs, each module says in literal terms what its small decisions come to
(members named `...Spelled` and their neighbours): which argument addresses which table, which codes
decline a write, which digits a text stands for, where a path is cut.

Databases are maps and sets, and one statement or transaction is one atomic step. Remote servers and
clocks are functions (often of the number of requests made so far, so that a reply may depend on
when it is asked for) or explicit steps of a state machine. Parsed records stand for replies.

Assumptions made where a claim needs them:

- Write-back: the list service never gives an id to a second row; others may insert and delete rows,
  change a row's edition and change the list's owner, but a row keeps its list and book. A reply that
  declines a request is honest: the request was not performed and never will be. The caller marks a
  request as pending before it is sent. It keeps the mark after an acknowledgement and observes
  again; it clears it on a reply read as a definite rejection, on an observation that the removed row
  is gone, and on confirmation (services/app/domain/list_writeback.py:489-590).
- Grimmory: page numbers are natural, as its callers count from zero. Given a negative page, SQLite
  would read a negative OFFSET as zero and the cursor could not agree with it.
- Months and unchanging series, catalogues and listings: a claim that names the remote list says that
  it does not change; the claims about what an accepted answer implies need no such assumption.
- CSV: the digest of a record is injective in what it digests.
- Upload credit: balances and costs are numbers, or absent, or not finite; rounding is not modelled.
- Magnets: text is ASCII, one character for a byte.

Two remarks on what the code does. The sign-in window admits fifteen attempts, yet thirty can fall
within ten minutes when they straddle a reset; both bounds are proved and the second is attained. And
the check at startup means to refuse an incomplete restore (services/app/main.py:97-104), yet one
that stopped between loading a backup and its closing transaction opens for review when the backup
itself holds an active checkpoint; `StateBundle.InterruptedStarts` says exactly when.

## Model

| member | source | states |
|---|---|---|
| RecoveryQueue.Database.ActiveRestore | services/app/recovery.py:15-16 | gives an active checkpoint exactly when there is one |
| RecoveryQueue.Database.SealCheckpoint | services/app/recovery_queue.py:48-80 | the one statement that seals: the whole new state, and no audit entry |
| RecoveryQueue.Database.Denial | services/app/recovery_queue.py:83-148 | refuses exactly the jobs that the order-free admission rule excludes, and names which rule |
| RecoveryQueue.CollectReferences | services/app/recovery_queue.py:119-135 | collects exactly the references that the arguments contribute, or gives the refusal of the first unresolvable argument |
| RecoveryQueue.Database.LookUp | services/app/recovery_queue.py:136-148 | passes exactly when every reference is readable and names no sealed record |
| RecoveryQueue.Database.CheckReferences | services/app/recovery_queue.py:117-148 | the two loops together admit exactly the acceptable arguments, and the reason given is a true one |
| RecoveryQueue.Database.GuardJob | services/app/recovery_queue.py:151-168 | aborts exactly the refused jobs, and writes one audit entry with id, task and reason for each |
| RecoveryQueue.ArgumentAdmittedByReferences | services/app/recovery_queue.py:118-147 | an argument is acceptable exactly when all references it contributes are fresh |
| RecoveryQueue.SealCapturesPresent | services/app/recovery_queue.py:48-76 | the first seal of an active checkpoint captures exactly the records present (no recovery operations) and the highest job id; any later one changes nothing |
| RecoveryQueue.SealReadsTables | services/app/recovery_queue.py:48-65 | a first seal adds exactly the rows of the nine tables, each under the kind of its table, and no recovery operation |
| RecoveryQueue.SealCountsKinds | services/app/recovery_queue.py:66-76 | the fence counts the added records of each kind |
| RecoveryQueue.BoundaryIsImmutable | services/app/recovery_queue.py:57-76 | over every run, an existing fence and its subjects never change |
| RecoveryQueue.AdmittedNamesNothingSealed | services/app/recovery_queue.py:117-147 | an admitted ordinary job names no record sealed under any checkpoint |
| RecoveryQueue.RestoredWorkNeverRuns | services/app/recovery_queue.py:48-148 | whatever happens after a seal, an admitted ordinary job has an id above every job then queued and names no record then stored |
| RecoveryQueue.RestoredRowsAreOutOfReach | services/app/recovery_queue.py:13-147 | table by table and argument by argument: after a seal and any run, no admitted ordinary job is given the identifier of a row then stored, by the argument its task uses for that table |
| RecoveryQueue.ArgumentsSpelled | services/app/recovery_queue.py:13-147 | which value each named argument may have, in literal names and kinds |
| RecoveryQueue.DecisionSpelled | services/app/recovery_queue.py:13-148 | the whole decision in literal terms: tasks, settings, checkpoints, fences, job id and arguments |
| RecoveryQueue.SealRaisesCeiling | services/app/recovery_queue.py:48-76 | a seal adds exactly the queued ids to what is below the ceiling, and exactly the stored records to what is sealed |
| RecoveryQueue.StepKeepsBoundary | services/app/recovery_queue.py:48-80 | every step keeps the boundary consistent, and only a first seal of an active checkpoint changes it |
| RecoveryQueue.CeilingsAreHistory | services/app/recovery_queue.py:107-115 | over every run, an id is above all ceilings exactly when it is above every job queued at some seal |
| RecoveryQueue.SubjectsAreHistory | services/app/recovery_queue.py:52-65 | over every run, a record is sealed exactly when it was stored at some seal |
| RecoveryQueue.AdmissionIsHistory | services/app/recovery_queue.py:83-148 | after any run from an empty boundary, the decision is exactly a statement about the run: what was queued and stored at each seal |
| StateBundle.Cluster.Restore | services/app/state_bundle.py:303-415 | for every crash point, what the target database holds; which failure has which cause and stage; exactly when a restore succeeds; other databases untouched |
| StateBundle.Cluster.CloseRestore | services/app/state_bundle.py:357-385 | after the closing transaction no session is left, the new checkpoint is the only active one, everything loaded is sealed under it, and older fences and all rows are as loaded |
| StateBundle.Cluster.WriteOutput | services/app/state_bundle.py:387-414 | the output files written before a crash are a prefix of those promised |
| StateBundle.EveryCrashPointIsFenced | services/app/recovery.py:19-29 | at every crash point restored rows imply the pending mark: no process starts ordinarily and no ordinary job is admitted |
| StateBundle.InterruptedStarts | services/app/main.py:97-104 | a restore that stopped early is refused, except that between loading and closing it opens for review exactly when the backup holds an active checkpoint, with the backup's sessions and boundary |
| StateBundle.StartsSpelled | services/app/recovery.py:19-29 | exactly when each process refuses, waits, opens for review or starts ordinarily |
| StateBundle.CheckpointAppearsComplete | services/app/state_bundle.py:357-385 | the new checkpoint is never visible without its seal, the emptied sessions and the older checkpoints deactivated; older fences are kept |
| StateBundle.RestoredWorkStaysFenced | services/app/recovery_queue.py:83-148 | after a completed restore and any later run, ordinary work never runs a job of the backup and is never given the identifier of one of its records |
| Bundles.UnionIsExact | services/app/state_bundle.py:261-290 | the union of the journal roots has each journal name once, invents nothing and loses nothing when entries agree |
| Bundles.UuidSpelled | services/app/state_bundle.py:85-92 | canonical identifiers are five groups of 8, 4, 4, 4 and 12 lower-case hexadecimal digits |
| Bundles.JournalSpelled | services/app/state_bundle.py:85-92 | journals are named after a canonical identifier, with or without "combine-" before it, and ".json" after it |
| Bundles.BudgetShrinks | services/app/state_bundle.py:261-290 | a union within budget was within budget at every earlier point of the scan |
| Bundles.AddJournal | services/app/state_bundle.py:268-290 | one entry: refused exactly when unrecognized, in conflict or over budget, with the running total exact |
| Bundles.CollectJournals | services/app/state_bundle.py:261-290 | the backup holds exactly the union of the roots; each refusal is true of the whole scan |
| Bundles.ValidateBundle | services/app/state_bundle.py:95-142 | accepts exactly the bundles that pass every check, whatever the order: version, required files, paths, sizes, digests, journal budget, nothing undeclared, usable configuration |
| Bundles.CheckEntries | services/app/state_bundle.py:107-121 | the loop accepts exactly the lists whose every entry is permitted and has the declared digest, and totals their journals |
| Bundles.EntrySpelled | services/app/state_bundle.py:107-121 | a permitted entry is one of the three files or a journal of at most 4 MiB, held as a regular file with its digest |
| Bundles.ValidatedIsExact | services/app/state_bundle.py:95-142 | a bundle that validates holds exactly the files of its manifest, each regular and with the declared digest |
| Bundles.BackupThenValidate | services/app/state_bundle.py:258-300 | what a backup writes passes its own verification unless the key or settings are too large or unusable, and holds every journal of the roots with its digest |
| HardcoverWriteback.Decide | services/app/adapters/hardcover_writeback.py:145-184 | confirms exactly when the intent holds on the same target; adds exactly when certain and both observations are empty; removes, exactly when certain and every entry is one of the base, the least id; reconciles exactly when uncertain and unresolved |
| HardcoverWriteback.RepliesAreReadStrictly | services/app/adapters/hardcover_writeback.py:204-254 | a reply is acknowledged exactly when it has no error of any kind and names the planned change (for an addition the entry, list and book; for a deletion the entry and list), and rejected exactly when it is refused for certain or has no result and every one of its errors has one of three literal codes |
| HardcoverWriteback.DenialSpelled | services/app/adapters/hardcover_writeback.py:213-233 | errors are a denial exactly when there are some and each has one of the three codes |
| HardcoverWriteback.EffectsHappenAtMostOnce | services/app/domain/list_writeback.py:489-590 | over every run with lost, late and declined requests, any replies and edits by others: the book is added at most once, no entry is removed twice, only base entries are removed, and every request repeats an entry as first observed |
| HardcoverWriteback.BeginningIsSound | services/app/adapters/hardcover_writeback.py:55-73 | a command begun on an observation of the remote table satisfies the invariant |
| HardcoverWriteback.SendsOnlyWhenNothingIsLive | services/app/adapters/hardcover_writeback.py:160-184 | a new request is sent only when none in flight can still have an effect |
| HardcoverWriteback.LookKeeps | services/app/adapters/hardcover_writeback.py:145-184 | observing, deciding and sending keep the invariant |
| HardcoverWriteback.ActKeeps | services/app/adapters/hardcover_writeback.py:187-254 | a late server action keeps the invariant |
| HardcoverWriteback.AnsweredKeeps | services/app/adapters/hardcover_writeback.py:204-254 | hearing any reply keeps the invariant, because an attempt is given up only for a request that was declined |
| HardcoverWriteback.OtherKeeps | services/app/domain/list_writeback.py:489-590 | lost requests and edits by others keep the invariant |
| HardcoverWriteback.AdditionCompletes | services/app/domain/list_writeback.py:489-590 | an addition that the server performs is confirmed, with one request |
| HardcoverWriteback.LostAdditionWaits | services/app/domain/list_writeback.py:489-590 | an addition of unknown outcome is never sent again, however often the caller looks |
| HardcoverWriteback.DeclinedAdditionRepeats | services/app/domain/list_writeback.py:489-590 | an addition that was declined for certain is sent again |
| HardcoverWriteback.ChangesStopRemoval | services/app/adapters/hardcover_writeback.py:171-184 | nothing is removed after an entry was rebound or added by others, or the list changed hands |
| HardcoverWriteback.RoundRuns | services/app/adapters/hardcover_writeback.py:171-184 | a round of a removal is a run of the protocol: the caller looks, the server acts |
| HardcoverWriteback.RoundsDrain | services/app/adapters/hardcover_writeback.py:171-184 | undisturbed rounds remove the base entries one by one in id order |
| HardcoverWriteback.RemovalCompletes | services/app/adapters/hardcover_writeback.py:145-184 | with no outside edits a removal takes exactly one deletion for each base entry, in ascending id order, and then confirms |
| HardcoverSeries.ReadPage | services/app/adapters/hardcover_series.py:57-157 | when a reply is a page, and that its keys rise strictly from the cursor |
| HardcoverSeries.RunExplained | services/app/adapters/hardcover_series.py:160-194 | a run that has not raised is a first pass and part of a second one, and its stage is a function of their pages |
| HardcoverSeries.CollectSpelled | services/app/adapters/hardcover_series.py:160-178 | exactly which pages the first pass accepts, and what it makes of them |
| HardcoverSeries.VerifySpelled | services/app/adapters/hardcover_series.py:179-194 | the second pass accepts a page exactly when each entry has the identifier and membership of the one collected at its place, whatever its reader count |
| HardcoverSeries.VerifyReplaces | services/app/adapters/hardcover_series.py:179-194 | what the second pass reads replaces what was collected |
| HardcoverSeries.CompletionIsVerified | services/app/adapters/hardcover_series.py:160-194 | on completion the items are what the second pass read, agree with the first up to reader counts, number exactly `count`, rise strictly, and the facts were the same on every page |
| HardcoverSeries.RunsAreBounded | services/app/adapters/hardcover_series.py:160-194 | every run that has not raised has at most 2·max(1, count) pages |
| HardcoverSeries.ServesOnce | services/app/adapters/hardcover_series.py:57-157 | an unchanging series gives one page for each cursor |
| HardcoverSeries.PresentableRuns | services/app/adapters/hardcover_series.py:57-194 | no run of reader and machine against an unchanging presentable series raises: each takes exactly two passes of full pages and completes with exactly its rows |
| HardcoverSeries.RefreshedRuns | services/app/adapters/hardcover_series.py:57-194 | the same when the reader counts change between the passes: every run goes on and completes with exactly the rows of the second pass |
| HardcoverSeries.RefreshedCompletes | services/app/adapters/hardcover_series.py:57-194 | there is such a run |
| HardcoverSeries.UnchangingSeriesCompletes | services/app/adapters/hardcover_series.py:57-194 | an unchanging series can be completed with exactly its rows if and only if it is named, has at most 1,000 rows, and all are usable with keys in range |
| DownloaderCensus.AddPage | services/app/adapters/qbittorrent.py:702-719 | a page is accepted exactly when its rows are whole, continue the strictly rising keys and stay within 10,000 |
| DownloaderCensus.Listing | services/app/adapters/qbittorrent.py:692-720 | whatever the client answers, a listing stops within 10,001 requests, and is the concatenation of the pages or a failure at the first bad one |
| DownloaderCensus.ListsOnce | services/app/adapters/qbittorrent.py:692-720 | a listing has one result |
| DownloaderCensus.ListsOrFails | services/app/adapters/qbittorrent.py:692-720 | a listing that completes cannot fail |
| DownloaderCensus.SteadyClientIsListed | services/app/adapters/qbittorrent.py:692-720 | a client that does not change is listed whole, in key order |
| DownloaderCensus.ObserveRows | services/app/adapters/qbittorrent.py:727-747 | the states are those of exactly the relevant rows in key order, each a reply that agrees with its row |
| DownloaderCensus.HashSpelled | services/app/adapters/qbittorrent.py:34-37 | forty or sixty-four hexadecimal digits in either case are read as the same digits in lower case |
| DownloaderCensus.TagsApart | services/app/adapters/qbittorrent.py:730 | commas separate tags |
| DownloaderCensus.OneTag | services/app/adapters/qbittorrent.py:730 | a tag is its text without the blanks around it, and blanks alone are no tag |
| DownloaderCensus.TaggedIsOurs | services/app/adapters/qbittorrent.py:730-735 | an attempt tag anywhere in the list, with blanks around it or not, makes its transfer relevant |
| DownloaderCensus.OtherIsOurs | services/app/adapters/qbittorrent.py:730-735 | without such a tag only a known key or a category makes a transfer relevant |
| DownloaderCensus.KeysSpelled | services/app/adapters/qbittorrent.py:681 | known hashes are compared by their first forty digits in lower case |
| DownloaderCensus.Census | services/app/adapters/qbittorrent.py:674-752 | success means three equal listings around the observations; failure means that the client or a relevant transfer did not hold still |
| DownloaderCensus.CensusIsExact | services/app/adapters/qbittorrent.py:727-747 | every relevant transfer has a state, no other has, and the keys rise strictly |
| Batching.ReadBatches | services/app/adapters/batching.py:6-32 | for any replies: every value is served once and in order unless the run raised, what is yielded is what was answered, only too-large replies are retried, at most 2·len(values) requests are made, and every request is numbered in turn, is not empty, has at most `size` values and is followed by its first half when it was too large |
| Batching.Part | services/app/adapters/batching.py:9-28 | the same for one batch and its halves, the whole batch first, with at most 2·len(batch) - 1 requests |
| Batching.ThenConserves | services/app/adapters/batching.py:20-24 | two runs in sequence conserve the two halves |
| Audiobookshelf.WirePage | services/app/adapters/audiobookshelf.py:532-555 | the floor division is exact: the wire page starts where reading stopped |
| Audiobookshelf.WirePageIsExact | services/app/adapters/audiobookshelf.py:532-555 | the requested page times the size is the offset reached |
| Audiobookshelf.SmallerSizeDivides | services/app/adapters/audiobookshelf.py:532-555 | a smaller wire size still divides every offset already reached |
| Audiobookshelf.StepFits | services/app/adapters/audiobookshelf.py:532-571 | a wire page never runs over the end of its logical page |
| Audiobookshelf.SteadyContinues | services/app/adapters/audiobookshelf.py:557-571 | what an unchanging server answers passes the checks and continues what was read |
| Audiobookshelf.Client.Page | services/app/adapters/audiobookshelf.py:532-555 | with any pattern of too-large replies and any remembered size, a page of an unchanging library is exactly its hundred rows, and at most 105 requests are made |
| Audiobookshelf.AcceptedIsPermutation | services/app/adapters/audiobookshelf.py:626-644 | equal length and equal id set mean that the answered ids are a permutation of those asked for |
| Audiobookshelf.ExpandedSpelled | services/app/adapters/audiobookshelf.py:626-644 | exactly the answers of the requested number and identifiers are accepted, and every other leaves the outcome uncertain |
| Audiobookshelf.InventoryIsExact | services/app/adapters/audiobookshelf.py:611-644 | an inventory that does not raise yields every summary id exactly once, with at most two requests for each record |
| Audiobookshelf.HonestInventoryCompletes | services/app/adapters/audiobookshelf.py:611-644 | against a server that answers every batch or finds it too large, an inventory never raises, and no request names more than 25 records |
| Grimmory.BeyondOrderBy | services/app/adapters/grimmory.py:787-813 | filtering by key commutes with ordering by key |
| Grimmory.BeforeIsNumeric | services/app/adapters/grimmory.py:787-813 | the key orders printed numbers by their values |
| Decimals.LengthOrder | services/app/adapters/grimmory.py:794-805 | among numerals, length and then text order is the order of numbers |
| Grimmory.OrderedRows | services/app/adapters/grimmory.py:787-813 | the ordered rows of a library are all its rows, once each |
| Grimmory.PageSpelled | services/app/adapters/grimmory.py:801-805 | page `n` holds the rows from 20·n on, twenty of them or as many as there are |
| Grimmory.KeysetIsNextOffset | services/app/adapters/grimmory.py:787-813 | the keyset query after a page's last key is the offset query for the next page |
| Grimmory.SpoolPages | services/app/adapters/grimmory.py:702-785 | a finished download has distinct ids and is the concatenation of the pages up to the announced total; an unchanging server is mirrored exactly, never refused |
| Grimmory.Catalog.DownloadCatalog | services/app/adapters/grimmory.py:702-785 | installs rows and counts together, or leaves no catalogue |
| Grimmory.Catalog.CloseCatalog | services/app/adapters/grimmory.py:686-694 | forgets rows, counts and cursors |
| Grimmory.Catalog.RefreshSnapshot | services/app/adapters/grimmory.py:696-700 | no cursor of the old catalogue survives |
| Grimmory.Catalog.Page | services/app/adapters/grimmory.py:787-813 | in every order of calls, a page is what the offset query gives, and the size is that of the library |
| HardcoverDiscovery.EditionPage | services/app/adapters/hardcover_discovery.py:169-210 | refused exactly for an overlong page or a faulty row; otherwise the first editions of the page, truncated |
| HardcoverDiscovery.FirstEditionsAreFirst | services/app/adapters/hardcover_discovery.py:169-210 | the plain reading is the first row of each book that is not a redirect, every one and no other, in the order of the list |
| HardcoverDiscovery.FirstEditionsAreDistinct | services/app/adapters/hardcover_discovery.py:169-210 | no book is read twice |
| HardcoverDiscovery.MergeContinues | services/app/adapters/hardcover_discovery.py:222-244 | merging the reading of a rest into the reading of a prefix is reading the whole |
| HardcoverDiscovery.OverlapIsHarmless | services/app/adapters/hardcover_discovery.py:222-244 | reading the look-ahead row twice adds nothing |
| HardcoverDiscovery.TruncationDropsLookahead | services/app/adapters/hardcover_discovery.py:205-210 | truncating a page drops at most its look-ahead row |
| HardcoverDiscovery.UpcomingMonth | services/app/adapters/hardcover_discovery.py:222-244 | twenty overlapping pages give the first editions of the whole list when it has at most 2,000 rows, and otherwise a prefix of them with a warning |
| Soulseek.AddToFolder | services/app/adapters/slskd.py:175-187 | one offer keeps names in a folder distinct after normalising, and every name at its largest size |
| Soulseek.GroupResponses | services/app/adapters/slskd.py:146-187 | each peer's directory with a usable offer, and no other, is a folder with distinct names in which every offered name has its largest size and nothing is invented |
| Soulseek.OffersAreListed | services/app/adapters/slskd.py:148-174 | an offer is a usable file listed within the limits under its own peer and directory, and no file beyond the limit shares its directory |
| Soulseek.ListedIsOffered | services/app/adapters/slskd.py:148-174 | every usable file within the limits is offered, unless a usable file beyond the limit shares its directory |
| Soulseek.LeafSpelled | services/app/adapters/slskd.py:92-93 | the leaf name is the text after the last separator of either kind, trailing ones ignored |
| Soulseek.DirectorySpelled | services/app/adapters/slskd.py:96-98 | the directory is the text before the last separator, with one kind of separator |
| Soulseek.MatchFile | services/app/adapters/slskd.py:330-346 | finds an unclaimed file of the same leaf and size, an exact one when there is one, and nothing only when nothing fits |
| Soulseek.ExactSpelled | services/app/adapters/slskd.py:336-339 | an exact match has the same size and, but for the kind of separators, the same name |
| Soulseek.ExactIsUnique | services/app/adapters/slskd.py:330-346 | distinct names leave one exact match |
| Soulseek.Batch | services/app/adapters/slskd.py:504-552 | whichever matches are taken: complete exactly when all transfers are finished and are the files leaf for leaf and size for size, and then in one-to-one correspondence; with all sizes known, failed exactly for a failed transfer or a surplus |
| Soulseek.StatesSpelled | services/app/adapters/slskd.py:316-327 | which words mean failure and success, and that any failure outweighs any success |
| Soulseek.CompleteNamesAgree | services/app/adapters/slskd.py:504-552 | in a complete batch each transfer and its own file have the same text as last component and the same size |
| Soulseek.NamesDeliver | services/app/adapters/slskd.py:504-552 | finished transfers that pair off with the files in last component and size, in any order, are a delivery |
| Soulseek.DeliveredMeansNoSurplus | services/app/adapters/slskd.py:516-539 | finished transfers are exactly the files if and only if there are as many and each finds a file left |
| Soulseek.OrderDelivers | services/app/adapters/slskd.py:504-552 | transfers that correspond to the files one to one, in any order, are a delivery |
| Soulseek.CorrespondenceDelivers | services/app/adapters/slskd.py:516-539 | what a batch lists when it completes is such a correspondence |
| TorrentProbe.JoinIsInjective | services/app/adapters/torrent_probe.py:15-48 | joining accepted components by "/" is injective |
| TorrentProbe.ComponentSpelled | services/app/adapters/torrent_probe.py:15-27 | exactly which texts are accepted as components |
| TorrentProbe.SplitJoin | services/app/adapters/torrent_probe.py:15-48 | splitting a joined path gives its components back |
| TorrentProbe.FileSpelled | services/app/adapters/torrent_probe.py:34-48 | exactly when one dictionary is a file, padding or refused |
| TorrentProbe.TreeSpelled | services/app/adapters/torrent_probe.py:57-72 | the flattening holds exactly the files that paths of the tree lead to, and a refusal exactly when some node breaks a rule |
| TorrentProbe.ListSpelled | services/app/adapters/torrent_probe.py:50-52 | a v1 list has one entry for each file, below the name |
| TorrentProbe.VisitNode | services/app/adapters/torrent_probe.py:50-72 | visiting one dictionary conserves what is recorded plus what the stack stands for, and the stack shrinks by a real measure |
| TorrentProbe.WalkTree | services/app/adapters/torrent_probe.py:50-72 | the explicit-stack walk accepts exactly the trees whose recursive flattening is a layout, and gives that layout |
| TorrentProbe.ListFiles | services/app/adapters/torrent_probe.py:30-49 | a v1 list is accepted exactly when its entries are a layout, and gives it |
| TorrentProbe.RawFiles | services/app/adapters/torrent_probe.py:30-72 | the three ways of naming files, with the bound on their number |
| TorrentProbe.LayoutIsUnique | services/app/adapters/torrent_probe.py:30-72 | a list of entries describes at most one layout, whatever their order |
| TorrentProbe.HybridLayoutsAgree | services/app/adapters/torrent_probe.py:116-119 | equal layouts mean equal component sequences and sizes |
| TorrentProbe.Observe | services/app/adapters/torrent_probe.py:84-115 | observes exactly the listings that some layout mirrors, gives that layout, and totals the bytes that are not padding |
| TorrentProbe.MirrorIsUnique | services/app/adapters/torrent_probe.py:92-115 | a listing mirrors at most one layout |
| TorrentProbe.Accept | services/app/adapters/torrent_probe.py:75-134 | accepts exactly when there is an identity, and one layout is described by the metadata, observed by the library and, in a hybrid, described by the v2 tree alone, within the limits |
| TorrentProbe.AcceptedHybridsAgree | services/app/adapters/torrent_probe.py:116-119 | an accepted hybrid names the same files, component by component, in both trees |
| QueryStrings.UnquoteQuote | services/app/adapters/audiobookbay.py:304-349 | percent-encoding round trip |
| QueryStrings.QuoteSpelled | services/app/adapters/audiobookbay.py:304-349 | how each byte is written |
| QueryStrings.UnquoteSpelled | services/app/adapters/qbittorrent.py:91-126 | how escapes in either case and pluses are read |
| QueryStrings.SplitJoin | services/app/adapters/audiobookbay.py:304-349 | splitting undoes joining when no part holds the separator |
| QueryStrings.SplitApart | services/app/adapters/qbittorrent.py:91-126 | splitting a text around a separator splits both sides |
| QueryStrings.DroppedField | services/app/adapters/qbittorrent.py:91-126 | a field without a value is dropped |
| QueryStrings.ParseEncoded | services/app/adapters/qbittorrent.py:91-126 | parsing an encoded query gives the same pairs in order, or nothing beyond the field limit |
| Magnets.SpellingsCollapse | services/app/adapters/qbittorrent.py:91-126 | base32 and hexadecimal spellings have one identity exactly when they spell the same 160 bits |
| Magnets.PrintedHashes | services/app/adapters/qbittorrent.py:103-120 | for all 160 bits, their base-32 text over the literal alphabet and their hexadecimal text, each in either case, are one identity: the forty lower-case digits |
| Magnets.PrintedV2 | services/app/adapters/qbittorrent.py:111-120 | the same for 256 bits in hexadecimal behind the multihash prefix |
| Magnets.ReadSpelled | services/app/adapters/qbittorrent.py:91-103 | a printed link is read exactly within 32,768 characters and 100 fields |
| Magnets.ReadRefuses | services/app/adapters/qbittorrent.py:91-102 | longer links, other schemes, control characters, blanks and fragments are refused |
| Magnets.ReadsQuery | services/app/adapters/qbittorrent.py:91-103 | every other link of at most 32,768 characters is read as its query, with at most 100 fields |
| Magnets.HashesSpelled | services/app/adapters/qbittorrent.py:91-126 | a readable link gives the digests of its `xt` values exactly when there are some, all are identities and no two of one kind differ |
| Magnets.MagnetHashes | services/app/adapters/qbittorrent.py:91-126 | the loop computes the digests of a magnet whose identities cohere, and nothing otherwise |
| Magnets.IdentifyPrint | services/app/adapters/qbittorrent.py:91-126 | identifying the printed form of an identity gives it back |
| Magnets.PrintedReads | services/app/adapters/audiobookbay.py:304-349 | a printed magnet within the limits reads back as exactly its pairs |
| Magnets.PrintedIdentifies | services/app/adapters/audiobookbay.py:304-349 | a printed magnet parses to exactly its digests exactly when there is at most one of each kind and it is not too long |
| Magnets.CollectCells | services/app/adapters/audiobookbay.py:304-349 | hashes and trackers of the table depend only on the set of what its cells hold |
| Magnets.CellSpelled | services/app/adapters/audiobookbay.py:304-320 | a cell holds a bare digest of forty or sixty-four digits and nothing else |
| Magnets.PairsSpelled | services/app/adapters/audiobookbay.py:339-342 | a link holds all identities and the first twenty trackers in text order |
| Ordering.LessSpelled | services/app/adapters/audiobookbay.py:339-342 | text order: a proper beginning, or the smaller character at the first difference |
| Magnets.CollectLink | services/app/adapters/audiobookbay.py:304-349 | a link contributes exactly its valid identities and allowed trackers |
| Magnets.MagnetFromPost | services/app/adapters/audiobookbay.py:304-349 | what is returned parses to exactly the collected digests with only `xt` and `tr` keys; nothing is returned exactly without identities; when it is refused |
| AuthBudget.RateLimits.Enforce | services/app/api/auth.py:179-205 | one attempt: the new row, other keys untouched, and admission decided by the row before |
| AuthBudget.RetryAfter | services/app/api/auth.py:198-205 | the advertised delay is the least positive number of whole seconds that reaches the end of the window |
| AuthBudget.FifteenPerWindow | services/app/api/auth.py:179-205 | at most fifteen of any ordered attempts are admitted in one window |
| AuthBudget.ThirtyInAnyInterval | services/app/api/auth.py:179-205 | at most thirty of any ordered attempts are admitted in any ten minutes |
| AuthBudget.ThirtyIsReached | services/app/api/auth.py:179-205 | that bound is attained |
| AuthBudget.RefusalsKeepWindow | services/app/api/auth.py:179-205 | attempts within a window never extend it |
| AuthBudget.WaitingWorks | services/app/api/auth.py:198-205 | an attempt made after the advertised delay is admitted, whatever was refused within the window |
| ProcessTree.DescendantsAreLeast | scripts/check.py:22-39 | the processes reached by parent chains are the least set that contains the tracked groups and is closed under children |
| ProcessTree.Closure | scripts/check.py:32-37 | the loop ends for any table, even with cyclic parents, and finds exactly that least set |
| ProcessTree.MembersCountOnce | scripts/check.py:39 | with distinct ids, the total counts each member once |
| ProcessTree.Tracker.ProcessTreeRss | scripts/check.py:22-39 | the total is that of the process tree, and the tracked groups grow by exactly the members' groups |
| UploadCredit.BuyUpload | services/app/adapters/mam.py:1034-1073 | the purchases made are those of the specification, and the answer says whether any was accepted |
| UploadCredit.SpendBonus | services/app/adapters/mam.py:1054-1072 | the same for the bonus loop |
| UploadCredit.CreditSpelled | services/app/adapters/mam.py:581-598 | the ratio rule decides before the buffer rule, and neither without its numbers |
| UploadCredit.PurchasesSpelled | services/app/adapters/mam.py:1034-1073 | exactly when the threshold purchase is made, with which amount and balance, and when the bonus loop follows |
| UploadCredit.BonusRunSpelled | services/app/adapters/mam.py:1054-1072 | exactly when each bonus purchase is made and when the loop stops |
| UploadCredit.BonusRunIsSafe | services/app/adapters/mam.py:1054-1072 | each bonus purchase is covered by a known finite balance, follows an accepted one and a strictly lower balance, and there are at most as many as allowed |
| UploadCredit.PurchasesAreSafe | services/app/adapters/mam.py:1034-1073 | at most one threshold purchase and twelve bonus purchases, in that order, each covered |
| UploadCredit.SpendingIsBounded | services/app/adapters/mam.py:1034-1073 | with accurate balances the total spent never exceeds the starting balance |
| ListCsv.ParseRows | services/app/adapters/list_csv.py:102-157 | success means at most 2,000 readable rows without conflict, summarised exactly; failure names the first place where reading stops |
| ListCsv.SnapshotSpelled | services/app/adapters/list_csv.py:102-157 | in terms of the rows: one record for each book, in the order of and with the cells of its first row, on exactly the shelves its rows name; the other rows are counted as duplicates |
| ListCsv.ClashSpelled | services/app/adapters/list_csv.py:144-151 | rows conflict exactly when two name one Goodreads book and differ in title, author or ISBN |
| ListCsv.IdSpelled | services/app/adapters/list_csv.py:118-123 | identifiers are the positive numbers of at most twenty digits |
| ListCsv.FaultSpelled | services/app/adapters/list_csv.py:107-136 | which fault of a row is reported |
| ListCsv.StopsOnce | services/app/adapters/list_csv.py:107-152 | there is one place and one reason to stop, and none when all rows are readable, few enough and without conflict |
| ListCsv.ClashWithFirst | services/app/adapters/list_csv.py:144-151 | comparing with the first record of a key finds a conflict exactly when any earlier row of that key conflicts |
| ListCsv.Gather | services/app/adapters/list_csv.py:144-156 | one row: a conflict is reported exactly when there is one, and otherwise the summary is extended |
| ListCsv.ShelvesAreCovered | services/app/adapters/list_csv.py:131-157 | the snapshot's shelves are the union of its records' shelves, and its keys are distinct |
| ListCsv.SummaryIsUnique | services/app/adapters/list_csv.py:102-157 | the rows determine the snapshot |

## Left out

- HTTP, GraphQL, HTML, XML, bencoding and CSV tokenising: the model starts from parsed records.
- UUID parsing in job references and Unicode normalisation of titles: parameters of the model.
- PostgreSQL, SQLite and the queue library: a statement or a transaction is one step.
- Bundles: file contents are known by their digests, and the key and settings of a bundle are usable or not by a flag; a restore takes the verdict on its bundle as given.
- The maintenance lock as an object (services/app/recovery.py:32-47): startup sees only whether it is held.
- Write-back: other commands for the same book and the lease between them, the branch for a revoked account (services/app/domain/list_writeback.py:462-488), retry delays and audit history.
- qBittorrent: submitting, renaming, moving and verifying transfers, and the parsing of a transfer's files in `parse_state`.
- Soulseek: searching, building, ranking and truncating releases from folders, and the renamed paths of `file_list_descriptor`, which the suffix scheme does not make unique.
- Grimmory: file listings, book-drop pages and record parsing.
- Audiobookshelf: everything but summary pages and the item inventory.
- libtorrent's own reading of a file: its file list, and whether it found an identity of each version, are inputs.
- MAM: VIP time, cookies, cooldowns and the parsing of sizes.
- CSV: decoding, header mapping and identifier cleaning, which are read from the row.
- HardcoverDiscovery.UpcomingMonth: the list is taken not to change during the walk; pages of a changing list make no promise beyond each page's own.
- Magnets.MagnetFromPost: text outside ASCII is not modelled, and its tracker filter is a parameter that yields non-empty ASCII.
- Web routes, settings, views and the domain and import packages that only call these parts.
