# Verified model of the BitTorrent download server

A Dafny model of the algorithmic parts of the download server: the DHT client with its wire
formats, the repair of file indices in the database, the eviction of old downloads, the magnet
link canonicaliser with the tracker list, file selection across restarts, and byte ranges.
`dafny verify dfyconfig.toml` checks all of it.

| file | what it models |
|---|---|
| `Text.dfy` | decimal printing, `parseInt`, `split`, hexadecimal, insertion-ordered sets, UTF-8 and UTF-16 lengths |
| `Bencode.dfy` | the bencode printer and a strict specification decoder |
| `Compact.dfy` | six-byte peers, 26-byte nodes, random node sampling |
| `Dht.dfy`, `DhtEvents.dfy`, `DhtHistory.dfy`, `DhtClient.dfy` | the DHT client as a step function over events, what each event does, the history of its runs, and the object refining it |
| `FileIndex.dfy`, `FileStore.dfy` | progress updates that repair the index column; selection and restore |
| `Disk.dfy`, `Eviction.dfy` | file trees, recursive deletion, the cleanup loop |
| `Magnet.dfy`, `Trackers.dfy` | magnet links, percent-encoding, the global tracker list |
| `Ranges.dfy` | range headers of the stream handlers |

Assumptions; the member that carries one as a precondition or parameter is named, the others are built into the data:

- The database returns the file rows of a torrent in a stable order (rows are a sequence).
- The UDP socket reports senders as a dotted quad with a port from 1 to 65535 (`Dht.Possible`).
- Transaction ids are an arbitrary function `draw`; only `FreshIdsNeverCollide` and
  `OwnTimer` ask for fresh ones.
- A failed directory removal leaves a pruned directory of the same name (`Eviction.Honest`) and names in
  a directory are distinct (`Eviction.DistinctNames`). Nothing else writes to the tree during a cleanup,
  every listed entry has a readable `stat`, and the download directory itself can be listed, which the
  server tests when it starts. Any directory inside it may be unreadable.
- Tracker updates run one at a time (a run is a sequence of updates).
- Exceptions that the source catches are modelled by the branch they lead to: a write that throws,
  a transaction id that cannot be read, a client callback that throws.

What the code does and a reader may not expect (each one is a lemma below):

- Random sampling never returns more than half of the known nodes, rounded up, because the loop bound
  shrinks with the list.
- A value that is null, undefined or boolean vanishes from a printed message, so a
  message reads back exactly when it has no such part.
- The file rows this server creates never need a second progress pass. Rows created without indices carry
  0 or, later, their own position; rows created with indices carry a permutation, in whatever order the
  database stored them. One full pass leaves a permutation in both cases. For rows with arbitrary indices, such as a table
  edited by hand, `FileIndex.OnePassSuffices` gives the exact condition on the indices, and as many passes
  as there are rows always suffice.
- Sizing counts a directory that cannot be listed as empty. The cleanup's account covers the real size
  exactly when no bytes are hidden that way; otherwise it can stop above the limit with a candidate left
  (`Eviction.HiddenBytesStopEarly`). `Eviction.RealExitExactly` says for which trees the exit is still right.
- The cleanup picks the oldest directory again after a failure, so one that cannot be removed uses up all
  ten attempts and nothing is freed (`Eviction.OldestBlocks`).
- A torrent that was never the subject of a selection request does not keep its selection over a
  restart unless all of its files are videos: the client skips the others but the rows say selected.
- A magnet link whose hash contains the separator once lowercased never takes up a newer tracker list.

## Model

| member | source | states |
|---|---|---|
| `Bencode.LessComparesUnits` | services/dht-enhancer.js:671 | the key order is the lexicographic order of UTF-16 units, as the default sort compares |
| `Bencode.RoundTrip` | services/dht-enhancer.js:656-681 | decoding a printed value followed by any text gives back its meaning (keys sorted, buffers as strings) and that text |
| `Bencode.DecoderIsInverse` | services/dht-enhancer.js:656-681 | the strict decoder accepts exactly the printings of normal values, both directions, so the output is canonical bencode |
| `Bencode.RoundTripsExactly` | services/dht-enhancer.js:656-681 | the round trip holds if and only if no part of the value is dropped by the printer |
| `Bencode.PrefixFree` | services/dht-enhancer.js:663-678 | no printed value is a proper prefix of another; concatenations are read in one way |
| `Bencode.PrintsAlike` | services/dht-enhancer.js:656-681 | two values print alike if and only if they have the same meaning |
| `Bencode.InsertionOrderIrrelevant` | services/dht-enhancer.js:670-678 | objects with the same properties print alike whatever the insertion order |
| `Bencode.UnprintableVanishes` | services/dht-enhancer.js:679-681 | a list holding only null prints as the empty list |
| `Bencode.ShortString` | services/dht-enhancer.js:659-660 | a short ASCII string is printed as its length, a colon and itself |
| `Bencode.SmallInteger` | services/dht-enhancer.js:661-662 | an integer is printed between i and e, with its sign |
| `Bencode.TwoItems` | services/dht-enhancer.js:663-669 | a list is printed between l and e, in order |
| `Bencode.TwoFields` | services/dht-enhancer.js:670-678 | a dictionary is printed between d and e, the smaller key first, whichever was inserted first |
| `Text.BytesVersusUnits` | services/dht-enhancer.js:659-660 | the length printed before a string is its byte length if and only if the string is ASCII |
| `Text.HexRoundTrip` | services/dht-enhancer.js:140-145 | bytes printed in hexadecimal are read back unchanged |
| `Text.AddAllInOrder` | services/dht-enhancer.js:280-287 | elements are added one by one at the end unless they are there already |
| `Compact.AddressRoundTrip` | services/dht-enhancer.js:365-366 | splitting a stored "host:port" gives back host and port |
| `Compact.CompactRoundTrip` | services/dht-enhancer.js:441-490 | peers survive packing and parsing if and only if all are canonical; then none is filtered out and each takes six bytes |
| `Compact.PackSpec` | services/dht-enhancer.js:468-490 | the six bytes are the host's numbers and the port, higher byte first, with 0 for what is no number; writing fails exactly when one does not fit |
| `Compact.ParsedPeersCanonical` | services/dht-enhancer.js:441-465 | every parsed peer has octets 0..255 and a port 1..65535 |
| `Compact.ParsedNodesCanonical` | services/dht-enhancer.js:409-438 | every parsed node has octets 0..255 and a port 1..65535 |
| `Compact.SampleNodes` | services/dht-enhancer.js:493-506 | whatever the random choices: exactly min(count, half of the known nodes rounded up), pairwise distinct, all known |
| `Compact.WriteNode` | services/dht-enhancer.js:511-524 | a written record adds 26 bytes, and for a canonical node parses back as that node after the earlier ones |
| `Compact.PackNodes` | services/dht-enhancer.js:508-526 | the 26-byte records of canonical nodes parse back to these nodes in order |
| `Compact.RandomNodesCompact` | services/dht-enhancer.js:493-527 | on canonical addresses no write throws and the buffer parses back to exactly the sampled hosts and ports |
| `Dht.SendAllKeeps` | services/dht-enhancer.js:95-198 | sending queries for a target hash keeps safety and ledger and changes only the pending table and the history |
| `Dht.DiscoverAdds` | services/dht-enhancer.js:218-220 | a sender already known keeps its place, a new one is appended |
| `DhtEvents.CleanupKeepsRecent` | services/dht-enhancer.js:580-591 | the cleanup of a running client keeps exactly the nodes heard of in the last three hours and changes nothing else |
| `Dht.StepKeeps` | services/dht-enhancer.js:213-304 | every event with every decoded message keeps the invariant and only extends the history |
| `Dht.RunSafe` | services/dht-enhancer.js:135-198 | in every reachable state: enabled implies a socket, pending get_peers hashes and known-peer keys are targets, peer sets are non-empty and canonical, every query went over a socket, and each query is either settled or waiting |
| `Dht.OutcomesAreFinal` | services/dht-enhancer.js:236-252 | no outcome ever changes in any continuation: never answered twice, never answered and timed out |
| `Dht.QueriesBalance` | services/dht-enhancer.js:114-128 | registered queries = answered + timed out + cleared + overwritten + pending, in every reachable state |
| `DhtHistory.StepExplains` | services/dht-enhancer.js:163-252 | every outcome one event adds is explained by that event |
| `DhtHistory.OutcomesAreExplained` | services/dht-enhancer.js:163-252 | in every run each settled query has exactly one event that settled it: answered by a response with its transaction id while it waited, timed out by a timer with its transaction id, cleared by a stop, or overwritten by a later query with the same id |
| `DhtHistory.RunAddressed` | services/dht-enhancer.js:88-198 | in every run, whatever messages hold, each query goes to a bootstrap node or to a dotted quad with a port 1..65535 |
| `Dht.FreshIdsNeverCollide` | services/dht-enhancer.js:179-194 | with fresh transaction ids no query is overwritten |
| `DhtEvents.TimerFires` | services/dht-enhancer.js:189-194 | a timer settles exactly the query waiting under its id and touches nothing else |
| `DhtEvents.OwnTimer` | services/dht-enhancer.js:189-194 | a query's timer settles that query or nothing when its id is not reused |
| `DhtEvents.AnnounceEither` | services/dht-enhancer.js:135-160 | announcing an info hash, as bytes or as hexadecimal text in either case with any unreadable rest, makes the printed bytes a target and asks every known node for them, in order, at its exact address |
| `DhtEvents.AnnounceIgnored` | services/dht-enhancer.js:136 | nothing happens for the empty text or while disabled |
| `Text.HexDigits` | services/dht-enhancer.js:145 | each byte is printed as its two digits 0-9, a-f, the higher one first |
| `Text.FromHexReads` | services/dht-enhancer.js:140-142 | hexadecimal text in either case is read as the bytes it prints, up to the first pair that is no byte |
| `DhtEvents.GetPeersAnswered` | services/dht-enhancer.js:213-304 | a response to a pending get_peers query answers it once, adds its peers and no others to its hash, records the sender with the time, and asks every node it names for the same hash unless the client is disabled or the callback throws over the peers |
| `DhtEvents.PeersArrive` | services/dht-enhancer.js:213-304 | peers packed for the wire arrive at the hash that was asked for, and the query is gone |
| `DhtEvents.FindNodeAnswered` | services/dht-enhancer.js:213-269 | a response to a pending find_node query answers it once, records the sender and, while fewer than 1000 nodes are known, asks every node it names |
| `DhtEvents.OtherMessages` | services/dht-enhancer.js:213-252 | any other message changes nothing but the sender's entry, an unreadable one not even that |
| `DhtEvents.RefreshAsks` | services/dht-enhancer.js:555-577 | a refresh asks min(20, known) nodes, each the one its random number points at, and the bootstrap nodes too when fewer than twenty are known |
| `DhtEvents.Disconnects` | services/dht-enhancer.js:57-69 | an error drops socket and flag, a close the flag; everything learned stays |
| `DhtEvents.ConnectionFails` | services/dht-enhancer.js:47-81 | connecting while running or without a socket, and binding without a usable socket, change nothing |
| `Dht.StartUp` | services/dht-enhancer.js:47-92 | connect and bind enable the client and query each bootstrap node once |
| `Dht.SilentWhileDisabled` | services/dht-enhancer.js:599-619 | while disabled no event but the bind callback enables the client or registers a query |
| `DhtEvents.StopForgets` | services/dht-enhancer.js:618-638 | stopping a running client empties every table and clears every waiting query; stopping a stopped one changes nothing |
| `Dht.ValuesAreKnownPeers` | services/dht-enhancer.js:351-381 | in every reachable state a values reply has one six-byte entry a known peer, which parse back to the stored set |
| `DhtClient.DhtEnhancer.constructor` | services/dht-enhancer.js:30-39 | the object starts in the initial state, which satisfies the invariant |
| `DhtClient.DhtEnhancer.OnConnectCall` | services/dht-enhancer.js:47-52 | refines the connect step and keeps the invariant |
| `DhtClient.DhtEnhancer.OnBindCallback` | services/dht-enhancer.js:72-81 | refines the bound step and keeps the invariant; a null socket makes it throw before enabling |
| `DhtClient.DhtEnhancer.ConnectToBootstrapNodes` | services/dht-enhancer.js:88-92 | sends to each bootstrap node |
| `DhtClient.DhtEnhancer.SendQuery` | services/dht-enhancer.js:163-210 | refines one query: send attempt, registration, overwrite of an equal id |
| `DhtClient.DhtEnhancer.SendToEach` | services/dht-enhancer.js:88-92 | the loop sends one query an element, in order |
| `DhtClient.DhtEnhancer.AnnounceInfoHash` | services/dht-enhancer.js:135-160 | refines the announce step and keeps the invariant |
| `DhtClient.DhtEnhancer.AskKnownNodes` | services/dht-enhancer.js:148-154 | the loop asks every known node, in order |
| `DhtClient.DhtEnhancer.HandleMessage` | services/dht-enhancer.js:213-233 | refines the receive step and keeps the invariant, for any decoded message |
| `DhtClient.DhtEnhancer.HandleResponse` | services/dht-enhancer.js:236-252 | refines the response step; unknown transactions change nothing |
| `DhtClient.DhtEnhancer.ProcessFindNodeResponse` | services/dht-enhancer.js:255-269 | the loop with its size test refines the find_node reply |
| `DhtClient.DhtEnhancer.ProcessGetPeersResponse` | services/dht-enhancer.js:272-304 | the loops refine the get_peers reply, also when the callback throws |
| `DhtClient.DhtEnhancer.ContinueWith` | services/dht-enhancer.js:294-303 | the loop asks every named node, in order, if the hash is a target |
| `DhtClient.DhtEnhancer.RecordPeers` | services/dht-enhancer.js:280-287 | the peer set grows by the found addresses |
| `DhtClient.DhtEnhancer.OnTimer` | services/dht-enhancer.js:190-194 | refines the timeout step and keeps the invariant |
| `DhtClient.DhtEnhancer.RefreshConnections` | services/dht-enhancer.js:555-577 | refines the refresh step and keeps the invariant |
| `DhtClient.DhtEnhancer.SendToPicked` | services/dht-enhancer.js:564-571 | one query a random pick |
| `DhtClient.DhtEnhancer.CleanupOldNodes` | services/dht-enhancer.js:580-591 | refines the node cleanup and keeps the invariant |
| `DhtClient.DhtEnhancer.Reconnect` | services/dht-enhancer.js:599-609 | drops socket and flag together and keeps the invariant |
| `DhtClient.DhtEnhancer.OnClose` | services/dht-enhancer.js:66-69 | refines the close step and keeps the invariant |
| `DhtClient.DhtEnhancer.StopClient` | services/dht-enhancer.js:618-638 | refines the stop step and keeps the invariant |
| `DhtClient.DhtEnhancer.ForgetAll` | services/dht-enhancer.js:618-638 | clears all tables of a running client and the queries that waited |
| `DhtClient.DhtEnhancer.RespondToGetPeers` | services/dht-enhancer.js:351-398 | known peers are returned exactly; otherwise min(20, half of the known nodes, rounded up) distinct nodes, all of them known |
| `FileIndex.UpdateGains` | services/db-service.js:356-383 | an index write gains exactly one row that carries its own position; no update loses one |
| `FileIndex.RepairsAreBounded` | server.js:229-251 | over any passes the index writes equal the fixed rows gained, so at most one a row, ever |
| `FileIndex.QuietMeansPermuted` | services/db-service.js:356-371 | a full pass without index write has found the indices to be a permutation of 0..n-1 |
| `FileIndex.PermutedPass` | server.js:229-251 | on a permutation a pass of any length writes each row whose index it reaches once and changes progress only |
| `FileIndex.StablePass` | server.js:229-251 | from a permutation on, each full pass writes every row exactly once, with the clamped progress of the file its index names |
| `FileIndex.Stabilises` | services/db-service.js:343-390 | from any indices, as many full passes as rows are not yet fixed make a permutation for good |
| `FileIndex.PassIndices` | services/db-service.js:356-371 | every index after a pass, as a condition on the indices before it |
| `FileIndex.OnePassSuffices` | services/db-service.js:356-371 | from any indices, one full pass makes a permutation if and only if every index below n is written or kept, read off the indices before the pass |
| `FileIndex.OnePassMayNotSuffice` | services/db-service.js:360-369 | indices 1, 1, 0, which this server never stores: one pass leaves no permutation |
| `FileIndex.OwnOrZeroKept` | services/db-service.js:356-383 | updates in any order keep every index 0 or the row's own position |
| `FileIndex.PermutedKept` | server.js:184-199 | rows created with the file indices in any stored order: updates in any order leave the indices alone |
| `FileIndex.ServerRowsNeedOnePass` | services/torrent-service.js:356-362 | for rows created without indices, or with the file indices in any stored order, one full pass after any updates leaves a permutation: own positions in the first case, the same indices in the second |
| `FileIndex.FreshRowsSettleAtOnce` | services/torrent-service.js:356-362 | rows created with index 0: one pass gives row k index k and progress k, later passes change progress only |
| `FileStore.FileTable.constructor` | services/torrent-service.js:356-362 | new rows: index 0, progress 0, selected |
| `FileStore.FileTable.UpdateFileProgress` | services/db-service.js:343-390 | refines the update; the written row is returned, or null when there is none |
| `FileStore.FileTable.ProgressPass` | server.js:229-251 | the loop refines the pass and counts its index writes |
| `FileStore.FileTable.UpdateSelection` | services/db-service.js:251-282 | every row is selected exactly if its position is; no rows give false |
| `FileStore.SelectFiles` | routes/api-routes.js:593-604 | the client selects exactly the given positions |
| `FileStore.RestoreSelection` | services/torrent-service.js:436-451 | stored flags are applied by position when the counts agree, else nothing changes |
| `FileStore.SelectionSurvivesRestart` | services/torrent-service.js:436-451 | after a selection and any progress passes the restart selects exactly the selected positions |
| `FileStore.FromLastDotSpec` | services/torrent-service.js:220-221 | the extension is the shortest suffix of the name that starts with a dot, empty exactly without a dot |
| `FileStore.VideoNames` | services/torrent-service.js:216-221 | a file counts as a video exactly when the last part of its path is a non-empty stem and a listed extension in any case |
| `FileStore.SelectVideos` | services/torrent-service.js:219-231 | the loop selects exactly the files whose lowercased extension is a listed one |
| `FileStore.DefaultSelectionSurvivesOnlyVideos` | services/torrent-service.js:219-231 | without a selection request the restart keeps what that loop selected if and only if all files are videos |
| `FileStore.DefaultSelectionLost` | services/torrent-service.js:226-230 | one file without an extension: skipped before, selected after the restart |
| `Disk.SizeSplits` | services/disk-manager.js:71-93 | real size = measured + hidden below unlistable directories; measured is real if and only if nothing is hidden |
| `Disk.ReadableMeasured` | services/disk-manager.js:71-93 | in a readable tree every byte is measured, in an unlistable directory none |
| `Disk.GetDirSize` | services/disk-manager.js:71-93 | the recursive loop returns the measured size: all file sizes, a directory that cannot be listed counting as empty |
| `Disk.DeleteOutcome` | services/disk-manager.js:291-324 | recursive deletion returns normally if and only if nothing inside resists; otherwise a pruned tree is left |
| `Disk.FailedDeletionLeaves` | services/disk-manager.js:291-324 | a failed deletion leaves exactly the locked files before the first directory that does not go away, what is left of that one, and everything after it; an unlistable directory stays whole |
| `Disk.RecursiveDelete` | services/disk-manager.js:291-324 | the loop, with its abort on a nested throw, computes that outcome |
| `Disk.DeleteFreesSubtree` | services/disk-manager.js:291-324 | a normal return lowers the enclosing size, real and measured, by exactly the subtree's size; a throw keeps both between that and the old size |
| `Eviction.SortSpec` | services/disk-manager.js:120-123 | the order used is by time, keeps all entries and is stable |
| `Eviction.OldestIn` | services/disk-manager.js:96-128 | the pick is a directory whose name is not registered, no younger than any other such and older than those listed before it; none is picked exactly when every entry is registered or a plain file |
| `Eviction.RoundTriesOldest` | services/disk-manager.js:170-193 | a round tries that directory: removed, it leaves the listing and its measured size is written off; otherwise its remainder stays in its place and nothing is written off |
| `Eviction.AccountingIsSound` | services/disk-manager.js:167-193 | at every loop head, for any tree and any failed or partial removals: measured size <= 90% of the limit + sizeToFree, real size at most the hidden bytes more; every entry with a registered name and every plain file is still there, and every removed entry was an unregistered directory |
| `Eviction.CoversRealExactly` | services/disk-manager.js:167-193 | that account covers the real size at every loop head if and only if nothing is hidden at the start |
| `Eviction.CleanupExit` | services/disk-manager.js:170-197 | at the end: measured size at most 90% (real up to hidden bytes), or every entry registered or a plain file, or ten attempts made |
| `Eviction.RealExit` | services/disk-manager.js:170-197 | with nothing hidden: real size at most 90%, or no candidate left, or ten attempts made |
| `Eviction.HiddenBytesStopEarly` | services/disk-manager.js:89-92 | a tree with one unlistable directory: the loop stops after one attempt, over the limit, with a candidate left |
| `Eviction.OldestBlocks` | services/disk-manager.js:170-193 | if the oldest directory never yields, every attempt goes to it and nothing is freed |
| `Eviction.EvictsShortestPrefix` | services/disk-manager.js:96-193 | if the attempted removals succeed, exactly the shortest prefix sufficient for the measured sizes of the once-sorted inactive directories is removed, cut at ten; the order holds exactly the unregistered directories, by time |
| `Eviction.SureRemover` | services/disk-manager.js:183-193 | a remover that never fails meets that hypothesis |
| `Eviction.RealExitExactly` | services/disk-manager.js:143-193 | if the removals succeed, the exit condition holds of the real sizes if and only if the shortest prefix sufficient for the measured sizes is sufficient for the real ones |
| `Eviction.EnoughIsReal` | services/disk-manager.js:143-193 | with nothing hidden, a prefix suffices for the measured sizes if and only if it does for the real ones |
| `Eviction.DiskManager.GetOldestInactiveTorrent` | services/disk-manager.js:96-128 | the listing loop picks the head of the stable sort |
| `Eviction.DiskManager.Attempt` | services/disk-manager.js:170-193 | one round: pick, measure, remove, account |
| `Eviction.DiskManager.Evict` | services/disk-manager.js:170-193 | the loop ends where ten rounds of the specification end: entries, removed directories and attempts |
| `Eviction.DiskManager.PerformCleanup` | services/disk-manager.js:143-206 | default limit, early return below the limit, the loop with its exit condition, and that registered names and plain files stay, only unregistered directories are removed and neither measured nor hidden bytes grow |
| `Eviction.DiskManager.DeletePath` | services/disk-manager.js:291-324 | a missing path is fine, a plain file throws, a directory is deleted in place and nothing else changes |
| `Magnet.ComponentRoundTrip` | utils/tracker-utils.js:89-93 | percent-decoding undoes percent-encoding for every text |
| `Magnet.EnhanceTwice` | utils/tracker-utils.js:99-122 | enhancing again under a later list equals enhancing the original under it, except for odd hashes, which keep the earlier list |
| `Magnet.EnhanceIdempotent` | utils/tracker-utils.js:67-122 | for a fixed list enhancing is idempotent, for every link |
| `Magnet.LaterListTakenUp` | utils/tracker-utils.js:99-122 | a later list is taken up if and only if it is the same or the hash is not odd |
| `Magnet.OddHashes` | utils/tracker-utils.js:102-110 | a family of accepted links whose hash is odd |
| `Magnet.LinkIsFaithful` | utils/tracker-utils.js:84-122 | splitting and decoding an enhanced link gives back the lowercased hash and the tracker list in order |
| `Magnet.HashIsKept` | utils/tracker-utils.js:67-110 | the hash in the enhanced link is the text between the first separator and the next ampersand with each capital made the small letter and every other character kept |
| `Magnet.CaseIrrelevant` | utils/tracker-utils.js:67-110 | links whose hashes differ in case only are enhanced to the same link |
| `Magnet.OthersUntouched` | utils/tracker-utils.js:99-110 | links without the separator or with a hash of another length are returned as they are |
| `Magnet.EncodedSafe` | utils/tracker-utils.js:89-93 | a printed tracker holds only letters, digits, nine marks and the percent sign |
| `Magnet.PlainKept` | utils/tracker-utils.js:89-93 | text of letters, digits and these marks is printed as it is |
| `Text.TrimSpec` | utils/tracker-utils.js:49 | trimming a line gives a non-empty text exactly when the line is that text, bare at both ends, between white space |
| `Text.JoinSplit` | utils/tracker-utils.js:48 | every text is its split parts joined, none of which holds the separator |
| `Trackers.ListedExactly` | utils/tracker-utils.js:47-51 | a line is accepted exactly when the text, taken apart at its line feeds, has a line that is it with white space around and it begins with http or udp |
| `Trackers.UpdateSpec` | utils/tracker-utils.js:29-64 | an update keeps the list in force as a prefix, without repeats, and adds exactly such lines of the sources that answered |
| `Trackers.TrackersOverRuns` | utils/tracker-utils.js:125-138 | after any updates: no repeats, every earlier list is a prefix, exactly the defaults and all such lines ever offered |
| `Trackers.CompletionOrderIrrelevant` | utils/tracker-utils.js:41-57 | the completion order of the sources does not change the set |
| `Trackers.TrackerList.constructor` | utils/tracker-utils.js:13 | the list starts as the defaults |
| `Trackers.TrackerList.GetDefaultTrackers` | utils/tracker-utils.js:16-26 | the list in force is never empty |
| `Trackers.TrackerList.UpdateTrackersList` | utils/tracker-utils.js:125-138 | refines one update, source by source, with its result: the list in force as a prefix, no repeats, exactly the offered lines added |
| `Trackers.TrackerList.GetEnhancedMagnetURI` | utils/tracker-utils.js:99-122 | the accumulating loop prints the enhanced link |
| `Ranges.RangeRoundTrip` | routes/stream-routes.js:42-44 | "bytes=a-b" is read back as a and b |
| `Ranges.OpenRangeRoundTrip` | routes/stream-routes.js:42-44 | "bytes=a-" is read back as a and the last byte |
| `Ranges.UnitAnywhere` | routes/stream-routes.js:42 | the first "bytes=" is dropped wherever it is |
| `Ranges.UnitOptional` | routes/stream-routes.js:42 | a range without the unit is read in the same way |
| `Text.ParseIntReads` | routes/stream-routes.js:43-44 | white space, an optional sign and digits are read as the signed number, whatever follows |
| `Text.ParseIntFails` | routes/stream-routes.js:43-44 | without a digit there the result is NaN |
| `Ranges.RequestsReadBack` | routes/stream-routes.js:334-337 | every piece of a cut file is read back with its own bounds |
| `Ranges.PiecesMakeTheFile` | routes/stream-routes.js:41-57 | for every cut into consecutive non-empty pieces the streamed bodies make up the file and the lengths add up |

## Left out

- `bdecode` is a placeholder in the source: decoded messages are arbitrary here and the bencode results use a specification decoder.
- Bencode.RoundTrip: is about the printed text, whose lengths count UTF-16 units; a reader of the bytes on the wire agrees on lengths only for ASCII (`Text.BytesVersusUnits`).
- Bencode.RoundTrip: nested buffers with bytes of 128 or above, strings with lone surrogates and numbers that are not integers or print with an exponent are not modelled.
- Dht.RunSafe: promises no bound on the known nodes and no end of the search; the source has neither.
- Dht.RunSafe: the client callback is a possible exception only; a callback that calls back into the client is not modelled.
- Disk.GetDirSize: a listed entry whose `stat` fails, such as a dangling link, is not modelled; the sum would stop at it.
- Disk.RecursiveDelete: works on tree values; the tree is replaced as a whole rather than updated on a heap.
- Eviction.AccountingIsSound: sizes are exact integers scaled by ten; rounding of the factor 0.9 is not modelled.
- FileStore.SelectVideos: `path.extname` is the POSIX one; backslashes separate nothing.
- FileIndex.StablePass: progress is a real number; NaN is not modelled.
- Magnet.EnhanceIdempotent: only ASCII letters are lowercased, here and in file extensions; characters outside ASCII are kept as they are.
- Overlapping timers, deletes and re-adds of a torrent: the source takes no locks and promises nothing there.
- Suffix ranges, several ranges and ends beyond the file: the handlers do not validate them.
- Adding, pausing and resuming torrents, client event wiring, HTTP answers, database internals, sockets, logging, configuration and the web page: input/output or behaviour of libraries.
- The conversion of big integers for JSON and the merging of running and stored torrents into one list: neither keeps state nor takes part in any property above.
