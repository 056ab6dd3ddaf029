# Chunked, replicated file store — a verified model

The program modelled is a small distributed file store built on MPI. Rank 0
is the coordinator and every other rank is a storage node.

The coordinator reads command lines from standard input:
- `upload name path` cuts the file into 32-byte chunks and places each chunk
  on up to three live, least-loaded nodes.
- `retrieve name` reassembles the file from the live nodes' replies.
- `search name word` looks for the word where it follows a space, and tries
  to confirm matches that cross a chunk boundary by asking a replica of the
  next chunk. That check aligns the word one byte off from the scan, so it
  rejects some real cross-boundary matches.
- `list_file name` prints the live replicas of every chunk.
- `failover k` and `recover k` stop and restart node k's heartbeats.
- `exit` shuts everything down.

A background monitor reports a node dead once its last heartbeat is more
than three seconds old.

Each message exchange of the original becomes a sequence in the model. The
replies of node k are a function of its chunk store, and the chunks sent to
node k are a returned batch. The modules follow the program's parts:

- `Chunks`: the 32-byte chunking of file content; bytes past the end read as zero.
- `Sorting`, `Placement`: the `(node, load)` table, sorted by load before each
  chunk is placed; the planner that takes up to three alive nodes and charges them.
- `Catalog`: the append-only file table, with ids handed out as size + 1 and lookup
  by first matching name.
- `StorageNode`: a node's store as a class. It covers the opcode dispatch, storing
  received chunks, the retrieve filter, and the two halves of the node's search.
- `NodeSearch`: the node-side scan for "space + word", and the boundary
  verification a neighbouring chunk's replica runs.
- `Reconcile`: the coordinator's search pipeline. It merges, classifies, routes,
  folds the answers back, then sorts and reports.
- `WordSearch`: that pipeline run end to end over the node reports.
- `Retrieval`: the reassembly of a retrieved file, including its quirk. The
  `break` leaves only the innermost loop, so a chunk is printed once per live
  node holding it.
- `Listing`: `list_file`.
- `Commands`: the prefix dispatch of command lines, the `name rest` split and
  `std::stoi`.
- `Coordinator`: the coordinator's state as a class. It holds the heartbeat
  table, the status table, the load table (an array) and the catalog, with one
  method per command plus the monitor tick. It also proves what an upload
  followed by a retrieval prints. When exactly one replica of each chunk is
  alive, that is the file itself. When a chunk has more live replicas, each
  extra copy is printed in full right after that chunk, so the output is
  longer than the file by 32 bytes per extra copy.

The program's odd behaviours are modelled as it is written:
- the chunk fill reads past the end of the content;
- retrieve duplicates chunks;
- boundary verification indexes the node's store by position;
- verification aligns the word one byte differently from the scan;
- routing walks a fixed three replica slots.

The lemma `NodeSearch.SplitWordRejected` shows a whole word split across two
chunks that the scan reports and the verification rejects.

## Model

| member | source | states |
|---|---|---|
| Chunks.SplitContent | 2021111003/3/3.cpp:103-116 | (len+31)/32 blocks of 32 bytes; byte j of block i is content[32i+j], or zero past the end |
| Chunks.ChunkObjects | 2021111003/3/3.cpp:121-131 | chunk i carries the file id, index i and block i |
| Chunks.ChunkCountBounds | 2021111003/3/3.cpp:103 | the chunk count covers the content with less than one chunk to spare |
| Chunks.SplitRoundTrip | 2021111003/3/3.cpp:103-116 | concatenating the blocks gives back the content followed by zero padding shorter than a chunk |
| Chunks.FlattenAt | 2021111003/3/3.cpp:103-116 | byte x of the concatenated blocks is byte x mod 32 of block x div 32 |
| Sorting.SortBy | 2021111003/3/3.cpp:137-138 | the table is sorted by load and is a permutation of the old one |
| Placement.PermutedTable | 2021111003/3/3.cpp:137-138 | sorting keeps one row per node and every node's load |
| Placement.TakeLeastLoaded | 2021111003/3/3.cpp:140-157 | the scan takes the alive rows in table order, up to three, and charges exactly those rows one unit |
| Placement.ChosenIffScanned | 2021111003/3/3.cpp:140-157 | a node is chosen iff its row was reached by the scan and it is alive |
| Placement.ChargedLoads | 2021111003/3/3.cpp:146-148 | each chosen node's load rises by one; every other load is unchanged |
| Placement.ChosenNodes | 2021111003/3/3.cpp:140-157 | the chosen nodes are distinct; fewer than three only when every alive node is chosen |
| Placement.ChosenLeastLoaded | 2021111003/3/3.cpp:137-157 | chosen nodes come in ascending load, and no unchosen alive node is less loaded than a chosen one |
| Placement.PlaceChunk | 2021111003/3/3.cpp:135-157 | one chunk's placement: alive distinct replicas, at most three, least loaded first, loads charged by one |
| Placement.ReplicaCount | 2021111003/3/3.cpp:140-157 | such a choice has exactly min(3, number alive) replicas |
| Placement.AliveCount | 2021111003/3/3.cpp:145 | the number of alive nodes is the size of the set of alive indices |
| Placement.RowsOccurOnce | 2021111003/3/3.cpp:870-874 | a table with one row per node holds each row at most once |
| Placement.LoadOfAt | 2021111003/3/3.cpp:870-874 | row i of the table records the load of its node |
| Catalog.Lookup | 2021111003/3/3.cpp:229-243 | the first entry with the name, or none iff no entry has it |
| Catalog.FindFile | 2021111003/3/3.cpp:362-375 | the lookup loop finds the entry that Lookup names |
| Catalog.LookupAfterAppend | 2021111003/3/3.cpp:193 | appending an entry leaves every earlier lookup unchanged and makes the new name findable |
| Catalog.AppendWellFormed | 2021111003/3/3.cpp:101-193 | appending the entry with id size+1 keeps ids equal to position+1 and replicas within the table |
| Commands.SplitNameRest | 2021111003/3/3.cpp:90-93 | the name holds no space; with a space, line = name + " " + rest; without one, both parts are the whole line |
| Commands.SplitNameRoundTrip | 2021111003/3/3.cpp:90-93 | a name without spaces and any rest split back apart |
| Commands.FindSpace | 2021111003/3/3.cpp:91 | the position of the first space, or none iff there is no space |
| Commands.Suffix | 2021111003/3/3.cpp:887-917 | substr(k) succeeds iff k is at most the length and returns the rest of the line |
| Commands.DecimalValue | 2021111003/3/3.cpp:922 | the decimal numeral of n has value n |
| Commands.ParseNumeral | 2021111003/3/3.cpp:919-933 | stoi reads back the numeral of every integer, negative ones included |
| Commands.ParseUpload | 2021111003/3/3.cpp:887-893 | "upload", one separator and the arguments dispatch to upload with those arguments |
| Commands.ParseRetrieve | 2021111003/3/3.cpp:895-901 | likewise for retrieve, which no earlier keyword captures |
| Commands.ParseSearch | 2021111003/3/3.cpp:903-909 | likewise for search |
| Commands.ParseListFile | 2021111003/3/3.cpp:911-917 | likewise for list_file |
| Commands.ParseFailover | 2021111003/3/3.cpp:919-925 | "failover" with a numeral dispatches to failover of that node |
| Commands.ParseRecover | 2021111003/3/3.cpp:927-933 | "recover" with a numeral dispatches to recover of that node |
| Commands.BareKeywords | 2021111003/3/3.cpp:887-941 | a bare keyword throws on its substr, except exit, which needs nothing after it |
| StorageNode.Decode | 2021111003/3/3.cpp:973-1004 | the node ignores an opcode iff it is not 0, 1, 2, 4, 5 or 6 |
| StorageNode.OpcodeRoundTrip | 2021111003/3/3.cpp:973-1004 | every request the coordinator sends decodes as itself, and every opcode the node acts on is the one its request sends |
| StorageNode.FileChunks | 2021111003/3/3.cpp:342-348 | a node's reply holds exactly its chunks with the file id, and no more chunks than the store |
| StorageNode.FileChunksAppend | 2021111003/3/3.cpp:342-348 | the filter distributes over appending to the store, as an upload does at line 218 |
| StorageNode.FileChunksOwn | 2021111003/3/3.cpp:342-348 | a store of one file's chunks is returned whole, in order |
| StorageNode.Node.constructor | 2021111003/3/3.cpp:949-955 | a node starts with an empty store, heartbeats on and not stopped |
| StorageNode.Node.Control | 2021111003/3/3.cpp:994-1003 | 4 turns heartbeats off, 5 back on, 6 stops the node; the store is untouched |
| StorageNode.Node.ReceiveChunks | 2021111003/3/3.cpp:207-219 | the batch is appended to the store |
| StorageNode.Node.Retrieve | 2021111003/3/3.cpp:333-352 | the reply is the store's chunks of the file, in store order |
| StorageNode.Node.Search | 2021111003/3/3.cpp:636-701 | the hits are the scan of every chunk of the file, in store order |
| StorageNode.Node.Verify | 2021111003/3/3.cpp:703-755 | the answers are the boundary verdicts on the requests, or undefined when a request reads past the store |
| NodeSearch.ScanFromMeans | 2021111003/3/3.cpp:646-668 | the comparison loop accepts iff the chunk matches "space + word" from that index as far as the chunk goes, and a blank byte follows when there is room |
| NodeSearch.MatchAtMeans | 2021111003/3/3.cpp:644-674 | a scan match at j means a space at j, then the word, then a space or zero if the chunk has room |
| NodeSearch.ScanOffsets | 2021111003/3/3.cpp:644-674 | the hits up to offset n are exactly (j+1, chunk) for each match at j |
| NodeSearch.ScanChunk | 2021111003/3/3.cpp:629-693 | a chunk's hits are the (j+1, chunk) matches, plus (0, 0) iff chunk 0 starts with the word |
| NodeSearch.ScanStoreHits | 2021111003/3/3.cpp:636-696 | a hit is reported iff some chunk of the file in the store yields it |
| NodeSearch.ScanStoreShaped | 2021111003/3/3.cpp:669-693 | every reported hit has position at most 32, and position 0 only in chunk 0 |
| NodeSearch.CheckFromMeans | 2021111003/3/3.cpp:723-743 | the verification loop accepts iff the chunk's leading bytes match the shifted pattern and a blank follows |
| NodeSearch.VerifyBoundaryMeans | 2021111003/3/3.cpp:716-752 | for a word without zero bytes and 1 <= p < 32: verification at p accepts iff byte t of the next chunk is the word's byte t+31-p for every t the word reaches, then a blank byte follows (one byte earlier than the scan left off) |
| NodeSearch.VerifyBoundaryAtEnd | 2021111003/3/3.cpp:716-752 | for p = 32: verification accepts iff the next chunk starts with a space, then the word, then a blank byte -- the scan's own test at offset 0 |
| NodeSearch.SplitWordRejected | 2021111003/3/3.cpp:663-725 | a whole word split across two chunks that the scan reports and the verification rejects |
| NodeSearch.Answer | 2021111003/3/3.cpp:716-722 | a request has a verdict iff its chunk index is within the store and its position within a chunk |
| NodeSearch.VerifyRequests | 2021111003/3/3.cpp:703-755 | the answers are undefined iff some request reads past the store; otherwise one verdict per request |
| Reconcile.Contains | 2021111003/3/3.cpp:452-460 | the duplicate test is membership |
| Reconcile.MergeHits | 2021111003/3/3.cpp:446-469 | the merged list has no duplicates and holds exactly the hits some node reported |
| Reconcile.Classify | 2021111003/3/3.cpp:471-497 | a hit is valid at once iff it is (0, 0), it ends inside its chunk, or it ends exactly at the end of the last chunk |
| Reconcile.ValidScanHitIsWholeWord | 2021111003/3/3.cpp:474-496 | a scan hit (lines 629-693) that is valid at once is a space, the word, then a blank or the chunk end |
| Reconcile.UnflaggedMembers | 2021111003/3/3.cpp:499-507 | the pending list holds exactly the merged hits not yet valid |
| Reconcile.CollectPending | 2021111003/3/3.cpp:499-507 | the collection loop builds that pending list |
| Reconcile.Pick | 2021111003/3/3.cpp:512-523 | a chosen replica is alive and belongs to the chunk |
| Reconcile.PickFrom | 2021111003/3/3.cpp:512-523 | with a live replica among three slots, the pick is the first live one |
| Reconcile.PickFirstAlive | 2021111003/3/3.cpp:512-523 | a routed hit goes to the first live replica of the next chunk |
| Reconcile.PickReplica | 2021111003/3/3.cpp:514-523 | the routing loop computes that pick |
| Reconcile.RequestsForMembers | 2021111003/3/3.cpp:509-525 | node k is asked to check r iff some pending hit routed to k asks for r |
| Reconcile.Route | 2021111003/3/3.cpp:509-525 | routing is undefined iff some pending hit reads past the replica table; otherwise node k gets exactly its requests |
| Reconcile.Owner | 2021111003/3/3.cpp:562-570 | a verdict goes to the first merged hit the request checks, or nowhere when none does |
| Reconcile.FindOwner | 2021111003/3/3.cpp:562-570 | the search loop finds that owner |
| Reconcile.Fold | 2021111003/3/3.cpp:557-583 | every flag ends as the last verdict on its hit, or stays as it was when no verdict reaches it |
| Reconcile.LastAnswerUniform | 2021111003/3/3.cpp:557-583 | when all answers owned by a hit agree, the last one is that answer |
| Reconcile.VerdictUniform | 2021111003/3/3.cpp:557-583 | the same holds across all nodes' replies |
| Reconcile.ValidFlags | 2021111003/3/3.cpp:471-497 | the first flags are the valid-at-once test, hit by hit |
| Reconcile.OwnedRequest | 2021111003/3/3.cpp:509-583 | a request that reaches hit k is k's own, sent to the replica k was routed to |
| Reconcile.OwnRequestSent | 2021111003/3/3.cpp:509-583 | a pending hit's own request reaches it |
| Reconcile.FoldedVerdict | 2021111003/3/3.cpp:471-583 | each hit's final flag is whether it is confirmed: valid at once, or accepted by its routed replica |
| Reconcile.FlaggedOffsetsMeaning | 2021111003/3/3.cpp:585-609 | one offset per flag that ends true, and an offset is listed iff a valid hit has it |
| Reconcile.OffsetInjective | 2021111003/3/3.cpp:600 | two different hits of the scan's shape have different file offsets |
| Reconcile.CountTrueDistinct | 2021111003/3/3.cpp:585-594 | over a merged list without duplicates, the number of true flags is the number of distinct flagged hits |
| Reconcile.FlaggedOffsetsDistinct | 2021111003/3/3.cpp:595-602 | distinct hits of the scan's shape give valid offsets without duplicates |
| Reconcile.Report | 2021111003/3/3.cpp:585-609 | the count equals the number of valid hits and of offsets; offsets are ascending and are a permutation of the valid ones |
| WordSearch.PendingMembers | 2021111003/3/3.cpp:471-507 | the pending hits are the reported hits not valid at once |
| WordSearch.NoRequestsForDead | 2021111003/3/3.cpp:512-523 | a dead node is never asked to check |
| WordSearch.RoutedPastEnd | 2021111003/3/3.cpp:509-525 | routing reads out of bounds iff some pending reported hit's route does |
| WordSearch.VerifiedPastStore | 2021111003/3/3.cpp:527-555 | some node's verification (lines 716-722) reads past its store iff some pending hit's check does |
| WordSearch.ConfirmedOffsets | 2021111003/3/3.cpp:585-609 | the printed offsets are exactly those of the reported hits that end confirmed |
| WordSearch.CheckRequests | 2021111003/3/3.cpp:527-555 | the verification round is undefined iff some node's answers are; otherwise each node's answers are its verdicts |
| WordSearch.ConfirmedCount | 2021111003/3/3.cpp:585-594 | the number of true final flags is the number of distinct reported hits that end confirmed |
| WordSearch.ConfirmedOffsetsAscending | 2021111003/3/3.cpp:595-609 | when every reported hit has the scan's shape, the sorted offsets strictly ascend |
| WordSearch.Conclude | 2021111003/3/3.cpp:557-609 | after the fold, the count is the number of distinct confirmed reported hits and the number of offsets; the offsets are sorted (strictly, for hits of the scan's shape) and exactly the offsets of confirmed reported hits |
| WordSearch.Resolve | 2021111003/3/3.cpp:444-609 | never rejects; undefined iff a route or a check reads out of bounds; otherwise the count is the number of distinct confirmed reported hits and of offsets, and the offsets, sorted (strictly, for hits of the scan's shape), are exactly those of the confirmed reported hits |
| Retrieval.FirstWithId | 2021111003/3/3.cpp:292-300 | the first chunk of a reply with the index, or none iff the reply has none |
| Retrieval.Copies | 2021111003/3/3.cpp:290-301 | one copy of chunk i per reply that holds it |
| Retrieval.CopyFrom | 2021111003/3/3.cpp:290-301 | every copy has index i and was sent by some node |
| Retrieval.CollectCopies | 2021111003/3/3.cpp:290-301 | the middle loop collects those copies and counts their holders |
| Retrieval.AssembleChunks | 2021111003/3/3.cpp:286-302 | the outer loop assembles the copies of chunks 0 .. n-1 in order and counts each chunk's holders |
| Retrieval.FirstWithIdAt | 2021111003/3/3.cpp:292-300 | the first chunk with the index is found where it first occurs |
| Retrieval.TrimAtZero | 2021111003/3/3.cpp:314-330 | the last chunk is printed up to its first zero byte |
| Retrieval.Reassemble | 2021111003/3/3.cpp:304-330 | the printed outcome: -1 when a chunk has no holder, out of bounds for an empty file, else the chunks with the last trimmed |
| Retrieval.AssembledChunk | 2021111003/3/3.cpp:286-302 | every assembled chunk has an index below n and carries that index's block |
| Retrieval.AssembledLength | 2021111003/3/3.cpp:286-302 | the number of assembled chunks is the total number of copies |
| Retrieval.CopyData | 2021111003/3/3.cpp:290-301 | when replicas agree, every copy of chunk i carries block i |
| Retrieval.AssembledOnce | 2021111003/3/3.cpp:286-302 | with one holder per chunk, the assembled data is the blocks in order |
| Retrieval.TrimExact | 2021111003/3/3.cpp:314-330 | trimming stops at the first zero |
| Retrieval.LastBlock | 2021111003/3/3.cpp:314-330 | the trimmed last block of a zero-free file, chunked as at lines 103-116, is its tail |
| Retrieval.RetrieveRoundTrip | 2021111003/3/3.cpp:221-331 | with one holder per chunk, retrieval prints the zero-free file byte for byte |
| Retrieval.AssembledExpanded | 2021111003/3/3.cpp:286-302 | the assembled chunks carry block i once per holder of chunk i, all copies of block i before block i+1 |
| Retrieval.ExpandedOnce | 2021111003/3/3.cpp:286-302 | with one holder per chunk that layout is the blocks themselves |
| Retrieval.OutputExpanded | 2021111003/3/3.cpp:286-330 | the output is every copy in full but the last, which is block n-1 trimmed at its first zero |
| Retrieval.RetrieveWithReplicas | 2021111003/3/3.cpp:221-331 | with at least one holder per chunk, the output is every copy of every chunk in chunk order, the surplus copies of chunk i before chunk i+1, the last copy replaced by the file's tail; its length is the file's length plus 32 bytes per surplus copy |
| Retrieval.ReplicatedOutput | 2021111003/3/3.cpp:286-330 | the printed length is 32 per copy but the last, plus the trimmed last block |
| Retrieval.LastCopy | 2021111003/3/3.cpp:286-302 | the last assembled chunk is a copy of the last index |
| Retrieval.TotalCopiesAtLeast | 2021111003/3/3.cpp:286-302 | with a holder per chunk there are at least as many copies as chunks |
| Retrieval.TotalCopiesAbove | 2021111003/3/3.cpp:286-302 | a second holder of any chunk adds a surplus copy |
| Retrieval.RetrieveDuplicates | 2021111003/3/3.cpp:290-301 | a chunk held by two live nodes makes the output at least 32 bytes longer than the file |
| Retrieval.HoldersCount | 2021111003/3/3.cpp:290-301 | the holder count is the number of replies holding the chunk |
| Listing.LiveRanks | 2021111003/3/3.cpp:793-799 | a rank is printed iff it is one more than a recorded replica that is alive |
| Listing.CountMatchesRanks | 2021111003/3/3.cpp:783-799 | the printed count is the number of ranks printed after it |
| Listing.LiveRanksDistinct | 2021111003/3/3.cpp:793-799 | distinct replicas give distinct ranks |
| Listing.LiveRanksInOrder | 2021111003/3/3.cpp:793-799 | rank i is one more than the node at the i-th live position of the replica list; those positions ascend and every live position is printed |
| Listing.CountAliveCardinality | 2021111003/3/3.cpp:783-790 | the count is the number of distinct live replicas |
| Listing.WellFormedInTable | 2021111003/3/3.cpp:781-802 | every recorded replica indexes the status table |
| Listing.ListFileMeaning | 2021111003/3/3.cpp:758-803 | -1 iff the name is unknown; otherwise line c names chunk c, lists exactly its live replicas as ranks and counts them |
| Coordinator.IdsFor | 2021111003/3/3.cpp:151 | node k's chunk list holds exactly the chunks placed on k, in ascending order |
| Coordinator.BatchFor | 2021111003/3/3.cpp:176-187 | node k is sent one chunk per entry of its list |
| Coordinator.Blocks | 2021111003/3/3.cpp:103-116 | the upload's blocks are the chunking of the content |
| Coordinator.AllServed | 2021111003/3/3.cpp:378-396 | the check passes iff every chunk has a live replica |
| Coordinator.SilentKeepsStamp | 2021111003/3/3.cpp:33-50 | monitor passes in which a node sends no heartbeat leave its timestamp unchanged |
| Coordinator.DetectionLatency | 2021111003/3/3.cpp:33-62 | after a node's last heartbeat at pass s, the last pass reports it alive iff the clock is within three seconds of pass s |
| Coordinator.Coordinator.constructor | 2021111003/3/3.cpp:869-878 | every node starts with load 0, a heartbeat at start time and status dead; the catalog is empty |
| Coordinator.Coordinator.MonitorTick | 2021111003/3/3.cpp:33-62 | the heartbeat table becomes Stamp of the old one: arrivals stamped now, the rest unchanged; a node is alive iff its last beat is at most three seconds old, so a node heard this pass is alive |
| Coordinator.Coordinator.Plan | 2021111003/3/3.cpp:133-165 | fails iff some chunk finds no alive node, stopping at the first; each placed chunk gets min(3, alive) distinct alive nodes, least loaded first by the loads the earlier chunks left; loads rise by the chunks placed, including those before a failure |
| Coordinator.Coordinator.Place | 2021111003/3/3.cpp:134-159 | one chunk: min(3, alive) distinct alive replicas in ascending load, none less loaded than an alive node left out; exactly those loads rise by one |
| Coordinator.LeastLoadedStep | 2021111003/3/3.cpp:133-165 | placing the next chunk least loaded against the loads the earlier chunks left keeps every chunk so placed |
| Coordinator.Coordinator.Upload | 2021111003/3/3.cpp:88-204 | every placed chunk is placed least loaded first; on success the entry with id size+1, the name and the replicas is appended and node k gets its batch; on failure the catalog is unchanged and nothing is sent |
| Coordinator.Coordinator.Retrieve | 2021111003/3/3.cpp:221-331 | -1 iff the name is unknown; otherwise the reassembly of the live nodes' replies |
| Coordinator.Coordinator.Search | 2021111003/3/3.cpp:354-610 | -1 iff the name is unknown, the word is longer than 32 bytes or a chunk has no live replica; otherwise the count is the number of distinct confirmed hits the live nodes report, and the printed offsets strictly ascend and are exactly those hits' offsets |
| Coordinator.ReportsShaped | 2021111003/3/3.cpp:669-693 | every hit a live node sends back has the scan's shape |
| Coordinator.Coordinator.List | 2021111003/3/3.cpp:758-803 | the listing of the first entry with the name, from the current status; no state changes |
| Coordinator.Coordinator.Failover | 2021111003/3/3.cpp:805-817 | prints 1 and sends opcode 4 iff 1 <= node < world size; the node decodes it as suspending its heartbeats |
| Coordinator.Coordinator.Recover | 2021111003/3/3.cpp:819-828 | sends opcode 5, which resumes heartbeats, iff 1 <= node < world size |
| Coordinator.Coordinator.Exit | 2021111003/3/3.cpp:830-841 | every storage rank gets one shutdown message and the monitor is stopped |
| Coordinator.Coordinator.Step | 2021111003/3/3.cpp:883-941 | one command line: the parsed command's method runs, an unknown prefix does nothing, and a failed substr or stoi aborts |
| Coordinator.BatchContents | 2021111003/3/3.cpp:133-187 | chunk c is in node k's batch iff it is chunk i of the file with block i and k is one of i's replicas |
| Coordinator.ReplyAfterUpload | 2021111003/3/3.cpp:333-352 | after the upload (lines 207-219) a live node answers a retrieval with exactly its batch |
| Coordinator.BatchRepliesAgree | 2021111003/3/3.cpp:176-187 | all returned copies of chunk i carry block i |
| Coordinator.BatchRepliesHolders | 2021111003/3/3.cpp:290-301 | retrieval gets as many copies of chunk i as list_file (lines 783-790) counts live replicas for it |
| Coordinator.UploadThenRetrieve | 2021111003/3/3.cpp:88-331 | a zero-free file comes back byte for byte when exactly one replica of each chunk is alive |
| Coordinator.UploadThenRetrieveReplicated | 2021111003/3/3.cpp:88-331 | with at least one live replica per chunk, block i is printed once per live replica of chunk i, in chunk order, the last copy replaced by the file's tail; the output is the file's length plus 32 bytes per surplus copy |

## Left out

- MPI transport is not modelled: the sends, receives and probes, the chunk struct datatype and the node's busy-poll loop. Node replies are inputs and outgoing messages are returned values.
- Threads, atomics, sleeps and the system clock are not modelled. Time is an integer count of milliseconds. The monitor is one `MonitorTick` step.
- The upload sees the status table as it stands when each chunk is placed. Because the monitor thread may rewrite it between chunks, `Upload` takes one status view per chunk.
- File reading with `ifstream` is not modelled. The upload's content is a parameter, and an unreadable path behaves as empty content.
- Standard output formatting is not modelled, including the `'\0' 'a'` trailer after a retrieved file. Results are returned as values.
- Commands.ParseInt: integers are unbounded, so `std::stoi`'s out-of-range exception for numerals beyond 32 bits is not modelled.
- Catalog.Metadata: names are unbounded strings; the `strcpy` into a 256-byte field is not bounded.
- Coordinator.Coordinator.Retrieve: an unknown name leaves the source's `Metadata` uninitialised before it prints -1. The model returns None without reading it.
- The per-node "how many chunks to expect" counts are left out, because the batches carry their length.
- Sorting.SortBy: the unstable `std::sort` of the load table is modelled by a stable insertion sort, which is one admissible order. The planner's properties hold for any sorted permutation.
- The zero bytes past a 32-byte search word are modelled as zero. The source reads them beyond the word buffer.
- Coordinator.Coordinator.Search: it states the -1 cases both ways. For an undefined result it states only that a route or a check reads out of bounds; `WordSearch.Resolve` states both directions of that.
- The node-side "how many requests to expect" handshake of the verification round is left out; requests are passed as sequences.
