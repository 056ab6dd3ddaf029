/**
 * The coordinator process (rank 0): its bookkeeping tables, the heartbeat
 * monitor's liveness rule and the file commands of 3.cpp, each command
 * taking the replies of the storage nodes as inputs.
 */
module Coordinator {
  import opened Utils
  import opened Chunks
  import opened Placement
  import opened Catalog
  import opened Commands
  import opened NodeSearch
  import opened StorageNode
  import opened Retrieval
  import opened Listing
  import opened Reconcile
  import opened WordSearch

  // ---------------------------------------------------------------- liveness

  /** Clock ticks per second; time is counted in milliseconds. */
  const TicksPerSecond: nat := 1000

  /** A node is reported dead once its last heartbeat is more than three seconds old (3.cpp:51-62). */
  const Timeout: nat := 3 * TicksPerSecond

  predicate Alive(last: int, now: int) {
    now - last <= Timeout
  }

  /** The heartbeat table after one monitor pass: the nodes whose heartbeat arrived are stamped with the pass's time. */
  function Stamp(beats: seq<int>, arrived: seq<bool>, now: int): (r: seq<int>)
    requires |arrived| == |beats|
    ensures |r| == |beats|
  {
    seq(|beats|, k requires 0 <= k < |beats| => if arrived[k] then now else beats[k])
  }

  /** One pass of the monitor: which nodes' heartbeats were drained, and the clock reading. */
  datatype Tick = Tick(arrived: seq<bool>, now: int)

  ghost predicate TicksFit(ticks: seq<Tick>, nodes: nat) {
    forall t :: 0 <= t < |ticks| ==> |ticks[t].arrived| == nodes
  }

  /** The heartbeat table after a run of monitor passes. */
  function Replay(beats: seq<int>, ticks: seq<Tick>): (r: seq<int>)
    requires TicksFit(ticks, |beats|)
    ensures |r| == |beats|
  {
    if ticks == [] then beats
    else
      var n := |ticks| - 1;
      Stamp(Replay(beats, ticks[..n]), ticks[n].arrived, ticks[n].now)
  }

  /** Passes in which node k sends nothing leave its timestamp where it was. */
  lemma {:induction false} SilentKeepsStamp(beats: seq<int>, ticks: seq<Tick>, k: nat, s: nat)
    requires TicksFit(ticks, |beats|) && k < |beats| && s <= |ticks|
    requires forall t :: s <= t < |ticks| ==> !ticks[t].arrived[k]
    ensures Replay(beats, ticks)[k] == Replay(beats, ticks[..s])[k]
  {
    if s < |ticks| {
      var n := |ticks| - 1;
      assert ticks[..n][..s] == ticks[..s];
      SilentKeepsStamp(beats, ticks[..n], k, s);
    } else {
      assert ticks[..s] == ticks;
    }
  }

  /**
   * Detection latency: when node k's last heartbeat was drained at pass s, the
   * status the last pass computes for it is alive exactly while the clock is
   * within three seconds of pass s. So a failed-over node is still listed for
   * up to the timeout and dropped strictly after it.
   */
  lemma DetectionLatency(beats: seq<int>, ticks: seq<Tick>, k: nat, s: nat)
    requires TicksFit(ticks, |beats|) && k < |beats| && s < |ticks|
    requires ticks[s].arrived[k]
    requires forall t :: s < t < |ticks| ==> !ticks[t].arrived[k]
    ensures var last := ticks[|ticks| - 1].now;
            Alive(Replay(beats, ticks)[k], last) <==> last - ticks[s].now <= Timeout
  {
    SilentKeepsStamp(beats, ticks, k, s + 1);
    var pre := ticks[..s + 1];
    assert pre[..s] == ticks[..s];
    assert Replay(beats, pre)[k] == ticks[s].now;
  }

  // ------------------------------------------------------------------ upload

  /** Indices of the chunks placed on node k, in chunk order: `storage_nodes[k]` (3.cpp:151). */
  function IdsFor(placed: seq<seq<nat>>, k: nat): (ids: seq<nat>)
    ensures forall i: nat :: i in ids <==> i < |placed| && k in placed[i]
    ensures forall a, b :: 0 <= a < b < |ids| ==> ids[a] < ids[b]
  {
    if placed == [] then []
    else
      var n := |placed| - 1;
      var init := IdsFor(placed[..n], k);
      assert forall i: nat :: i in init <==> i < n && k in placed[i];
      assert forall j :: 0 <= j < |init| ==> init[j] in init;
      init + (if k in placed[n] then [n] else [])
  }

  /** The chunks with the given indices, in the order given: the send loop over one node's list (3.cpp:178-187). */
  function ChunksAt(chunks: seq<Chunk>, ids: seq<nat>): (batch: seq<Chunk>)
    requires forall j :: 0 <= j < |ids| ==> ids[j] < |chunks|
    ensures |batch| == |ids|
  {
    seq(|ids|, j requires 0 <= j < |ids| => chunks[ids[j]])
  }

  /** The batch node k is sent: its chunks, in chunk order (3.cpp:176-187). */
  function BatchFor(chunks: seq<Chunk>, placed: seq<seq<nat>>, k: nat): (batch: seq<Chunk>)
    requires |chunks| == |placed|
    ensures |batch| == |IdsFor(placed, k)|
  {
    var ids := IdsFor(placed, k);
    assert forall j :: 0 <= j < |ids| ==> ids[j] in ids;
    ChunksAt(chunks, ids)
  }

  /** The replicas the planner picked for one chunk: min(3, #alive) distinct alive nodes. */
  ghost predicate Placed(chosen: seq<nat>, alive: seq<bool>) {
    && |chosen| == Min(ReplicationFactor, AliveCount(alive))
    && Distinct(chosen)
    && forall j :: 0 <= j < |chosen| ==> chosen[j] < |alive| && alive[chosen[j]]
  }

  /** The two loops of one `list_file` line (3.cpp:783-796): the live replicas' number, then their ranks. */
  method ScanReplicas(nodes: seq<nat>, alive: seq<bool>) returns (count: nat, ranks: seq<nat>)
    requires forall j :: 0 <= j < |nodes| ==> nodes[j] < |alive|
    ensures count == CountAlive(nodes, alive) && ranks == LiveRanks(nodes, alive)
  {
    count := 0;
    var j := 0;
    while j < |nodes|
      invariant 0 <= j <= |nodes|
      invariant count == CountAlive(nodes[..j], alive)
    {
      assert nodes[..j + 1][..j] == nodes[..j];
      if alive[nodes[j]] {
        count := count + 1;
      }
      j := j + 1;
    }
    assert nodes[..j] == nodes;
    ranks := [];
    j := 0;
    while j < |nodes|
      invariant 0 <= j <= |nodes|
      invariant ranks == LiveRanks(nodes[..j], alive)
    {
      assert nodes[..j + 1][..j] == nodes[..j];
      if alive[nodes[j]] {
        ranks := ranks + [nodes[j] + 1];
      }
      j := j + 1;
    }
    assert nodes[..j] == nodes;
  }

  /** The blocks `SplitContent` builds are the file's blocks. */
  lemma SplitIsBlocks(content: seq<char>, blocks: seq<Block>)
    requires |blocks| == ChunkCount(|content|)
    requires forall i, j :: 0 <= i < |blocks| && 0 <= j < ChunkSize ==>
               blocks[i][j] == (if i * ChunkSize + j < |content| then content[i * ChunkSize + j] else '\0')
    ensures blocks == Blocks(content)
  {
    forall i | 0 <= i < |blocks| ensures blocks[i] == BlockAt(content, i) {
      assert forall j :: 0 <= j < ChunkSize ==> blocks[i][j] == BlockAt(content, i)[j];
    }
  }

  /** Every index in a node's list names a planned chunk. */
  lemma IdsBelow(placed: seq<seq<nat>>, perNode: seq<seq<nat>>)
    requires forall k :: 0 <= k < |perNode| ==> perNode[k] == IdsFor(placed, k)
    ensures forall k, j :: 0 <= k < |perNode| && 0 <= j < |perNode[k]| ==> perNode[k][j] < |placed|
  {
    forall k, j | 0 <= k < |perNode| && 0 <= j < |perNode[k]| ensures perNode[k][j] < |placed| {
      assert perNode[k][j] in IdsFor(placed, k);
    }
  }

  /** A plan that placed every chunk gives a catalog entry whose replica lists are well placed. */
  lemma PlannedWellPlaced(m: Metadata, views: seq<seq<bool>>, n: nat)
    requires m.chunkCount == |m.chunkNodes| == |views|
    requires forall i :: 0 <= i < |views| ==> |views[i]| == n && AliveCount(views[i]) > 0
    requires forall i :: 0 <= i < |views| ==> Placed(m.chunkNodes[i], views[i])
    ensures WellPlaced(m, n)
  {
    forall c | 0 <= c < m.chunkCount
      ensures 1 <= |m.chunkNodes[c]| <= ReplicationFactor && forall x :: x in m.chunkNodes[c] ==> x < n
    {
      PlacedSome(m.chunkNodes[c], views[c]);
    }
  }

  /**
   * The replicas were picked least loaded first, by the loads `loads[k]` the
   * nodes had before the chunk: in ascending load, and no alive node left out
   * is less loaded than one taken.
   */
  ghost predicate LeastLoaded(chosen: seq<nat>, alive: seq<bool>, loads: seq<nat>) {
    && (forall i, j :: 0 <= i < j < |chosen| && chosen[j] < |loads| ==>
          chosen[i] < |loads| && loads[chosen[i]] <= loads[chosen[j]])
    && (forall i, k :: 0 <= i < |chosen| && 0 <= k < |alive| && alive[k] && k !in chosen && k < |loads| ==>
          chosen[i] < |loads| && loads[chosen[i]] <= loads[k])
  }

  /** Every node's load after the chunks `placed` have been charged to a table that started as `t`. */
  ghost function LoadsAfter(t: seq<Load>, placed: seq<seq<nat>>, nodes: nat): (r: seq<nat>)
    requires IsLoadTable(t, nodes)
    ensures |r| == nodes
  {
    seq(nodes, k requires 0 <= k < nodes => LoadOf(t, k) + |IdsFor(placed, k)|)
  }

  /** Planning one more chunk least loaded first, against the loads the earlier chunks left, keeps every chunk so placed. */
  lemma LeastLoadedStep(before: seq<Load>, mid: seq<Load>, placed: seq<seq<nat>>, chosen: seq<nat>,
                        views: seq<seq<bool>>, nodes: nat)
    requires IsLoadTable(before, nodes) && IsLoadTable(mid, nodes) && |placed| < |views|
    requires forall k :: 0 <= k < nodes ==> LoadOf(mid, k) == LoadOf(before, k) + |IdsFor(placed, k)|
    requires forall c :: 0 <= c < |placed| ==> LeastLoaded(placed[c], views[c], LoadsAfter(before, placed[..c], nodes))
    requires LeastLoaded(chosen, views[|placed|], LoadsAfter(mid, [], nodes))
    ensures var next := placed + [chosen];
            forall c :: 0 <= c < |next| ==> LeastLoaded(next[c], views[c], LoadsAfter(before, next[..c], nodes))
  {
    var next := placed + [chosen];
    assert LoadsAfter(mid, [], nodes) == LoadsAfter(before, placed, nodes) by {
      forall k | 0 <= k < nodes ensures LoadsAfter(mid, [], nodes)[k] == LoadsAfter(before, placed, nodes)[k] {
        assert IdsFor([], k) == [];
      }
    }
    forall c | 0 <= c < |next| ensures LeastLoaded(next[c], views[c], LoadsAfter(before, next[..c], nodes)) {
      if c < |placed| {
        assert next[c] == placed[c] && next[..c] == placed[..c];
      } else {
        assert next[c] == chosen && next[..c] == placed;
      }
    }
  }

  /** A placement is empty exactly when no node is alive. */
  lemma PlacedSome(chosen: seq<nat>, alive: seq<bool>)
    requires Placed(chosen, alive)
    ensures chosen != [] <==> AliveCount(alive) > 0
  {
  }

  /** Planning one more chunk appends its index to the list of every node chosen for it. */
  lemma IdsForSnoc(placed: seq<seq<nat>>, chosen: seq<nat>, k: nat)
    ensures IdsFor(placed + [chosen], k) == IdsFor(placed, k) + (if k in chosen then [|placed|] else [])
  {
    assert (placed + [chosen])[..|placed|] == placed;
  }

  /** The loads after one more placement still equal the loads before planning plus the chunks planned per node. */
  lemma ChargeStep(before: seq<Load>, mid: seq<Load>, after: seq<Load>, placed: seq<seq<nat>>, chosen: seq<nat>, nodes: nat)
    requires IsLoadTable(before, nodes) && IsLoadTable(mid, nodes) && IsLoadTable(after, nodes)
    requires forall k :: 0 <= k < nodes ==> LoadOf(mid, k) == LoadOf(before, k) + |IdsFor(placed, k)|
    requires forall k :: 0 <= k < nodes ==> LoadOf(after, k) == LoadOf(mid, k) + (if k in chosen then 1 else 0)
    ensures forall k :: 0 <= k < nodes ==> LoadOf(after, k) == LoadOf(before, k) + |IdsFor(placed + [chosen], k)|
  {
    forall k | 0 <= k < nodes
      ensures LoadOf(after, k) == LoadOf(before, k) + |IdsFor(placed + [chosen], k)|
    {
      IdsForSnoc(placed, chosen, k);
    }
  }

  /** Block i of `content`: bytes 32*i .. 32*i+31, zero past the end. */
  function BlockAt(content: seq<char>, i: nat): Block {
    seq(ChunkSize, j requires 0 <= j < ChunkSize => ByteAt(content, i * ChunkSize + j))
  }

  /** The blocks the upload cuts `content` into. */
  function Blocks(content: seq<char>): (blocks: seq<Block>)
    ensures IsSplitOf(blocks, content)
  {
    seq(ChunkCount(|content|), i requires 0 <= i < ChunkCount(|content|) => BlockAt(content, i))
  }

  // -------------------------------------------------------- retrieve / search

  /** What the live nodes send back to `retrieve`: their chunks of the file; nothing from the others. */
  function Replies(stores: seq<seq<Chunk>>, alive: seq<bool>, fileId: int): (replies: seq<seq<Chunk>>)
    requires |stores| == |alive|
    ensures |replies| == |alive|
  {
    seq(|alive|, k requires 0 <= k < |alive| => if alive[k] then FileChunks(stores[k], fileId) else [])
  }

  /** What the live nodes send back to `search`: the hits of their scan; nothing from the others. */
  function Reports(stores: seq<seq<Chunk>>, alive: seq<bool>, fileId: int, word: seq<char>): (reports: seq<seq<Hit>>)
    requires |stores| == |alive| && |word| <= ChunkSize
    ensures |reports| == |alive|
  {
    seq(|alive|, k requires 0 <= k < |alive| => if alive[k] then ScanStore(stores[k], fileId, word) else [])
  }

  /** Every hit the live nodes send back has the scan's shape, so distinct hits have distinct offsets. */
  lemma ReportsShaped(stores: seq<seq<Chunk>>, alive: seq<bool>, fileId: int, word: seq<char>)
    requires |stores| == |alive| && |word| <= ChunkSize
    ensures forall h :: ReportedBy(Reports(stores, alive, fileId, word), h) ==> ScanShaped(h)
  {
    var reports := Reports(stores, alive, fileId, word);
    forall h | ReportedBy(reports, h) ensures ScanShaped(h) {
      var k :| 0 <= k < |reports| && h in reports[k];
      ScanStoreShaped(stores[k], fileId, word, h);
    }
  }

  /** Some replica in `replicas` is alive. */
  predicate HasLiveReplica(replicas: seq<nat>, alive: seq<bool>) {
    exists j :: 0 <= j < |replicas| && replicas[j] < |alive| && alive[replicas[j]]
  }

  /** Every chunk of the file has a live replica (3.cpp:378-396). */
  predicate Served(m: Metadata, alive: seq<bool>)
    requires |m.chunkNodes| == m.chunkCount
  {
    forall c :: 0 <= c < m.chunkCount ==> HasLiveReplica(m.chunkNodes[c], alive)
  }

  /** The availability check of `search` (3.cpp:378-396): mark the chunks with a live replica, then look for one unmarked. */
  method AllServed(m: Metadata, alive: seq<bool>) returns (ok: bool)
    requires InTable(m, alive)
    ensures ok <==> Served(m, alive)
  {
    var received: seq<bool> := [];
    var c := 0;
    while c < m.chunkCount
      invariant 0 <= c <= m.chunkCount && |received| == c
      invariant forall c' :: 0 <= c' < c ==> (received[c'] <==> HasLiveReplica(m.chunkNodes[c'], alive))
    {
      var replicas := m.chunkNodes[c];
      var live := false;
      var j := 0;
      while j < |replicas|
        invariant 0 <= j <= |replicas|
        invariant !live ==> forall j' :: 0 <= j' < j ==> !alive[replicas[j']]
        invariant live ==> HasLiveReplica(replicas, alive)
      {
        if alive[replicas[j]] {
          live := true;
          break;
        }
        j := j + 1;
      }
      received := received + [live];
      c := c + 1;
    }
    c := 0;
    while c < m.chunkCount
      invariant 0 <= c <= m.chunkCount
      invariant forall c' :: 0 <= c' < c ==> received[c']
    {
      if !received[c] {
        return false;
      }
      c := c + 1;
    }
    return true;
  }

  // ---------------------------------------------------------------- control

  /** A control message to one storage node: its MPI rank and the opcode. */
  datatype Message = Message(rank: nat, opcode: int)

  /** What one command line leads to. `Crashed`: an uncaught exception ends the coordinator. */
  datatype Effect =
    | Uploaded(ok: bool, placed: seq<seq<nat>>, batches: seq<seq<Chunk>>)
    | Retrieved(retrieval: Option<Retrieval>)
    | Searched(search: SearchResult)
    | Listed(listing: Option<seq<ListLine>>)
    | Sent(printed: bool, messages: seq<Message>)
    | Stopped(messages: seq<Message>)
    | NoEffect
    | Crashed

  // ------------------------------------------------------------- coordinator

  class Coordinator {
    /** Number of storage nodes: `world_size - 1`. Node k (0-based) is MPI rank k + 1. */
    const nodes: nat
    /** `heartbeats`: time of each node's last heartbeat. */
    var heartbeats: seq<int>
    /** `heartbeats_status`: the monitor's last verdict on each node. */
    var status: seq<bool>
    /** `storage_load`: the (node, load) table, re-sorted in place for every chunk. */
    const load: array<Load>
    /** `file_metadatas`. */
    var catalog: seq<Metadata>
    /** `kill_thread`, as the coordinator sets it. */
    var stopped: bool

    ghost predicate Valid()
      reads this, load
    {
      && |heartbeats| == nodes
      && |status| == nodes
      && IsLoadTable(load[..], nodes)
      && WellFormed(catalog, nodes)
    }

    /** Start-up (3.cpp:876-880): every load 0, every status false, every heartbeat stamped now. */
    constructor (nodes: nat, now: int)
      ensures Valid()
      ensures this.nodes == nodes && catalog == [] && !stopped
      ensures heartbeats == seq(nodes, _ => now) && status == seq(nodes, _ => false)
      ensures forall k :: 0 <= k < nodes ==> LoadOf(load[..], k) == 0
    {
      this.nodes := nodes;
      heartbeats := seq(nodes, _ => now);
      status := seq(nodes, _ => false);
      catalog := [];
      stopped := false;
      var table := new Load[nodes](i => Load(i, 0));
      load := table;
      new;
      forall k | 0 <= k < nodes ensures HasRow(load[..], k) {
        assert load[..][k].node == k;
      }
      forall k | 0 <= k < nodes ensures LoadOf(load[..], k) == 0 {
        LoadOfAt(load[..], nodes, k);
      }
    }

    /**
     * One pass of `heartbeat_monitor` (3.cpp:33-62): stamp the nodes whose
     * heartbeat arrived with `now`, then mark each node alive iff its last
     * heartbeat is at most three seconds old.
     */
    method MonitorTick(arrived: seq<bool>, now: int)
      requires Valid() && |arrived| == nodes
      modifies this
      ensures Valid()
      ensures catalog == old(catalog) && stopped == old(stopped)
      ensures heartbeats == Stamp(old(heartbeats), arrived, now)
      ensures forall k :: 0 <= k < nodes ==> status[k] == Alive(heartbeats[k], now)
      ensures forall k :: 0 <= k < nodes && arrived[k] ==> status[k]
    {
      var beats := heartbeats;
      var k := 0;
      while k < nodes
        invariant 0 <= k <= nodes && |beats| == nodes
        invariant forall j :: 0 <= j < nodes ==> beats[j] == if j < k && arrived[j] then now else heartbeats[j]
      {
        if arrived[k] {
          beats := beats[k := now];
        }
        k := k + 1;
      }
      var verdicts := status;
      k := 0;
      while k < nodes
        invariant 0 <= k <= nodes && |verdicts| == nodes
        invariant forall j :: 0 <= j < k ==> verdicts[j] == Alive(beats[j], now)
      {
        if now - beats[k] > Timeout {
          verdicts := verdicts[k := false];
        } else {
          verdicts := verdicts[k := true];
        }
        k := k + 1;
      }
      heartbeats, status := beats, verdicts;
    }

    /**
     * The planning loop of the upload (3.cpp:133-165): place chunk i with the
     * status table `views[i]`, record its replicas, and append i to the list
     * of every node chosen. Stops at the first chunk that finds no alive node;
     * the loads charged for the chunks before it stay.
     */
    method Plan(views: seq<seq<bool>>) returns (ok: bool, placed: seq<seq<nat>>, perNode: seq<seq<nat>>)
      requires IsLoadTable(load[..], nodes)
      requires forall i :: 0 <= i < |views| ==> |views[i]| == nodes
      modifies load
      ensures IsLoadTable(load[..], nodes)
      ensures ok <==> forall i :: 0 <= i < |views| ==> AliveCount(views[i]) > 0
      ensures !ok ==> |placed| < |views| && AliveCount(views[|placed|]) == 0
      ensures ok ==> |placed| == |views|
      ensures forall i :: 0 <= i < |placed| ==> Placed(placed[i], views[i])
      ensures forall i :: 0 <= i < |placed| ==> LeastLoaded(placed[i], views[i], LoadsAfter(old(load[..]), placed[..i], nodes))
      ensures |perNode| == nodes && forall k :: 0 <= k < nodes ==> perNode[k] == IdsFor(placed, k)
      ensures forall k :: 0 <= k < nodes ==> LoadOf(load[..], k) == old(LoadOf(load[..], k)) + |IdsFor(placed, k)|
    {
      ghost var before := load[..];
      perNode := seq(nodes, _ => []);
      placed := [];
      var i: nat := 0;
      while i < |views|
        invariant i <= |views| && |placed| == i
        invariant IsLoadTable(load[..], nodes)
        invariant forall c :: 0 <= c < i ==> Placed(placed[c], views[c]) && placed[c] != []
        invariant forall c :: 0 <= c < i ==> LeastLoaded(placed[c], views[c], LoadsAfter(before, placed[..c], nodes))
        invariant |perNode| == nodes && forall k :: 0 <= k < nodes ==> perNode[k] == IdsFor(placed, k)
        invariant forall k :: 0 <= k < nodes ==> LoadOf(load[..], k) == LoadOf(before, k) + |IdsFor(placed, k)|
      {
        ghost var mid := load[..];
        var chosen := Place(views[i]);
        PlacedSome(chosen, views[i]);
        if |chosen| == 0 {
          return false, placed, perNode;
        }
        perNode := seq(nodes, (k: nat) requires k < nodes => if k in chosen then perNode[k] + [i] else perNode[k]);
        forall k | 0 <= k < nodes
          ensures IdsFor(placed + [chosen], k) == IdsFor(placed, k) + (if k in chosen then [i] else [])
        {
          IdsForSnoc(placed, chosen, k);
        }
        ChargeStep(before, mid, load[..], placed, chosen, nodes);
        LeastLoadedStep(before, mid, placed, chosen, views, nodes);
        placed := placed + [chosen];
        i := i + 1;
      }
      forall c | 0 <= c < |views| ensures AliveCount(views[c]) > 0 {
        PlacedSome(placed[c], views[c]);
      }
      ok := true;
    }

    /** One placement of the planning loop (3.cpp:134-159): replicas for one chunk, each charged one unit of load. */
    method Place(alive: seq<bool>) returns (chosen: seq<nat>)
      requires IsLoadTable(load[..], nodes) && |alive| == nodes
      modifies load
      ensures IsLoadTable(load[..], nodes)
      ensures Placed(chosen, alive)
      ensures LeastLoaded(chosen, alive, LoadsAfter(old(load[..]), [], nodes))
      ensures forall k :: 0 <= k < nodes ==> LoadOf(load[..], k) == old(LoadOf(load[..], k)) + (if k in chosen then 1 else 0)
    {
      chosen := PlaceChunk(load, alive);
      ReplicaCount(chosen, alive);
    }

    /**
     * `upload name path` (upload_file_master, 3.cpp:88-204), with `content`
     * the bytes read from `path` and `views[i]` the status table the planner
     * reads for chunk i (the monitor thread may rewrite it between chunks).
     * The upload fails at the first chunk that finds no alive node: loads
     * already charged stay, nothing is sent, the catalog is unchanged. On
     * success every node k is sent the chunks placed on it and the file is
     * catalogued under id |catalog| + 1.
     */
    method Upload(args: string, content: seq<char>, views: seq<seq<bool>>)
      returns (ok: bool, placed: seq<seq<nat>>, batches: seq<seq<Chunk>>)
      requires Valid()
      requires |views| == ChunkCount(|content|) && forall i :: 0 <= i < |views| ==> |views[i]| == nodes
      modifies this, load
      ensures Valid()
      ensures heartbeats == old(heartbeats) && status == old(status) && stopped == old(stopped)
      ensures ok <==> forall i :: 0 <= i < |views| ==> AliveCount(views[i]) > 0
      ensures !ok ==> |placed| < |views| && AliveCount(views[|placed|]) == 0
      ensures ok ==> |placed| == |views|
      ensures forall i :: 0 <= i < |placed| ==> Placed(placed[i], views[i])
      ensures forall i :: 0 <= i < |placed| ==> LeastLoaded(placed[i], views[i], LoadsAfter(old(load[..]), placed[..i], nodes))
      ensures forall k :: 0 <= k < nodes ==>
                LoadOf(load[..], k) == old(LoadOf(load[..], k)) + |IdsFor(placed, k)|
      ensures !ok ==> catalog == old(catalog) && batches == []
      ensures ok ==> catalog == old(catalog) + [Metadata(|old(catalog)| + 1, SplitNameRest(args).0, |views|, placed)]
      ensures ok ==> |batches| == nodes && forall k :: 0 <= k < nodes ==>
                batches[k] == BatchFor(ChunkObjects(|old(catalog)| + 1, Blocks(content)), placed, k)
    {
      var name := SplitNameRest(args).0;
      var blocks := SplitContent(content);
      SplitIsBlocks(content, blocks);
      var id := |catalog| + 1;
      var objects := ChunkObjects(id, blocks);
      var perNode;
      ok, placed, perNode := Plan(views);
      if !ok {
        return ok, placed, [];
      }
      IdsBelow(placed, perNode);
      batches := seq(nodes, k requires 0 <= k < nodes => ChunksAt(objects, perNode[k]));
      var m := Metadata(id, name, |blocks|, placed);
      PlannedWellPlaced(m, views, nodes);
      AppendWellFormed(catalog, m, nodes);
      catalog := catalog + [m];
    }

    /**
     * `retrieve name` (retrieve_file_master, 3.cpp:221-331): -1 (None) for an
     * unknown name; otherwise the live nodes are asked for their chunks of
     * the file and the replies are reassembled.
     */
    method Retrieve(args: string, stores: seq<seq<Chunk>>) returns (result: Option<Retrieval>)
      requires Valid() && |stores| == nodes
      ensures result.None? <==> Lookup(catalog, SplitNameRest(args).0).None?
      ensures result.Some? ==>
                var m := catalog[Lookup(catalog, SplitNameRest(args).0).value];
                result.value == Outcome(Replies(stores, status, m.fileId), m.chunkCount)
    {
      var name := SplitNameRest(args).0;
      var found := FindFile(catalog, name);
      if found.None? {
        return None;
      }
      var m := found.value;
      var replies: seq<seq<Chunk>> := [];
      var k := 0;
      while k < nodes
        invariant 0 <= k <= nodes && |replies| == k
        invariant forall k' :: 0 <= k' < k ==> replies[k'] == Replies(stores, status, m.fileId)[k']
      {
        if status[k] {
          replies := replies + [FileChunks(stores[k], m.fileId)];
        } else {
          replies := replies + [[]];
        }
        k := k + 1;
      }
      assert replies == Replies(stores, status, m.fileId);
      var outcome := Reassemble(replies, m.chunkCount);
      return Some(outcome);
    }

    /**
     * `search name word` (search_master, 3.cpp:354-610): -1 for an unknown
     * name, a word longer than 32 bytes or a chunk without a live replica;
     * otherwise the live nodes scan their stores and the hits are resolved.
     * The printed offsets, ascending, are those of the reported hits that
     * end confirmed.
     */
    method Search(args: string, stores: seq<seq<Chunk>>) returns (result: SearchResult)
      requires Valid() && |stores| == nodes
      ensures var name := SplitNameRest(args).0;
              var word := SplitNameRest(args).1;
              result.Rejected? <==>
                || Lookup(catalog, name).None?
                || |word| > ChunkSize
                || !Served(catalog[Lookup(catalog, name).value], status)
      ensures var name := SplitNameRest(args).0;
              var word := SplitNameRest(args).1;
              result.Found? ==>
                var m := catalog[Lookup(catalog, name).value];
                var reports := Reports(stores, status, m.fileId, word);
                && result.count == |result.offsets|
                && result.count == |ConfirmedHits(reports, word, m.chunkCount, m.chunkNodes, status, stores)|
                && StrictlyAscending(result.offsets)
                && forall x :: x in result.offsets <==>
                     exists h :: ReportedBy(reports, h) && Offset(h) == x &&
                       Confirmed(h, |word|, m.chunkCount, m.chunkNodes, status, stores, word)
      ensures var name := SplitNameRest(args).0;
              var word := SplitNameRest(args).1;
              result.Undefined? ==>
                var m := catalog[Lookup(catalog, name).value];
                var reports := Reports(stores, status, m.fileId, word);
                || RoutesPastEnd(reports, |word|, m.chunkCount, m.chunkNodes, status)
                || CheckReadsPastStore(reports, word, m.chunkCount, m.chunkNodes, status, stores)
    {
      var (name, word) := SplitNameRest(args);
      var found := FindFile(catalog, name);
      if found.None? {
        return Rejected;
      }
      var m := found.value;
      if |word| > ChunkSize {
        return Rejected;
      }
      WellFormedInTable(catalog, status, Lookup(catalog, name).value);
      var served := AllServed(m, status);
      if !served {
        return Rejected;
      }
      var reports: seq<seq<Hit>> := [];
      var k := 0;
      while k < nodes
        invariant 0 <= k <= nodes && |reports| == k
        invariant forall k' :: 0 <= k' < k ==> reports[k'] == Reports(stores, status, m.fileId, word)[k']
      {
        if status[k] {
          reports := reports + [ScanStore(stores[k], m.fileId, word)];
        } else {
          reports := reports + [[]];
        }
        k := k + 1;
      }
      assert reports == Reports(stores, status, m.fileId, word);
      ReportsShaped(stores, status, m.fileId, word);
      result := Resolve(reports, word, m.chunkCount, m.chunkNodes, status, stores);
    }

    /**
     * `list_file name` (list_master, 3.cpp:757-803): -1 (None) for an unknown
     * name, else one line per chunk with the number and the ranks of its live
     * replicas.
     */
    method List(args: string) returns (result: Option<seq<ListLine>>)
      requires Valid()
      ensures result == Listing.ListFile(catalog, status, SplitNameRest(args).0)
    {
      var name := SplitNameRest(args).0;
      var found := FindFile(catalog, name);
      if found.None? {
        return None;
      }
      var m := found.value;
      WellFormedInTable(catalog, status, Lookup(catalog, name).value);
      var lines: seq<ListLine> := [];
      var c := 0;
      while c < m.chunkCount
        invariant 0 <= c <= m.chunkCount && |lines| == c
        invariant forall c' :: 0 <= c' < c ==> lines[c'] == Lines(m, status)[c']
      {
        var count, ranks := ScanReplicas(m.chunkNodes[c], status);
        lines := lines + [ListLine(c, count, ranks)];
        c := c + 1;
      }
      assert lines == Lines(m, status);
      return Some(lines);
    }

    /** `failover k` (3.cpp:805-817): for a storage rank, print 1 and tell that node to stop its heartbeats. */
    method Failover(node: int) returns (printed: bool, sent: seq<Message>)
      ensures printed <==> 1 <= node <= nodes
      ensures |sent| == if printed then 1 else 0
      ensures forall msg :: msg in sent ==> msg.rank == node && Decode(msg.opcode) == SuspendHeartbeat
    {
      if node >= 1 && node < nodes + 1 {
        return true, [Message(node, 4)];
      }
      return false, [];
    }

    /** `recover k` (3.cpp:819-828): for a storage rank, tell that node to resume its heartbeats; nothing is printed. */
    method Recover(node: int) returns (sent: seq<Message>)
      ensures |sent| == if 1 <= node <= nodes then 1 else 0
      ensures forall msg :: msg in sent ==> msg.rank == node && Decode(msg.opcode) == ResumeHeartbeat
    {
      if node >= 1 && node < nodes + 1 {
        return [Message(node, 5)];
      }
      return [];
    }

    /** `exit` (exit_master, 3.cpp:830-841): tell every storage node to shut down and stop the monitor. */
    method Exit() returns (sent: seq<Message>)
      modifies this
      ensures stopped
      ensures heartbeats == old(heartbeats) && status == old(status) && catalog == old(catalog)
      ensures |sent| == nodes
      ensures forall r :: 0 <= r < nodes ==> sent[r].rank == r + 1 && Decode(sent[r].opcode) == Shutdown
    {
      sent := [];
      var r := 1;
      while r < nodes + 1
        invariant 1 <= r <= nodes + 1 && |sent| == r - 1
        invariant forall r' :: 0 <= r' < r - 1 ==> sent[r'] == Message(r' + 1, 6)
      {
        sent := sent + [Message(r, 6)];
        r := r + 1;
      }
      stopped := true;
    }

    /**
     * One turn of the coordinator's command loop (3.cpp:883-941). The file
     * to upload, the replica views and the node stores are inputs standing
     * for the disk, the monitor thread and the storage nodes.
     */
    method Step(line: string, content: seq<char>, views: seq<seq<bool>>, stores: seq<seq<Chunk>>) returns (effect: Effect)
      requires Valid() && |stores| == nodes
      requires Parse(line).Upload? ==>
                 |views| == ChunkCount(|content|) && forall i :: 0 <= i < |views| ==> |views[i]| == nodes
      modifies this, load
      ensures Valid()
      ensures heartbeats == old(heartbeats) && status == old(status)
      ensures stopped == (old(stopped) || Parse(line).Exit?)
      ensures !Parse(line).Upload? ==> catalog == old(catalog) && load[..] == old(load[..])
      ensures effect.Crashed? <==> Parse(line).Aborted?
      ensures effect.NoEffect? <==> Parse(line).Ignored?
      ensures Parse(line).Upload? ==> effect.Uploaded? && (effect.ok <==> |catalog| == |old(catalog)| + 1)
      ensures Parse(line).Retrieve? ==>
                effect.Retrieved? && (effect.retrieval.None? <==> Lookup(catalog, SplitNameRest(Parse(line).args).0).None?)
      ensures Parse(line).Search? ==> effect.Searched?
      ensures Parse(line).Search? && effect.search.Rejected? ==>
                || |SplitNameRest(Parse(line).args).1| > ChunkSize
                || Lookup(catalog, SplitNameRest(Parse(line).args).0).None?
                || !Served(catalog[Lookup(catalog, SplitNameRest(Parse(line).args).0).value], status)
      ensures Parse(line).ListFile? ==>
                effect == Listed(Listing.ListFile(catalog, status, SplitNameRest(Parse(line).args).0))
      ensures Parse(line).Failover? ==> effect.Sent? && (effect.printed <==> 1 <= Parse(line).node <= nodes)
      ensures Parse(line).Recover? ==> effect.Sent? && !effect.printed
      ensures Parse(line).Exit? ==> effect.Stopped? && |effect.messages| == nodes
    {
      match Parse(line)
      case Upload(args) =>
        var ok, placed, batches := Upload(args, content, views);
        effect := Uploaded(ok, placed, batches);
      case Retrieve(args) =>
        var r := Retrieve(args, stores);
        effect := Retrieved(r);
      case Search(args) =>
        var r := Search(args, stores);
        effect := Searched(r);
      case ListFile(args) =>
        var r := List(args);
        effect := Listed(r);
      case Failover(node) =>
        var printed, sent := Failover(node);
        effect := Sent(printed, sent);
      case Recover(node) =>
        var sent := Recover(node);
        effect := Sent(false, sent);
      case Exit =>
        var sent := Exit();
        effect := Stopped(sent);
      case Ignored =>
        effect := NoEffect;
      case Aborted =>
        effect := Crashed;
    }
  }

  // ------------------------------------------------- upload, then retrieve

  /**
   * Node k's batch holds chunk i of the file exactly when k is one of the
   * chunk's replicas, and every chunk in it carries the file id, its index
   * and its block.
   */
  lemma BatchContents(fileId: int, blocks: seq<Block>, placed: seq<seq<nat>>, k: nat, c: Chunk)
    requires |blocks| == |placed|
    ensures c in BatchFor(ChunkObjects(fileId, blocks), placed, k) <==>
              c.fileId == fileId && c.chunkId < |blocks| && k in placed[c.chunkId] && c.data == blocks[c.chunkId]
  {
    var chunks := ChunkObjects(fileId, blocks);
    var ids := IdsFor(placed, k);
    var batch := BatchFor(chunks, placed, k);
    if c in batch {
      var j :| 0 <= j < |batch| && batch[j] == c;
      assert ids[j] in ids;
    }
    if c.fileId == fileId && c.chunkId < |blocks| && k in placed[c.chunkId] && c.data == blocks[c.chunkId] {
      assert c.chunkId in ids;
      var j :| 0 <= j < |ids| && ids[j] == c.chunkId;
      assert batch[j] == c;
    }
  }

  /** The stores after the upload's batches arrive: each node appends its own batch (3.cpp:207-219). */
  function AfterUpload(before: seq<seq<Chunk>>, fileId: int, blocks: seq<Block>, placed: seq<seq<nat>>): (stores: seq<seq<Chunk>>)
    requires |blocks| == |placed|
    ensures |stores| == |before|
  {
    var chunks := ChunkObjects(fileId, blocks);
    seq(|before|, k requires 0 <= k < |before| => before[k] + BatchFor(chunks, placed, k))
  }

  /** The replicas of every chunk are distinct nodes of the table. */
  ghost predicate Recorded(placed: seq<seq<nat>>, n: nat) {
    forall i :: 0 <= i < |placed| ==> Distinct(placed[i]) && forall j :: 0 <= j < |placed[i]| ==> placed[i][j] < n
  }

  /** The replies a retrieval gets: each live node sends back exactly its batch, as the id is new. */
  ghost predicate BatchReplies(replies: seq<seq<Chunk>>, fileId: int, blocks: seq<Block>, placed: seq<seq<nat>>, alive: seq<bool>)
    requires |blocks| == |placed|
  {
    && |replies| == |alive|
    && forall k :: 0 <= k < |alive| ==>
         replies[k] == if alive[k] then BatchFor(ChunkObjects(fileId, blocks), placed, k) else []
  }

  /** A node that held no chunk of the id answers with its batch when alive, and nothing when not. */
  lemma ReplyAfterUpload(before: seq<seq<Chunk>>, fileId: int, blocks: seq<Block>, placed: seq<seq<nat>>, alive: seq<bool>, k: nat)
    requires |blocks| == |placed| && |before| == |alive| && k < |alive|
    requires FileChunks(before[k], fileId) == []
    ensures Replies(AfterUpload(before, fileId, blocks, placed), alive, fileId)[k] ==
              if alive[k] then BatchFor(ChunkObjects(fileId, blocks), placed, k) else []
  {
    var batch := BatchFor(ChunkObjects(fileId, blocks), placed, k);
    forall j | 0 <= j < |batch| ensures batch[j].fileId == fileId {
      BatchContents(fileId, blocks, placed, k, batch[j]);
    }
    FileChunksOwn(batch, fileId);
    FileChunksAppend(before[k], batch, fileId);
  }

  lemma RepliesAfterUpload(before: seq<seq<Chunk>>, fileId: int, blocks: seq<Block>, placed: seq<seq<nat>>, alive: seq<bool>)
    requires |blocks| == |placed| && |before| == |alive|
    requires forall k :: 0 <= k < |before| ==> FileChunks(before[k], fileId) == []
    ensures BatchReplies(Replies(AfterUpload(before, fileId, blocks, placed), alive, fileId), fileId, blocks, placed, alive)
  {
    forall k | 0 <= k < |alive|
      ensures Replies(AfterUpload(before, fileId, blocks, placed), alive, fileId)[k] ==
                if alive[k] then BatchFor(ChunkObjects(fileId, blocks), placed, k) else []
    {
      ReplyAfterUpload(before, fileId, blocks, placed, alive, k);
    }
  }

  /** Every chunk sent back carries the block of its index. */
  lemma BatchRepliesAgree(replies: seq<seq<Chunk>>, fileId: int, blocks: seq<Block>, placed: seq<seq<nat>>, alive: seq<bool>)
    requires |blocks| == |placed| && BatchReplies(replies, fileId, blocks, placed, alive)
    ensures ReplicasAgree(replies, blocks)
  {
    forall j, t | 0 <= j < |replies| && 0 <= t < |replies[j]| && replies[j][t].chunkId < |blocks|
      ensures replies[j][t].data == blocks[replies[j][t].chunkId]
    {
      BatchContents(fileId, blocks, placed, j, replies[j][t]);
    }
  }

  /** Node k's reply holds chunk i exactly when k is alive and one of the chunk's replicas. */
  lemma BatchReplyHolds(replies: seq<seq<Chunk>>, fileId: int, blocks: seq<Block>, placed: seq<seq<nat>>, alive: seq<bool>,
                        k: nat, i: nat)
    requires |blocks| == |placed| && i < |placed| && k < |alive|
    requires BatchReplies(replies, fileId, blocks, placed, alive)
    ensures Holds(replies[k], i) <==> alive[k] && k in placed[i]
  {
    var reply := replies[k];
    assert reply == if alive[k] then BatchFor(ChunkObjects(fileId, blocks), placed, k) else [];
    if Holds(reply, i) {
      var t :| 0 <= t < |reply| && reply[t].chunkId == i;
      BatchContents(fileId, blocks, placed, k, reply[t]);
    }
    if alive[k] && k in placed[i] {
      var c := Chunk(fileId, i, blocks[i]);
      BatchContents(fileId, blocks, placed, k, c);
      var t :| 0 <= t < |reply| && reply[t] == c;
    }
  }

  /** Chunk i is sent by as many nodes as `list_file` counts live replicas for it. */
  lemma BatchRepliesHolders(replies: seq<seq<Chunk>>, fileId: int, blocks: seq<Block>, placed: seq<seq<nat>>, alive: seq<bool>, i: nat)
    requires |blocks| == |placed| && Recorded(placed, |alive|) && i < |placed|
    requires BatchReplies(replies, fileId, blocks, placed, alive)
    ensures Holders(replies, i) == CountAlive(placed[i], alive)
  {
    HoldersCount(replies, i);
    CountAliveCardinality(placed[i], alive);
    var holding := set k | 0 <= k < |replies| && Holds(replies[k], i);
    var live := LiveSet(placed[i], alive);
    forall k | k in holding ensures k in live {
      BatchReplyHolds(replies, fileId, blocks, placed, alive, k, i);
    }
    forall x | x in live ensures x in holding {
      BatchReplyHolds(replies, fileId, blocks, placed, alive, x, i);
    }
    assert holding == live;
  }

  /**
   * After an upload of a file the nodes did not hold, the live nodes' replies
   * carry its blocks, and chunk i is sent by as many nodes as `list_file`
   * counts live replicas for it.
   */
  lemma UploadedReplies(before: seq<seq<Chunk>>, fileId: int, content: seq<char>, placed: seq<seq<nat>>, alive: seq<bool>)
    requires |placed| == ChunkCount(|content|) && Recorded(placed, |alive|) && |before| == |alive|
    requires forall k :: 0 <= k < |before| ==> FileChunks(before[k], fileId) == []
    ensures var replies := Replies(AfterUpload(before, fileId, Blocks(content), placed), alive, fileId);
            && IsSplitOf(Blocks(content), content) && |Blocks(content)| == |placed|
            && ReplicasAgree(replies, Blocks(content))
            && forall i :: 0 <= i < |placed| ==> Holders(replies, i) == CountAlive(placed[i], alive)
  {
    var blocks := Blocks(content);
    var replies := Replies(AfterUpload(before, fileId, blocks, placed), alive, fileId);
    RepliesAfterUpload(before, fileId, blocks, placed, alive);
    BatchRepliesAgree(replies, fileId, blocks, placed, alive);
    forall i | 0 <= i < |placed| ensures Holders(replies, i) == CountAlive(placed[i], alive) {
      BatchRepliesHolders(replies, fileId, blocks, placed, alive, i);
    }
  }

  /** A file of non-zero bytes comes back byte for byte when exactly one replica of each chunk is alive at retrieval time. */
  lemma UploadThenRetrieve(before: seq<seq<Chunk>>, fileId: int, content: seq<char>, placed: seq<seq<nat>>, alive: seq<bool>)
    requires |content| > 0 && NoZero(content)
    requires |placed| == ChunkCount(|content|) && Recorded(placed, |alive|) && |before| == |alive|
    requires forall k :: 0 <= k < |before| ==> FileChunks(before[k], fileId) == []
    requires forall i :: 0 <= i < |placed| ==> CountAlive(placed[i], alive) == 1
    ensures Outcome(Replies(AfterUpload(before, fileId, Blocks(content), placed), alive, fileId), |placed|) == Content(content)
  {
    UploadedReplies(before, fileId, content, placed, alive);
    var replies := Replies(AfterUpload(before, fileId, Blocks(content), placed), alive, fileId);
    RetrieveRoundTrip(replies, Blocks(content), content);
  }

  /**
   * With at least one live replica of each chunk, retrieval prints block i
   * once per live replica of chunk i, in chunk order, the last copy trimmed
   * to the content's tail: the file's length plus 32 bytes per surplus copy,
   * with the surplus copies interleaved after their own chunk.
   */
  lemma UploadThenRetrieveReplicated(before: seq<seq<Chunk>>, fileId: int, content: seq<char>, placed: seq<seq<nat>>, alive: seq<bool>)
    requires |content| > 0 && NoZero(content)
    requires |placed| == ChunkCount(|content|) && Recorded(placed, |alive|) && |before| == |alive|
    requires forall k :: 0 <= k < |before| ==> FileChunks(before[k], fileId) == []
    requires forall i :: 0 <= i < |placed| ==> CountAlive(placed[i], alive) >= 1
    ensures var replies := Replies(AfterUpload(before, fileId, Blocks(content), placed), alive, fileId);
            var e := Expanded(replies, Blocks(content), |placed|);
            && (forall i :: 0 <= i < |placed| ==> Holders(replies, i) == CountAlive(placed[i], alive))
            && |e| >= 1
            && Outcome(replies, |placed|) == Content(Flatten(e[..|e| - 1]) + content[(|placed| - 1) * ChunkSize..])
            && |Outcome(replies, |placed|).bytes| == |content| + ChunkSize * (TotalCopies(replies, |placed|) - |placed|)
  {
    UploadedReplies(before, fileId, content, placed, alive);
    var replies := Replies(AfterUpload(before, fileId, Blocks(content), placed), alive, fileId);
    RetrieveWithReplicas(replies, Blocks(content), content);
  }
}
