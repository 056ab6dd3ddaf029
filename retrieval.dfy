/**
 * The coordinator's reassembly of a file from the replies of the live storage
 * nodes (retrieve_file_master, 3.cpp:221-331).
 */
module Retrieval {
  import opened Utils
  import opened Chunks
  import opened NodeSearch

  /** What `retrieve` prints: -1, the file's bytes, or nothing defined (an out-of-bounds read). */
  datatype Retrieval = Failed | Content(bytes: seq<char>) | ReadsPastEnd

  /** The first chunk with index i in one node's reply: the innermost loop and its `break` (3.cpp:292-300). */
  function FirstWithId(reply: seq<Chunk>, i: nat): (r: Option<Chunk>)
    ensures r.None? <==> forall k :: 0 <= k < |reply| ==> reply[k].chunkId != i
    ensures r.Some? ==> r.value in reply && r.value.chunkId == i
  {
    if reply == [] then None
    else if reply[0].chunkId == i then Some(reply[0])
    else FirstWithId(reply[1..], i)
  }

  /** Whether a reply holds some chunk with index i. */
  predicate Holds(reply: seq<Chunk>, i: nat) {
    exists k :: 0 <= k < |reply| && reply[k].chunkId == i
  }

  /** How many replies hold chunk i. */
  function Holders(replies: seq<seq<Chunk>>, i: nat): nat {
    if replies == [] then 0
    else Holders(replies[..|replies| - 1], i) + (if Holds(replies[|replies| - 1], i) then 1 else 0)
  }

  /**
   * The copies of chunk i the middle loop appends, node by node (3.cpp:290-301):
   * the `break` leaves only the innermost loop, so there is one copy per reply
   * that holds the chunk, not one copy overall.
   */
  function Copies(replies: seq<seq<Chunk>>, i: nat): (r: seq<Chunk>)
    ensures |r| == Holders(replies, i)
  {
    if replies == [] then []
    else
      Copies(replies[..|replies| - 1], i)
      + (match FirstWithId(replies[|replies| - 1], i) case Some(c) => [c] case None => [])
  }

  /** Every copy of chunk i has index i and was sent by some node. */
  lemma {:induction false} CopyFrom(replies: seq<seq<Chunk>>, i: nat, c: Chunk)
    requires c in Copies(replies, i)
    ensures c.chunkId == i
    ensures exists j, k :: 0 <= j < |replies| && 0 <= k < |replies[j]| && replies[j][k] == c
  {
    var n := |replies| - 1;
    if c in Copies(replies[..n], i) {
      CopyFrom(replies[..n], i, c);
      var j, k :| 0 <= j < n && 0 <= k < |replies[..n][j]| && replies[..n][j][k] == c;
      assert replies[j][k] == c;
    } else {
      var k :| 0 <= k < |replies[n]| && replies[n][k] == c;
    }
  }

  /** `chunks_to_print` after the outer loop has run over chunk indices 0 .. n - 1 (3.cpp:288-302). */
  function Assembled(replies: seq<seq<Chunk>>, n: nat): seq<Chunk> {
    if n == 0 then [] else Assembled(replies, n - 1) + Copies(replies, n - 1)
  }

  /** The middle and inner loops for chunk index i (3.cpp:290-301), counting the copies as they are taken. */
  method CollectCopies(replies: seq<seq<Chunk>>, i: nat) returns (copies: seq<Chunk>, got: nat)
    ensures copies == Copies(replies, i) && got == Holders(replies, i)
  {
    copies := [];
    got := 0;
    var j := 0;
    while j < |replies|
      invariant 0 <= j <= |replies|
      invariant copies == Copies(replies[..j], i) && got == |copies|
    {
      assert replies[..j + 1][..j] == replies[..j];
      var k := 0;
      while k < |replies[j]|
        invariant 0 <= k <= |replies[j]|
        invariant forall k' :: 0 <= k' < k ==> replies[j][k'].chunkId != i
      {
        if replies[j][k].chunkId == i {
          FirstWithIdAt(replies[j], i, k);
          copies := copies + [replies[j][k]];
          got := got + 1;
          break;
        }
        k := k + 1;
      }
      j := j + 1;
    }
    assert replies[..j] == replies;
  }

  /** The assembly loops (3.cpp:286-302), with the per-index copy counters `chunk_recieved`. */
  method AssembleChunks(replies: seq<seq<Chunk>>, count: nat) returns (toPrint: seq<Chunk>, received: seq<nat>)
    ensures toPrint == Assembled(replies, count)
    ensures |received| == count
    ensures forall i :: 0 <= i < count ==> received[i] == Holders(replies, i)
  {
    toPrint := [];
    received := [];
    var i := 0;
    while i < count
      invariant 0 <= i <= count
      invariant toPrint == Assembled(replies, i)
      invariant |received| == i
      invariant forall i' :: 0 <= i' < i ==> received[i'] == Holders(replies, i')
    {
      var copies, got := CollectCopies(replies, i);
      toPrint := toPrint + copies;
      received := received + [got];
      i := i + 1;
    }
  }

  lemma {:induction false} FirstWithIdAt(reply: seq<Chunk>, i: nat, k: nat)
    requires k < |reply| && reply[k].chunkId == i
    requires forall k' :: 0 <= k' < k ==> reply[k'].chunkId != i
    ensures FirstWithId(reply, i) == Some(reply[k])
  {
    if k > 0 {
      FirstWithIdAt(reply[1..], i, k - 1);
    }
  }

  /** A block up to (not including) its first zero byte. */
  function TrimAtZero(b: seq<char>): (r: seq<char>)
    ensures r <= b && NoZero(r)
    ensures |r| == |b| || b[|r|] == '\0'
  {
    if b == [] || b[0] == '\0' then [] else [b[0]] + TrimAtZero(b[1..])
  }

  /** The data of a run of chunks, laid end to end. */
  function DataOf(chunks: seq<Chunk>): (blocks: seq<Block>)
    ensures |blocks| == |chunks| && forall i :: 0 <= i < |chunks| ==> blocks[i] == chunks[i].data
  {
    seq(|chunks|, i requires 0 <= i < |chunks| => chunks[i].data)
  }

  /**
   * The printing loops (3.cpp:314-330): every chunk but the last in full, the
   * last up to its first zero byte. With nothing to print, `size() - 1` wraps
   * and the loop reads past the end.
   */
  function Output(toPrint: seq<Chunk>): Retrieval {
    if toPrint == [] then ReadsPastEnd
    else Content(Flatten(DataOf(toPrint[..|toPrint| - 1])) + TrimAtZero(toPrint[|toPrint| - 1].data))
  }

  /** What `retrieve` prints for a known file with `count` chunks, given the live nodes' replies. */
  function Outcome(replies: seq<seq<Chunk>>, count: nat): Retrieval {
    if exists i :: 0 <= i < count && Holders(replies, i) == 0 then Failed
    else Output(Assembled(replies, count))
  }

  /** Assembly, the availability check (3.cpp:304-312) and the output. */
  method Reassemble(replies: seq<seq<Chunk>>, count: nat) returns (outcome: Retrieval)
    ensures outcome == Outcome(replies, count)
  {
    var toPrint, received := AssembleChunks(replies, count);
    var i := 0;
    while i < count
      invariant 0 <= i <= count
      invariant forall i' :: 0 <= i' < i ==> Holders(replies, i') != 0
    {
      if received[i] == 0 {
        return Failed;
      }
      i := i + 1;
    }
    return Output(toPrint);
  }

  // -------------------------------------------------------------- properties

  /** Every chunk a node returns with an index of the file carries that index's block: replicas agree. */
  ghost predicate ReplicasAgree(replies: seq<seq<Chunk>>, blocks: seq<Block>) {
    forall j, k :: 0 <= j < |replies| && 0 <= k < |replies[j]| ==> Agrees(replies[j][k], blocks)
  }

  /** A chunk with an index of the file carries that index's block. */
  predicate Agrees(c: Chunk, blocks: seq<Block>) {
    c.chunkId < |blocks| ==> c.data == blocks[c.chunkId]
  }

  /** Copies printed for chunk indices 0 .. n - 1. */
  function TotalCopies(replies: seq<seq<Chunk>>, n: nat): nat {
    if n == 0 then 0 else TotalCopies(replies, n - 1) + Holders(replies, n - 1)
  }

  /** Every assembled chunk has an index below n and carries that index's block. */
  lemma {:induction false} AssembledChunk(replies: seq<seq<Chunk>>, blocks: seq<Block>, n: nat, c: Chunk)
    requires ReplicasAgree(replies, blocks) && n <= |blocks| && c in Assembled(replies, n)
    ensures c.chunkId < n && c.data == blocks[c.chunkId]
  {
    var prev := Assembled(replies, n - 1);
    var cs := Copies(replies, n - 1);
    assert Assembled(replies, n) == prev + cs;
    if c in prev {
      AssembledChunk(replies, blocks, n - 1, c);
    } else {
      CopyData(replies, blocks, n - 1, c);
    }
  }

  /** One printed copy per holding reply and chunk index. */
  lemma {:induction false} AssembledLength(replies: seq<seq<Chunk>>, n: nat)
    ensures |Assembled(replies, n)| == TotalCopies(replies, n)
  {
    if n > 0 {
      AssembledLength(replies, n - 1);
    }
  }

  lemma CopyData(replies: seq<seq<Chunk>>, blocks: seq<Block>, i: nat, c: Chunk)
    requires ReplicasAgree(replies, blocks) && i < |blocks| && c in Copies(replies, i)
    ensures c.chunkId == i && c.data == blocks[i]
  {
    CopyFrom(replies, i, c);
    var j, k :| 0 <= j < |replies| && 0 <= k < |replies[j]| && replies[j][k] == c;
    assert Agrees(replies[j][k], blocks);
  }

  /** A chunk held by one reply is copied once, with its block. */
  lemma OneCopy(replies: seq<seq<Chunk>>, blocks: seq<Block>, i: nat)
    requires ReplicasAgree(replies, blocks) && i < |blocks| && Holders(replies, i) == 1
    ensures Copies(replies, i) == [Copies(replies, i)[0]] && Copies(replies, i)[0].data == blocks[i]
  {
    CopyData(replies, blocks, i, Copies(replies, i)[0]);
  }

  /** Appending one chunk per index keeps the earlier chunks in place. */
  lemma AssembledStep(replies: seq<seq<Chunk>>, n: nat)
    requires n > 0 && |Copies(replies, n - 1)| == 1
    ensures Assembled(replies, n) == Assembled(replies, n - 1) + [Copies(replies, n - 1)[0]]
  {
  }

  /** Parts 0 .. n - 1 laid end to end. */
  function Gather(part: nat -> seq<Chunk>, n: nat): seq<Chunk> {
    if n == 0 then [] else Gather(part, n - 1) + part(n - 1)
  }

  /** The assembly lays the copies of each index end to end. */
  lemma {:induction false} AssembledGather(replies: seq<seq<Chunk>>, n: nat)
    ensures Assembled(replies, n) == Gather((i: nat) => Copies(replies, i), n)
  {
    if n > 0 {
      AssembledGather(replies, n - 1);
    }
  }

  /** One part per index, each holding its block: the gathered chunks carry the blocks in order. */
  lemma {:induction false} GatherOnce(part: nat -> seq<Chunk>, blocks: seq<Block>, n: nat, t: nat)
    requires t < n <= |blocks|
    requires forall i :: 0 <= i < n ==> |part(i)| == 1 && part(i)[0].data == blocks[i]
    ensures |Gather(part, n)| == n && Gather(part, n)[t].data == blocks[t]
  {
    if t < n - 1 {
      GatherOnce(part, blocks, n - 1, t);
    } else if n > 1 {
      GatherOnce(part, blocks, n - 1, 0);
    }
  }

  /** With one copy per index, the assembled chunks carry the blocks in order. */
  lemma AssembledOnce(replies: seq<seq<Chunk>>, blocks: seq<Block>, n: nat)
    requires ReplicasAgree(replies, blocks) && n <= |blocks|
    requires forall i :: 0 <= i < n ==> Holders(replies, i) == 1
    ensures |Assembled(replies, n)| == n
    ensures forall t :: 0 <= t < n ==> Assembled(replies, n)[t].data == blocks[t]
  {
    var part := (i: nat) => Copies(replies, i);
    AssembledGather(replies, n);
    forall i | 0 <= i < n ensures |part(i)| == 1 && part(i)[0].data == blocks[i] {
      OneCopy(replies, blocks, i);
    }
    forall t | 0 <= t < n ensures Assembled(replies, n)[t].data == blocks[t] {
      GatherOnce(part, blocks, n, t);
    }
    if n > 0 {
      GatherOnce(part, blocks, n, 0);
    }
  }

  /** The trimmed block is exactly the first L bytes when those are free of zero and a zero (or the end) follows. */
  lemma {:induction false} TrimExact(b: seq<char>, L: nat)
    requires L <= |b| && NoZero(b[..L]) && (L == |b| || b[L] == '\0')
    ensures TrimAtZero(b) == b[..L]
  {
    if L > 0 {
      assert b[..L][0] == b[0];
      var tail := b[1..][..L - 1];
      forall i | 0 <= i < |tail| ensures tail[i] != '\0' {
        assert b[..L][i + 1] == tail[i];
      }
      TrimExact(b[1..], L - 1);
      assert b[..L] == [b[0]] + b[1..][..L - 1];
    }
  }

  /** The last block of a split holds the content's tail, then zeros. */
  lemma LastBlock(blocks: seq<Block>, content: seq<char>)
    requires IsSplitOf(blocks, content) && |content| > 0 && NoZero(content)
    ensures var n := |blocks| - 1;
            var L := |content| - n * ChunkSize;
            && 0 < L <= ChunkSize
            && Flatten(blocks[..n]) + blocks[n][..L] == content
            && TrimAtZero(blocks[n]) == blocks[n][..L]
  {
    var n := |blocks| - 1;
    ChunkCountBounds(|content|);
    var L := |content| - n * ChunkSize;
    SplitRoundTrip(blocks, content);
    assert Flatten(blocks) == Flatten(blocks[..n]) + blocks[n];
    assert Flatten(blocks)[..|content|] == Flatten(blocks[..n]) + blocks[n][..L];
    forall t | 0 <= t < L ensures blocks[n][..L][t] != '\0' {
      assert blocks[n][t] == content[n * ChunkSize + t];
    }
    if L < ChunkSize {
      assert blocks[n][L] == ByteAt(content, n * ChunkSize + L);
    }
    TrimExact(blocks[n], L);
  }

  /**
   * Round trip of upload and retrieve: when every chunk of a non-empty
   * content without zero bytes comes back from exactly one live node, the
   * printed bytes are the content.
   */
  lemma RetrieveRoundTrip(replies: seq<seq<Chunk>>, blocks: seq<Block>, content: seq<char>)
    requires IsSplitOf(blocks, content) && |content| > 0 && NoZero(content)
    requires ReplicasAgree(replies, blocks)
    requires forall i :: 0 <= i < |blocks| ==> Holders(replies, i) == 1
    ensures Outcome(replies, |blocks|) == Content(content)
  {
    var n := |blocks| - 1;
    ChunkCountBounds(|content|);
    var toPrint := Assembled(replies, |blocks|);
    AssembledOnce(replies, blocks, |blocks|);
    assert DataOf(toPrint[..n]) == blocks[..n] by {
      forall t | 0 <= t < n ensures DataOf(toPrint[..n])[t] == blocks[..n][t] {
        assert toPrint[..n][t] == toPrint[t];
      }
    }
    LastBlock(blocks, content);
  }

  /**
   * The blocks the assembly lays out for chunk indices 0 .. n - 1: block i
   * once for every reply that holds chunk i, all copies of block i before
   * block i + 1.
   */
  function Expanded(replies: seq<seq<Chunk>>, blocks: seq<Block>, n: nat): (r: seq<Block>)
    requires n <= |blocks|
    ensures |r| == TotalCopies(replies, n)
  {
    if n == 0 then []
    else Expanded(replies, blocks, n - 1) + seq(Holders(replies, n - 1), _ => blocks[n - 1])
  }

  /** The assembled chunks carry, in order, block i once per holder of chunk i. */
  lemma {:induction false} AssembledExpanded(replies: seq<seq<Chunk>>, blocks: seq<Block>, n: nat)
    requires ReplicasAgree(replies, blocks) && n <= |blocks|
    ensures DataOf(Assembled(replies, n)) == Expanded(replies, blocks, n)
  {
    if n > 0 {
      AssembledExpanded(replies, blocks, n - 1);
      var prev := Assembled(replies, n - 1);
      var cs := Copies(replies, n - 1);
      var rep := seq(Holders(replies, n - 1), _ => blocks[n - 1]);
      forall t | 0 <= t < |cs| ensures cs[t].data == rep[t] {
        CopyData(replies, blocks, n - 1, cs[t]);
      }
      assert DataOf(prev + cs) == DataOf(prev) + DataOf(cs);
      assert DataOf(cs) == rep;
    }
  }

  /** With one holder per chunk the expansion is the blocks themselves. */
  lemma {:induction false} ExpandedOnce(replies: seq<seq<Chunk>>, blocks: seq<Block>, n: nat)
    requires n <= |blocks| && forall i :: 0 <= i < n ==> Holders(replies, i) == 1
    ensures Expanded(replies, blocks, n) == blocks[..n]
  {
    if n > 0 {
      ExpandedOnce(replies, blocks, n - 1);
      assert blocks[..n] == blocks[..n - 1] + [blocks[n - 1]];
    }
  }

  /**
   * What the per-replica duplication does: when every chunk has at least one
   * live copy, every copy of every chunk but the last copy is printed in full,
   * in chunk order, and then the content's tail. The surplus copies of chunk
   * i sit between chunk i and chunk i + 1, so the output is the content only
   * when each chunk comes back once, and is 32 bytes longer per surplus copy.
   */
  lemma RetrieveWithReplicas(replies: seq<seq<Chunk>>, blocks: seq<Block>, content: seq<char>)
    requires IsSplitOf(blocks, content) && |content| > 0 && NoZero(content)
    requires ReplicasAgree(replies, blocks)
    requires forall i :: 0 <= i < |blocks| ==> Holders(replies, i) >= 1
    ensures TotalCopies(replies, |blocks|) >= |blocks|
    ensures var e := Expanded(replies, blocks, |blocks|);
            && |e| >= 1 && e[|e| - 1] == blocks[|blocks| - 1]
            && Outcome(replies, |blocks|) == Content(Flatten(e[..|e| - 1]) + content[(|blocks| - 1) * ChunkSize..])
    ensures Outcome(replies, |blocks|).Content?
    ensures |Outcome(replies, |blocks|).bytes| == |content| + ChunkSize * (TotalCopies(replies, |blocks|) - |blocks|)
  {
    var n := |blocks| - 1;
    ChunkCountBounds(|content|);
    LastBlock(blocks, content);
    TotalCopiesAtLeast(replies, |blocks|);
    ReplicatedOutput(replies, blocks);
    OutputExpanded(replies, blocks);
    var L := |content| - n * ChunkSize;
    assert content[n * ChunkSize..] == blocks[n][..L];
  }

  /** The output laid out by the expansion: every block in full but the last, which is trimmed. */
  lemma OutputExpanded(replies: seq<seq<Chunk>>, blocks: seq<Block>)
    requires |blocks| >= 1 && ReplicasAgree(replies, blocks)
    requires forall i :: 0 <= i < |blocks| ==> Holders(replies, i) >= 1
    ensures var e := Expanded(replies, blocks, |blocks|);
            && |e| >= 1 && e[|e| - 1] == blocks[|blocks| - 1]
            && Outcome(replies, |blocks|) == Content(Flatten(e[..|e| - 1]) + TrimAtZero(blocks[|blocks| - 1]))
  {
    var toPrint := Assembled(replies, |blocks|);
    var e := Expanded(replies, blocks, |blocks|);
    AllHeld(replies, |blocks|);
    AssembledExpanded(replies, blocks, |blocks|);
    LastAssembled(replies, blocks);
    var m := |toPrint| - 1;
    assert DataOf(toPrint)[m] == toPrint[m].data;
    assert DataOf(toPrint[..m]) == e[..m];
  }

  /** The printed length: every copy but the last in full, then the last block up to its first zero. */
  lemma ReplicatedOutput(replies: seq<seq<Chunk>>, blocks: seq<Block>)
    requires |blocks| >= 1 && ReplicasAgree(replies, blocks)
    requires forall i :: 0 <= i < |blocks| ==> Holders(replies, i) >= 1
    ensures Outcome(replies, |blocks|).Content?
    ensures |Outcome(replies, |blocks|).bytes| ==
              (TotalCopies(replies, |blocks|) - 1) * ChunkSize + |TrimAtZero(blocks[|blocks| - 1])|
  {
    AllHeld(replies, |blocks|);
    AssembledLength(replies, |blocks|);
    LastAssembled(replies, blocks);
    OutputLength(Assembled(replies, |blocks|));
  }

  /** The assembly ends with a copy of the last block. */
  lemma LastAssembled(replies: seq<seq<Chunk>>, blocks: seq<Block>)
    requires |blocks| >= 1 && ReplicasAgree(replies, blocks)
    requires Holders(replies, |blocks| - 1) >= 1
    ensures |Assembled(replies, |blocks|)| >= 1
    ensures Assembled(replies, |blocks|)[|Assembled(replies, |blocks|)| - 1].data == blocks[|blocks| - 1]
  {
    LastCopy(replies, |blocks|);
    var toPrint := Assembled(replies, |blocks|);
    LastData(replies, blocks, toPrint[|toPrint| - 1]);
  }

  /** A copy of the last index carries the last block. */
  lemma LastData(replies: seq<seq<Chunk>>, blocks: seq<Block>, c: Chunk)
    requires |blocks| >= 1 && ReplicasAgree(replies, blocks) && c in Copies(replies, |blocks| - 1)
    ensures c.data == blocks[|blocks| - 1]
  {
    CopyData(replies, blocks, |blocks| - 1, c);
  }

  /** With a copy of every index, `retrieve` prints the assembly. */
  lemma AllHeld(replies: seq<seq<Chunk>>, count: nat)
    requires forall i :: 0 <= i < count ==> Holders(replies, i) >= 1
    ensures Outcome(replies, count) == Output(Assembled(replies, count))
  {
  }

  /** Every printed chunk but the last is printed in full. */
  lemma OutputLength(toPrint: seq<Chunk>)
    requires toPrint != []
    ensures Output(toPrint).Content?
    ensures |Output(toPrint).bytes| == (|toPrint| - 1) * ChunkSize + |TrimAtZero(toPrint[|toPrint| - 1].data)|
  {
  }

  /** When chunk n - 1 has a copy, the last printed chunk is one. */
  lemma LastCopy(replies: seq<seq<Chunk>>, n: nat)
    requires n >= 1 && Holders(replies, n - 1) >= 1
    ensures |Assembled(replies, n)| >= 1
    ensures Assembled(replies, n)[|Assembled(replies, n)| - 1] in Copies(replies, n - 1)
  {
    assert Assembled(replies, n) == Assembled(replies, n - 1) + Copies(replies, n - 1);
  }

  lemma {:induction false} TotalCopiesAtLeast(replies: seq<seq<Chunk>>, n: nat)
    requires forall i :: 0 <= i < n ==> Holders(replies, i) >= 1
    ensures TotalCopies(replies, n) >= n
  {
    if n > 0 {
      TotalCopiesAtLeast(replies, n - 1);
    }
  }

  lemma {:induction false} TotalCopiesAbove(replies: seq<seq<Chunk>>, n: nat, d: nat)
    requires forall i :: 0 <= i < n ==> Holders(replies, i) >= 1
    requires d < n && Holders(replies, d) >= 2
    ensures TotalCopies(replies, n) > n
  {
    if d < n - 1 {
      TotalCopiesAbove(replies, n - 1, d);
    } else {
      TotalCopiesAtLeast(replies, n - 1);
    }
  }

  /** With replication on, retrieval does not give the content back: a chunk held by two live nodes is printed twice. */
  lemma RetrieveDuplicates(replies: seq<seq<Chunk>>, blocks: seq<Block>, content: seq<char>, d: nat)
    requires IsSplitOf(blocks, content) && |content| > 0 && NoZero(content)
    requires ReplicasAgree(replies, blocks)
    requires forall i :: 0 <= i < |blocks| ==> Holders(replies, i) >= 1
    requires d < |blocks| && Holders(replies, d) >= 2
    ensures Outcome(replies, |blocks|).Content?
    ensures |Outcome(replies, |blocks|).bytes| >= |content| + ChunkSize
  {
    RetrieveWithReplicas(replies, blocks, content);
    TotalCopiesAbove(replies, |blocks|, d);
  }

  /** Holders counts the replies that hold the chunk. */
  lemma {:induction false} HoldersCount(replies: seq<seq<Chunk>>, i: nat)
    ensures Holders(replies, i) == |set k | 0 <= k < |replies| && Holds(replies[k], i)|
  {
    if replies != [] {
      var m := |replies| - 1;
      var init := replies[..m];
      HoldersCount(init, i);
      var before := set k | 0 <= k < m && Holds(init[k], i);
      assert (set k | 0 <= k < |replies| && Holds(replies[k], i)) ==
             before + (if Holds(replies[m], i) then {m} else {});
    }
  }
}
