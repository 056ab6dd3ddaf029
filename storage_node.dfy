/**
 * A storage node (the `world_rank != 0` branch of main, 3.cpp:944-1008): its
 * chunk store, the opcodes it obeys, and its replies to uploads, retrievals
 * and searches (3.cpp:207-219, 333-352, 612-756).
 */
module StorageNode {
  import opened Utils
  import opened Chunks
  import opened NodeSearch

  /** What a message from the coordinator asks the node to do. */
  datatype Request = UploadChunks | RetrieveFile | SearchWord | SuspendHeartbeat | ResumeHeartbeat | Shutdown | Ignore

  /** The opcode the coordinator sends for each request (3.cpp:167, 246, 408, 813, 826, 833). */
  function Opcode(r: Request): (op: int)
    requires r != Ignore
    ensures 0 <= op <= 6 && op != 3
  {
    match r
    case UploadChunks => 0
    case RetrieveFile => 1
    case SearchWord => 2
    case SuspendHeartbeat => 4
    case ResumeHeartbeat => 5
    case Shutdown => 6
  }

  /** The node's dispatch on an opcode (3.cpp:973-1004); 3 and every other value are ignored. */
  function Decode(op: int): (r: Request)
    ensures r == Ignore <==> op !in {0, 1, 2, 4, 5, 6}
  {
    if op == 0 then UploadChunks
    else if op == 1 then RetrieveFile
    else if op == 2 then SearchWord
    else if op == 4 then SuspendHeartbeat
    else if op == 5 then ResumeHeartbeat
    else if op == 6 then Shutdown
    else Ignore
  }

  /** Every request the coordinator sends is decoded as itself, and every opcode the node acts on is one the coordinator sends. */
  lemma OpcodeRoundTrip(r: Request, op: int)
    ensures r != Ignore ==> Decode(Opcode(r)) == r
    ensures Decode(op) != Ignore ==> Opcode(Decode(op)) == op
  {
  }

  /** The node's chunks of file `fileId`, in store order (3.cpp:342-348). */
  function FileChunks(store: seq<Chunk>, fileId: int): (r: seq<Chunk>)
    ensures |r| <= |store|
    ensures forall c :: c in r <==> c in store && c.fileId == fileId
  {
    if store == [] then []
    else
      FileChunks(store[..|store| - 1], fileId)
      + (if store[|store| - 1].fileId == fileId then [store[|store| - 1]] else [])
  }

  /** Filtering distributes over appending: an upload adds its own chunks of the file at the end of a retrieval. */
  lemma {:induction false} FileChunksAppend(a: seq<Chunk>, b: seq<Chunk>, fileId: int)
    ensures FileChunks(a + b, fileId) == FileChunks(a, fileId) + FileChunks(b, fileId)
    decreases |b|
  {
    if b != [] {
      var b' := b[..|b| - 1];
      assert (a + b)[..|a + b| - 1] == a + b';
      FileChunksAppend(a, b', fileId);
    } else {
      assert a + b == a;
    }
  }

  class Node {
    /** `chunks`: every chunk this node has received, in arrival order. */
    var store: seq<Chunk>
    /** `rank_heartbeat`: whether the heartbeat thread sends its beat. */
    var heartbeatOn: bool
    /** `kill_thread`: set by the shutdown opcode; the node stops serving. */
    var stopped: bool

    /** A fresh node: empty store, heartbeats on (3.cpp:949-955). */
    constructor ()
      ensures store == [] && heartbeatOn && !stopped
    {
      store := [];
      heartbeatOn := true;
      stopped := false;
    }

    /** Opcodes 4, 5 and 6 flip the node's flags (3.cpp:994-1003); the others leave them alone. */
    method Control(op: int)
      modifies this
      ensures store == old(store)
      ensures heartbeatOn == (if op == 4 then false else if op == 5 then true else old(heartbeatOn))
      ensures stopped == (old(stopped) || op == 6)
    {
      match Decode(op)
      case SuspendHeartbeat => heartbeatOn := false;
      case ResumeHeartbeat => heartbeatOn := true;
      case Shutdown => stopped := true;
      case _ =>
    }

    /** `upload_file_node`: the received batch is appended to the store (3.cpp:207-219). */
    method ReceiveChunks(batch: seq<Chunk>)
      modifies this
      ensures store == old(store) + batch
      ensures heartbeatOn == old(heartbeatOn) && stopped == old(stopped)
    {
      store := store + batch;
    }

    /** `retrieve_file_node`: the reply is the node's chunks of the file, in store order (3.cpp:333-352). */
    method Retrieve(fileId: int) returns (reply: seq<Chunk>)
      ensures reply == FileChunks(store, fileId)
    {
      reply := [];
      var i := 0;
      while i < |store|
        invariant 0 <= i <= |store|
        invariant reply == FileChunks(store[..i], fileId)
      {
        assert store[..i + 1][..i] == store[..i];
        if store[i].fileId == fileId {
          reply := reply + [store[i]];
        }
        i := i + 1;
      }
      assert store[..i] == store;
    }

    /** First half of `search_node`: the hits of every chunk of the file, in store order (3.cpp:636-701). */
    method Search(fileId: int, word: seq<char>) returns (hits: seq<Hit>)
      requires |word| <= ChunkSize
      ensures hits == ScanStore(store, fileId, word)
    {
      hits := [];
      var i := 0;
      while i < |store|
        invariant 0 <= i <= |store|
        invariant hits == ScanStore(store[..i], fileId, word)
      {
        assert store[..i + 1][..i] == store[..i];
        if store[i].fileId == fileId {
          hits := hits + ScanChunk(store[i], word);
        }
        i := i + 1;
      }
      assert store[..i] == store;
    }

    /** Second half of `search_node`: the verdict on each boundary request (3.cpp:703-755). */
    method Verify(word: seq<char>, requests: seq<Hit>) returns (answers: Option<seq<bool>>)
      ensures answers == VerifyRequests(store, word, requests)
    {
      var acc: seq<bool> := [];
      var i := 0;
      while i < |requests|
        invariant 0 <= i <= |requests|
        invariant VerifyRequests(store, word, requests[..i]) == Some(acc)
      {
        assert requests[..i + 1][..i] == requests[..i];
        var a := Answer(store, word, requests[i]);
        if a.None? {
          return None;
        }
        acc := acc + [a.value];
        i := i + 1;
      }
      assert requests[..i] == requests;
      answers := Some(acc);
    }
  }

  /** A store holding only chunks of one file yields all of them, in order. */
  lemma {:induction false} FileChunksOwn(store: seq<Chunk>, fileId: int)
    requires forall j :: 0 <= j < |store| ==> store[j].fileId == fileId
    ensures FileChunks(store, fileId) == store
  {
    if store != [] {
      var init := store[..|store| - 1];
      FileChunksOwn(init, fileId);
      assert store == init + [store[|store| - 1]];
    }
  }
}
