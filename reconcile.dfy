/**
 * The coordinator's half of the distributed word search (search_master,
 * 3.cpp:354-610): merging the nodes' hits, deciding which need no boundary
 * check, routing the others to a replica of the next chunk, folding the
 * nodes' verdicts back in and reporting the confirmed offsets in order.
 */
module Reconcile {
  import opened Utils
  import opened Chunks
  import opened Placement
  import opened NodeSearch
  import opened Sorting

  // -------------------------------------------------------------------- merge

  /** The duplicate check of the merge: is `h` already in the list (3.cpp:452-460)? */
  method Contains(hits: seq<Hit>, h: Hit) returns (found: bool)
    ensures found <==> h in hits
  {
    var k := 0;
    while k < |hits|
      invariant 0 <= k <= |hits|
      invariant h !in hits[..k]
    {
      if hits[k] == h {
        return true;
      }
      k := k + 1;
    }
    assert hits[..k] == hits;
    return false;
  }

  /** The merge of every node's hits, node by node, keeping the first copy of each (3.cpp:446-469). */
  method MergeHits(reports: seq<seq<Hit>>) returns (merged: seq<Hit>)
    ensures Distinct(merged)
    ensures forall h :: h in merged <==> exists i :: 0 <= i < |reports| && h in reports[i]
  {
    merged := [];
    var i := 0;
    while i < |reports|
      invariant 0 <= i <= |reports|
      invariant Distinct(merged)
      invariant forall h :: h in merged <==> exists i' :: 0 <= i' < i && h in reports[i']
    {
      var j := 0;
      while j < |reports[i]|
        invariant 0 <= j <= |reports[i]|
        invariant Distinct(merged)
        invariant forall h :: h in merged <==> (exists i' :: 0 <= i' < i && h in reports[i']) || h in reports[i][..j]
      {
        assert reports[i][..j + 1] == reports[i][..j] + [reports[i][j]];
        var found := Contains(merged, reports[i][j]);
        if !found {
          merged := merged + [reports[i][j]];
        }
        j := j + 1;
      }
      assert reports[i][..j] == reports[i];
      i := i + 1;
    }
  }

  // ----------------------------------------------------------------- classify

  /**
   * A merged hit needs no boundary check when it is the chunk-0 prefix hit, when
   * the word and the byte after it fit in the chunk, or when the word ends
   * exactly at the end of the file's last chunk (3.cpp:474-496).
   */
  predicate ValidNow(h: Hit, wordLength: nat, chunkCount: nat) {
    || (h.chunk == 0 && h.pos == 0)
    || h.pos + wordLength < ChunkSize
    || (h.pos + wordLength == ChunkSize && chunkCount == h.chunk + 1)
  }

  /** The first verdict on each merged hit (3.cpp:471-497). */
  method Classify(merged: seq<Hit>, wordLength: nat, chunkCount: nat) returns (validity: array<bool>)
    ensures fresh(validity) && validity.Length == |merged|
    ensures forall k :: 0 <= k < |merged| ==> validity[k] == ValidNow(merged[k], wordLength, chunkCount)
  {
    validity := new bool[|merged|](_ => false);
    var i := 0;
    while i < |merged|
      invariant 0 <= i <= |merged|
      invariant forall k :: 0 <= k < i ==> validity[k] == ValidNow(merged[k], wordLength, chunkCount)
    {
      var h := merged[i];
      if h.chunk == 0 && h.pos == 0 {
        validity[i] := true;
      } else if h.pos + wordLength < ChunkSize {
        validity[i] := true;
      } else if h.pos + wordLength == ChunkSize {
        validity[i] := chunkCount == h.chunk + 1;
      } else {
        validity[i] := false;
      }
      i := i + 1;
    }
  }

  /**
   * What a scan hit that passes without a boundary check guarantees: the
   * space, the whole word and, unless the word ends at the chunk end, a blank
   * after it all lie inside the chunk.
   */
  lemma ValidScanHitIsWholeWord(data: Block, word: seq<char>, p: nat)
    requires NoZero(word) && 1 <= p <= ChunkSize && MatchAt(data, word, p - 1)
    requires p + |word| <= ChunkSize
    ensures data[p - 1] == ' ' && data[p..p + |word|] == word
    ensures p + |word| < ChunkSize ==> Blank(data[p + |word|])
  {
    MatchAtMeans(data, word, p - 1);
    forall i | 0 <= i < |word| ensures data[p..p + |word|][i] == word[i] {
      assert data[p - 1 + 1 + i] == word[i];
    }
  }

  /** Hits whose flag is still false, in merged order: `invalid_searches` (3.cpp:499-507). */
  function Unflagged(hits: seq<Hit>, flags: seq<bool>): (r: seq<Hit>)
    requires |hits| == |flags|
  {
    if hits == [] then []
    else
      Unflagged(hits[..|hits| - 1], flags[..|flags| - 1])
      + (if flags[|flags| - 1] then [] else [hits[|hits| - 1]])
  }

  lemma {:induction false} UnflaggedMembers(hits: seq<Hit>, flags: seq<bool>, h: Hit)
    requires |hits| == |flags|
    ensures h in Unflagged(hits, flags) <==> exists k :: 0 <= k < |hits| && !flags[k] && hits[k] == h
  {
    if hits != [] {
      var n := |hits| - 1;
      UnflaggedMembers(hits[..n], flags[..n], h);
      if exists k :: 0 <= k < |hits| && !flags[k] && hits[k] == h {
        var k :| 0 <= k < |hits| && !flags[k] && hits[k] == h;
        if k < n {
          assert hits[..n][k] == h && !flags[..n][k];
        }
      }
    }
  }

  /** The loop that collects the hits still waiting for a verdict (3.cpp:499-507). */
  method CollectPending(merged: seq<Hit>, validity: array<bool>) returns (pending: seq<Hit>)
    requires validity.Length == |merged|
    ensures pending == Unflagged(merged, validity[..])
  {
    pending := [];
    var i := 0;
    while i < |merged|
      invariant 0 <= i <= |merged|
      invariant pending == Unflagged(merged[..i], validity[..i])
    {
      assert merged[..i + 1][..i] == merged[..i];
      assert validity[..i + 1][..i] == validity[..i];
      if !validity[i] {
        pending := pending + [merged[i]];
      }
      i := i + 1;
    }
    assert merged[..i] == merged;
    assert validity[..i] == validity[..];
  }

  // -------------------------------------------------------------------- route

  /** Where a pending hit's check goes: a replica, nowhere, or an out-of-bounds read. */
  datatype Choice = Replica(node: nat) | Unrouted | PastEnd

  /**
   * The replica loop `for j < 3` over `chunk_nodes[c + 1]`, from entry j
   * (3.cpp:512-523): the first live entry wins. Reading past the replica list
   * or past the status table is an out-of-bounds read.
   */
  function Pick(nodes: seq<nat>, alive: seq<bool>, j: nat): (c: Choice)
    ensures c.Replica? ==> c.node < |alive| && alive[c.node] && c.node in nodes
    decreases ReplicationFactor - j
  {
    if j >= ReplicationFactor then Unrouted
    else if j >= |nodes| || nodes[j] >= |alive| then PastEnd
    else if alive[nodes[j]] then Replica(nodes[j])
    else Pick(nodes, alive, j + 1)
  }

  /** The route of pending hit h: chunk h.chunk + 1 must exist in the file's replica table. */
  function RouteOf(h: Hit, chunkNodes: seq<seq<nat>>, alive: seq<bool>): Choice {
    if h.chunk + 1 < |chunkNodes| then Pick(chunkNodes[h.chunk + 1], alive, 0) else PastEnd
  }

  lemma {:induction false} PickFrom(nodes: seq<nat>, alive: seq<bool>, j: nat)
    requires |nodes| <= ReplicationFactor && j <= |nodes|
    requires forall i :: 0 <= i < |nodes| ==> nodes[i] < |alive|
    requires exists i :: j <= i < |nodes| && alive[nodes[i]]
    ensures exists i :: j <= i < |nodes| && Pick(nodes, alive, j) == Replica(nodes[i]) && alive[nodes[i]] &&
              forall i' :: j <= i' < i ==> !alive[nodes[i']]
    decreases |nodes| - j
  {
    if !alive[nodes[j]] {
      PickFrom(nodes, alive, j + 1);
    }
  }

  /**
   * For a chunk whose replicas were recorded by an upload (at most three, all
   * inside the status table) and which has a live replica, the check goes to
   * the first live replica in recorded order.
   */
  lemma PickFirstAlive(nodes: seq<nat>, alive: seq<bool>)
    requires |nodes| <= ReplicationFactor
    requires forall i :: 0 <= i < |nodes| ==> nodes[i] < |alive|
    requires exists i :: 0 <= i < |nodes| && alive[nodes[i]]
    ensures exists i :: 0 <= i < |nodes| && Pick(nodes, alive, 0) == Replica(nodes[i]) && alive[nodes[i]] &&
              forall i' :: 0 <= i' < i ==> !alive[nodes[i']]
  {
    PickFrom(nodes, alive, 0);
  }

  /** The replica loop itself (3.cpp:514-523). */
  method PickReplica(nodes: seq<nat>, alive: seq<bool>) returns (choice: Choice)
    ensures choice == Pick(nodes, alive, 0)
  {
    var j := 0;
    while j < ReplicationFactor
      invariant 0 <= j <= ReplicationFactor
      invariant Pick(nodes, alive, 0) == Pick(nodes, alive, j)
    {
      if j >= |nodes| || nodes[j] >= |alive| {
        return PastEnd;
      }
      if alive[nodes[j]] {
        return Replica(nodes[j]);
      }
      j := j + 1;
    }
    return Unrouted;
  }

  /** The requests node k receives: the pending hits routed to it, as (position, next chunk), in order. */
  function RequestsFor(pending: seq<Hit>, chunkNodes: seq<seq<nat>>, alive: seq<bool>, k: nat): seq<Hit> {
    if pending == [] then []
    else
      var h := pending[|pending| - 1];
      RequestsFor(pending[..|pending| - 1], chunkNodes, alive, k)
      + (if RouteOf(h, chunkNodes, alive) == Replica(k) then [Hit(h.pos, h.chunk + 1)] else [])
  }

  /** Pending hit i is routed to node k and asks for request r. */
  ghost predicate Requests(pending: seq<Hit>, chunkNodes: seq<seq<nat>>, alive: seq<bool>, k: nat, r: Hit, i: int) {
    0 <= i < |pending| && RouteOf(pending[i], chunkNodes, alive) == Replica(k) && r == Hit(pending[i].pos, pending[i].chunk + 1)
  }

  lemma {:induction false} RequestsForMembers(pending: seq<Hit>, chunkNodes: seq<seq<nat>>, alive: seq<bool>, k: nat, r: Hit)
    ensures r in RequestsFor(pending, chunkNodes, alive, k) <==> exists i :: Requests(pending, chunkNodes, alive, k, r, i)
  {
    if pending != [] {
      var n := |pending| - 1;
      var h := pending[n];
      var own := if RouteOf(h, chunkNodes, alive) == Replica(k) then [Hit(h.pos, h.chunk + 1)] else [];
      assert RequestsFor(pending, chunkNodes, alive, k) == RequestsFor(pending[..n], chunkNodes, alive, k) + own;
      RequestsForMembers(pending[..n], chunkNodes, alive, k, r);
      if r in RequestsFor(pending, chunkNodes, alive, k) {
        if r in own {
          assert Requests(pending, chunkNodes, alive, k, r, n);
        } else {
          var i :| Requests(pending[..n], chunkNodes, alive, k, r, i);
          assert Requests(pending, chunkNodes, alive, k, r, i);
        }
      }
      if exists i :: Requests(pending, chunkNodes, alive, k, r, i) {
        var i :| Requests(pending, chunkNodes, alive, k, r, i);
        if i < n {
          assert Requests(pending[..n], chunkNodes, alive, k, r, i);
        } else {
          assert r in own;
        }
      }
    }
  }

  /**
   * The routing loop (3.cpp:509-525): each pending hit becomes a request to
   * the replica it picks; the loop reads out of bounds (None) as soon as one
   * hit's route does.
   */
  method Route(pending: seq<Hit>, chunkNodes: seq<seq<nat>>, alive: seq<bool>) returns (requests: Option<seq<seq<Hit>>>)
    ensures requests.None? <==> exists i :: 0 <= i < |pending| && RouteOf(pending[i], chunkNodes, alive) == PastEnd
    ensures requests.Some? ==> |requests.value| == |alive|
    ensures requests.Some? ==> forall k :: 0 <= k < |alive| ==> requests.value[k] == RequestsFor(pending, chunkNodes, alive, k)
  {
    var lists: seq<seq<Hit>> := seq(|alive|, _ => []);
    var i := 0;
    while i < |pending|
      invariant 0 <= i <= |pending|
      invariant |lists| == |alive|
      invariant forall k :: 0 <= k < |alive| ==> lists[k] == RequestsFor(pending[..i], chunkNodes, alive, k)
      invariant forall i' :: 0 <= i' < i ==> RouteOf(pending[i'], chunkNodes, alive) != PastEnd
    {
      var h := pending[i];
      assert pending[..i + 1][..i] == pending[..i];
      var choice := PastEnd;
      if h.chunk + 1 < |chunkNodes| {
        choice := PickReplica(chunkNodes[h.chunk + 1], alive);
      }
      if choice == PastEnd {
        return None;
      } else if choice.Replica? {
        lists := lists[choice.node := lists[choice.node] + [Hit(h.pos, h.chunk + 1)]];
      }
      i := i + 1;
    }
    assert pending[..i] == pending;
    requests := Some(lists);
  }

  // --------------------------------------------------------------------- fold

  /** Request r is the boundary check of hit h: same position, next chunk. */
  predicate Checks(r: Hit, h: Hit) {
    r.pos == h.pos && r.chunk == h.chunk + 1
  }

  /** The merged index a verdict on request r is written to: the first hit r checks (3.cpp:562-570). */
  function Owner(merged: seq<Hit>, r: Hit): (o: Option<nat>)
    ensures o.None? <==> forall k :: 0 <= k < |merged| ==> !Checks(r, merged[k])
    ensures o.Some? ==> o.value < |merged| && Checks(r, merged[o.value])
    ensures o.Some? ==> forall k :: 0 <= k < o.value ==> !Checks(r, merged[k])
  {
    if merged == [] then None
    else if Checks(r, merged[0]) then Some(0)
    else match Owner(merged[1..], r)
      case None => None
      case Some(k) => Some(k + 1)
  }

  /** The index search of the fold (3.cpp:562-570). */
  method FindOwner(merged: seq<Hit>, r: Hit) returns (idx: Option<nat>)
    ensures idx == Owner(merged, r)
  {
    var k := 0;
    while k < |merged|
      invariant 0 <= k <= |merged|
      invariant forall k' :: 0 <= k' < k ==> !Checks(r, merged[k'])
    {
      if merged[k].pos == r.pos && merged[k].chunk == r.chunk - 1 {
        return Some(k);
      }
      k := k + 1;
    }
    return None;
  }

  /** The last answer, among one node's replies, to a request owned by merged index k. */
  function LastAnswer(merged: seq<Hit>, k: nat, reqs: seq<Hit>, answers: seq<bool>): Option<bool>
    requires |reqs| == |answers|
  {
    if reqs == [] then None
    else if Owner(merged, reqs[|reqs| - 1]) == Some(k) then Some(answers[|answers| - 1])
    else LastAnswer(merged, k, reqs[..|reqs| - 1], answers[..|answers| - 1])
  }

  /** Node lists are paired with answer lists of the same shape. */
  predicate Paired(requests: seq<seq<Hit>>, answers: seq<seq<bool>>) {
    |requests| == |answers| && forall i :: 0 <= i < |requests| ==> |requests[i]| == |answers[i]|
  }

  /** The last answer to a request owned by k among the replies of nodes 0 .. n - 1, taken node by node. */
  function Verdict(merged: seq<Hit>, k: nat, requests: seq<seq<Hit>>, answers: seq<seq<bool>>, n: nat): Option<bool>
    requires Paired(requests, answers) && n <= |requests|
  {
    if n == 0 then None
    else match LastAnswer(merged, k, requests[n - 1], answers[n - 1])
      case Some(b) => Some(b)
      case None => Verdict(merged, k, requests, answers, n - 1)
  }

  /** A flag after a verdict, if there is one. */
  function Settle(flag: bool, verdict: Option<bool>): bool {
    if verdict.Some? then verdict.value else flag
  }

  /**
   * The fold (3.cpp:557-583): every answer is written over the flag of the hit
   * its request checks, so each flag ends as the last verdict on it, or as it
   * was when no request checks it.
   */
  method Fold(validity: array<bool>, merged: seq<Hit>, requests: seq<seq<Hit>>, answers: seq<seq<bool>>)
    requires validity.Length == |merged| && Paired(requests, answers)
    modifies validity
    ensures forall k :: 0 <= k < |merged| ==>
              validity[k] == Settle(old(validity[k]), Verdict(merged, k, requests, answers, |requests|))
  {
    var i := 0;
    while i < |requests|
      invariant 0 <= i <= |requests|
      invariant forall k :: 0 <= k < |merged| ==>
                  validity[k] == Settle(old(validity[k]), Verdict(merged, k, requests, answers, i))
    {
      var j := 0;
      while j < |requests[i]|
        invariant 0 <= j <= |requests[i]|
        invariant forall k :: 0 <= k < |merged| ==>
                    validity[k] == Settle(Settle(old(validity[k]), Verdict(merged, k, requests, answers, i)),
                                          LastAnswer(merged, k, requests[i][..j], answers[i][..j]))
      {
        assert requests[i][..j + 1][..j] == requests[i][..j];
        assert answers[i][..j + 1][..j] == answers[i][..j];
        var idx := FindOwner(merged, requests[i][j]);
        if idx.Some? {
          validity[idx.value] := answers[i][j];
        }
        j := j + 1;
      }
      assert requests[i][..j] == requests[i];
      assert answers[i][..j] == answers[i];
      i := i + 1;
    }
  }

  /** Request m of a node's list is written to merged index k. */
  ghost predicate OwnedBy(merged: seq<Hit>, k: nat, reqs: seq<Hit>, m: int) {
    0 <= m < |reqs| && Owner(merged, reqs[m]) == Some(k)
  }

  lemma {:induction false} LastAnswerUniform(merged: seq<Hit>, k: nat, reqs: seq<Hit>, answers: seq<bool>, v: bool)
    requires |reqs| == |answers|
    requires forall m :: OwnedBy(merged, k, reqs, m) ==> answers[m] == v
    ensures LastAnswer(merged, k, reqs, answers) == if exists m :: OwnedBy(merged, k, reqs, m) then Some(v) else None
  {
    if reqs != [] {
      var n := |reqs| - 1;
      if Owner(merged, reqs[n]) != Some(k) {
        forall m | OwnedBy(merged, k, reqs[..n], m) ensures answers[..n][m] == v {
          assert OwnedBy(merged, k, reqs, m);
        }
        LastAnswerUniform(merged, k, reqs[..n], answers[..n], v);
        if exists m :: OwnedBy(merged, k, reqs, m) {
          var m :| OwnedBy(merged, k, reqs, m);
          assert OwnedBy(merged, k, reqs[..n], m);
        }
        if exists m :: OwnedBy(merged, k, reqs[..n], m) {
          var m :| OwnedBy(merged, k, reqs[..n], m);
          assert OwnedBy(merged, k, reqs, m);
        }
      } else {
        assert OwnedBy(merged, k, reqs, n);
      }
    }
  }

  /** Some request among the lists of nodes 0 .. n - 1 is written to merged index k. */
  ghost predicate AnyOwnedBy(merged: seq<Hit>, k: nat, requests: seq<seq<Hit>>, n: nat) {
    exists i, m :: 0 <= i < n && i < |requests| && OwnedBy(merged, k, requests[i], m)
  }

  lemma {:induction false} VerdictUniform(merged: seq<Hit>, k: nat, requests: seq<seq<Hit>>, answers: seq<seq<bool>>, n: nat, v: bool)
    requires Paired(requests, answers) && n <= |requests|
    requires forall i, m :: 0 <= i < n && OwnedBy(merged, k, requests[i], m) ==> answers[i][m] == v
    ensures Verdict(merged, k, requests, answers, n) == if AnyOwnedBy(merged, k, requests, n) then Some(v) else None
  {
    if n > 0 {
      var i := n - 1;
      LastAnswerUniform(merged, k, requests[i], answers[i], v);
      VerdictUniform(merged, k, requests, answers, i, v);
      if AnyOwnedBy(merged, k, requests, n) && !exists m :: OwnedBy(merged, k, requests[i], m) {
        var i', m :| 0 <= i' < n && i' < |requests| && OwnedBy(merged, k, requests[i'], m);
        assert AnyOwnedBy(merged, k, requests, i);
      }
    }
  }

  /** The flags `Classify` sets. */
  function ValidFlags(merged: seq<Hit>, wordLength: nat, chunkCount: nat): (flags: seq<bool>)
    ensures |flags| == |merged|
    ensures forall k :: 0 <= k < |merged| ==> flags[k] == ValidNow(merged[k], wordLength, chunkCount)
  {
    seq(|merged|, k requires 0 <= k < |merged| => ValidNow(merged[k], wordLength, chunkCount))
  }

  /**
   * How a merged hit ends: valid at once, or pending and confirmed by the
   * boundary check of the replica it was routed to, run on that node's store.
   */
  function Confirmed(h: Hit, wordLength: nat, chunkCount: nat, chunkNodes: seq<seq<nat>>, alive: seq<bool>,
                     stores: seq<seq<Chunk>>, word: seq<char>): bool
  {
    || ValidNow(h, wordLength, chunkCount)
    || (var c := RouteOf(h, chunkNodes, alive);
        c.Replica? && c.node < |stores| && Answer(stores[c.node], word, Hit(h.pos, h.chunk + 1)) == Some(true))
  }

  /** A request written to merged index k is k's own request, sent to the replica k was routed to. */
  lemma OwnedRequest(merged: seq<Hit>, flags: seq<bool>, chunkNodes: seq<seq<nat>>, alive: seq<bool>,
                     reqs: seq<Hit>, n: nat, k: nat, m: nat)
    requires |flags| == |merged| && k < |merged|
    requires reqs == RequestsFor(Unflagged(merged, flags), chunkNodes, alive, n)
    requires OwnedBy(merged, k, reqs, m)
    ensures exists k2 :: 0 <= k2 < |merged| && !flags[k2] && merged[k2] == merged[k]
    ensures RouteOf(merged[k], chunkNodes, alive) == Replica(n)
    ensures reqs[m] == Hit(merged[k].pos, merged[k].chunk + 1)
  {
    var pending := Unflagged(merged, flags);
    var q := reqs[m];
    RequestsForMembers(pending, chunkNodes, alive, n, q);
    var i :| Requests(pending, chunkNodes, alive, n, q, i);
    UnflaggedMembers(merged, flags, pending[i]);
    assert Checks(q, merged[k]);
    assert merged[k] == pending[i];
  }

  /** A pending hit's own request is in the list of the replica it was routed to, and is written to it. */
  lemma OwnRequestSent(merged: seq<Hit>, flags: seq<bool>, chunkNodes: seq<seq<nat>>, alive: seq<bool>,
                       reqs: seq<Hit>, n: nat, k: nat)
    requires Distinct(merged) && |flags| == |merged| && k < |merged| && !flags[k]
    requires RouteOf(merged[k], chunkNodes, alive) == Replica(n)
    requires reqs == RequestsFor(Unflagged(merged, flags), chunkNodes, alive, n)
    ensures exists m :: OwnedBy(merged, k, reqs, m)
  {
    var h := merged[k];
    var r := Hit(h.pos, h.chunk + 1);
    var pending := Unflagged(merged, flags);
    UnflaggedMembers(merged, flags, h);
    var i :| 0 <= i < |pending| && pending[i] == h;
    RequestsForMembers(pending, chunkNodes, alive, n, r);
    assert Requests(pending, chunkNodes, alive, n, r, i);
    var m :| 0 <= m < |reqs| && reqs[m] == r;
    var o := Owner(merged, r);
    assert o.Some? ==> merged[o.value] == h;
    assert OwnedBy(merged, k, reqs, m);
  }

  /**
   * The whole reconciliation: with requests built by `Route` from the
   * pending hits and answers computed by the nodes, every merged hit ends as
   * `Confirmed` says. Each pending hit is checked by exactly one replica, so
   * the "last answer wins" rule of the fold never has two answers to choose from.
   */
  lemma FoldedVerdict(merged: seq<Hit>, wordLength: nat, chunkCount: nat, chunkNodes: seq<seq<nat>>, alive: seq<bool>,
                      requests: seq<seq<Hit>>, answers: seq<seq<bool>>, stores: seq<seq<Chunk>>, word: seq<char>, k: nat)
    requires Distinct(merged) && k < |merged|
    requires |requests| == |alive| == |stores| && Paired(requests, answers)
    requires forall n :: 0 <= n < |alive| ==>
               requests[n] == RequestsFor(Unflagged(merged, ValidFlags(merged, wordLength, chunkCount)), chunkNodes, alive, n)
    requires forall n, m :: 0 <= n < |requests| && 0 <= m < |requests[n]| ==>
               Some(answers[n][m]) == Answer(stores[n], word, requests[n][m])
    ensures Settle(ValidNow(merged[k], wordLength, chunkCount), Verdict(merged, k, requests, answers, |requests|))
              == Confirmed(merged[k], wordLength, chunkCount, chunkNodes, alive, stores, word)
  {
    var h := merged[k];
    var c := RouteOf(h, chunkNodes, alive);
    var r := Hit(h.pos, h.chunk + 1);
    forall n, m | 0 <= n < |requests| && OwnedBy(merged, k, requests[n], m)
      ensures !ValidNow(h, wordLength, chunkCount) && c == Replica(n) && requests[n][m] == r
    {
      OwnedPending(merged, wordLength, chunkCount, chunkNodes, alive, requests[n], n, k, m);
    }
    if !ValidNow(h, wordLength, chunkCount) && c.Replica? {
      var n := c.node;
      OwnRequestSent(merged, ValidFlags(merged, wordLength, chunkCount), chunkNodes, alive, requests[n], n, k);
      SingleVerdict(merged, k, requests, answers, stores, word, n, r);
    } else {
      VerdictUniform(merged, k, requests, answers, |requests|, false);
    }
  }

  /** A request written to merged index k is the own request of a pending hit k, sent to the replica k was routed to. */
  lemma OwnedPending(merged: seq<Hit>, wordLength: nat, chunkCount: nat, chunkNodes: seq<seq<nat>>, alive: seq<bool>,
                     reqs: seq<Hit>, n: nat, k: nat, m: nat)
    requires Distinct(merged) && k < |merged|
    requires reqs == RequestsFor(Unflagged(merged, ValidFlags(merged, wordLength, chunkCount)), chunkNodes, alive, n)
    requires OwnedBy(merged, k, reqs, m)
    ensures !ValidNow(merged[k], wordLength, chunkCount)
    ensures RouteOf(merged[k], chunkNodes, alive) == Replica(n)
    ensures reqs[m] == Hit(merged[k].pos, merged[k].chunk + 1)
  {
    var flags := ValidFlags(merged, wordLength, chunkCount);
    OwnedRequest(merged, flags, chunkNodes, alive, reqs, n, k, m);
    var k2 :| 0 <= k2 < |merged| && !flags[k2] && merged[k2] == merged[k];
    assert k2 == k;
  }

  /** When every request written to k is the same request r sent to node n, the verdict on k is n's answer to r. */
  lemma SingleVerdict(merged: seq<Hit>, k: nat, requests: seq<seq<Hit>>, answers: seq<seq<bool>>,
                      stores: seq<seq<Chunk>>, word: seq<char>, n: nat, r: Hit)
    requires |requests| == |stores| && Paired(requests, answers) && n < |requests|
    requires forall n, m :: 0 <= n < |requests| && 0 <= m < |requests[n]| ==>
               Some(answers[n][m]) == Answer(stores[n], word, requests[n][m])
    requires forall n', m :: 0 <= n' < |requests| && OwnedBy(merged, k, requests[n'], m) ==> n' == n && requests[n'][m] == r
    requires exists m :: OwnedBy(merged, k, requests[n], m)
    ensures Verdict(merged, k, requests, answers, |requests|) == Answer(stores[n], word, r)
  {
    var m :| OwnedBy(merged, k, requests[n], m);
    VerdictUniform(merged, k, requests, answers, |requests|, answers[n][m]);
    assert AnyOwnedBy(merged, k, requests, |requests|);
  }

  // ------------------------------------------------------------------- report

  /** The file offset a hit stands for: position plus 32 per chunk before it (3.cpp:600). */
  function Offset(h: Hit): int {
    h.pos + ChunkSize * h.chunk
  }

  /** Offsets of the flagged hits, in merged order. */
  function FlaggedOffsets(hits: seq<Hit>, flags: seq<bool>): seq<int>
    requires |hits| == |flags|
  {
    if hits == [] then []
    else
      FlaggedOffsets(hits[..|hits| - 1], flags[..|flags| - 1])
      + (if flags[|flags| - 1] then [Offset(hits[|hits| - 1])] else [])
  }

  /** Number of true flags. */
  function CountTrue(flags: seq<bool>): nat {
    if flags == [] then 0 else CountTrue(flags[..|flags| - 1]) + (if flags[|flags| - 1] then 1 else 0)
  }

  /** There is one flagged offset per true flag, and an offset is listed iff a flagged hit has it. */
  lemma FlaggedOffsetsMeaning(hits: seq<Hit>, flags: seq<bool>, x: int)
    requires |hits| == |flags|
    ensures |FlaggedOffsets(hits, flags)| == CountTrue(flags)
    ensures x in FlaggedOffsets(hits, flags) <==> exists k :: 0 <= k < |hits| && flags[k] && Offset(hits[k]) == x
  {
    FlaggedOffsetsCount(hits, flags);
    FlaggedOffsetsMembers(hits, flags, x);
  }

  lemma {:induction false} FlaggedOffsetsCount(hits: seq<Hit>, flags: seq<bool>)
    requires |hits| == |flags|
    ensures |FlaggedOffsets(hits, flags)| == CountTrue(flags)
  {
    if hits != [] {
      FlaggedOffsetsCount(hits[..|hits| - 1], flags[..|flags| - 1]);
    }
  }

  /** A flagged hit with offset x. */
  ghost predicate FlaggedWith(hits: seq<Hit>, flags: seq<bool>, x: int) {
    exists k :: 0 <= k < |hits| && k < |flags| && flags[k] && Offset(hits[k]) == x
  }

  lemma {:induction false} FlaggedOffsetsMembers(hits: seq<Hit>, flags: seq<bool>, x: int)
    requires |hits| == |flags|
    ensures x in FlaggedOffsets(hits, flags) <==> FlaggedWith(hits, flags, x)
  {
    if hits != [] {
      var n := |hits| - 1;
      FlaggedOffsetsMembers(hits[..n], flags[..n], x);
      assert FlaggedOffsets(hits, flags) ==
             FlaggedOffsets(hits[..n], flags[..n]) + (if flags[n] then [Offset(hits[n])] else []);
      if FlaggedWith(hits[..n], flags[..n], x) {
        var k :| 0 <= k < n && flags[..n][k] && Offset(hits[..n][k]) == x;
        assert flags[k] && Offset(hits[k]) == x;
      }
      if FlaggedWith(hits, flags, x) {
        var k :| 0 <= k < |hits| && flags[k] && Offset(hits[k]) == x;
        if k < n {
          assert flags[..n][k] && Offset(hits[..n][k]) == x;
        }
      }
    }
  }

  /** Distinct hits of the scan's shape stand for distinct file offsets. */
  lemma OffsetInjective(g: Hit, h: Hit)
    requires ScanShaped(g) && ScanShaped(h) && g != h
    ensures Offset(g) != Offset(h)
  {
    if g.chunk < h.chunk {
      assert ChunkSize * h.chunk >= ChunkSize * (g.chunk + 1);
    } else if h.chunk < g.chunk {
      assert ChunkSize * g.chunk >= ChunkSize * (h.chunk + 1);
    }
  }

  /** Over distinct hits, the true flags count the distinct flagged hits. */
  lemma {:induction false} CountTrueDistinct(hits: seq<Hit>, flags: seq<bool>)
    requires |hits| == |flags| && Distinct(hits)
    ensures CountTrue(flags) == |set k | 0 <= k < |hits| && flags[k] :: hits[k]|
  {
    if hits != [] {
      var n := |hits| - 1;
      var init, initFlags := hits[..n], flags[..n];
      assert Distinct(init) by {
        forall i, j | 0 <= i < j < n ensures init[i] != init[j] {
          assert init[i] == hits[i] && init[j] == hits[j];
        }
      }
      CountTrueDistinct(init, initFlags);
      var before := set k | 0 <= k < n && initFlags[k] :: init[k];
      var all := set k | 0 <= k < |hits| && flags[k] :: hits[k];
      assert before == set k | 0 <= k < n && flags[k] :: hits[k] by {
        forall k | 0 <= k < n ensures initFlags[k] == flags[k] && init[k] == hits[k] {}
      }
      assert hits[n] !in before by {
        forall k | 0 <= k < n ensures hits[k] != hits[n] {}
      }
      if flags[n] {
        assert all == before + {hits[n]};
      } else {
        assert all == before;
      }
    }
  }

  /** Distinct hits of the scan's shape give flagged offsets without duplicates. */
  lemma {:induction false} FlaggedOffsetsDistinct(hits: seq<Hit>, flags: seq<bool>)
    requires |hits| == |flags| && Distinct(hits)
    requires forall k :: 0 <= k < |hits| ==> ScanShaped(hits[k])
    ensures Distinct(FlaggedOffsets(hits, flags))
  {
    if hits != [] {
      var n := |hits| - 1;
      var init, initFlags := hits[..n], flags[..n];
      assert Distinct(init) by {
        forall i, j | 0 <= i < j < n ensures init[i] != init[j] {
          assert init[i] == hits[i] && init[j] == hits[j];
        }
      }
      FlaggedOffsetsDistinct(init, initFlags);
      var before := FlaggedOffsets(init, initFlags);
      if flags[n] {
        var x := Offset(hits[n]);
        FlaggedOffsetsMembers(init, initFlags, x);
        if x in before {
          var k :| 0 <= k < n && initFlags[k] && Offset(init[k]) == x;
          OffsetInjective(hits[k], hits[n]);
          assert false;
        }
        assert FlaggedOffsets(hits, flags) == before + [x];
      } else {
        assert FlaggedOffsets(hits, flags) == before;
      }
    }
  }

  /**
   * The report (3.cpp:585-609): the number of hits that ended valid, then
   * their offsets in ascending order.
   */
  method Report(merged: seq<Hit>, validity: array<bool>) returns (count: nat, offsets: seq<int>)
    requires validity.Length == |merged|
    ensures count == CountTrue(validity[..]) == |offsets|
    ensures Sorted(offsets)
    ensures multiset(offsets) == multiset(FlaggedOffsets(merged, validity[..]))
  {
    count := 0;
    var i := 0;
    while i < validity.Length
      invariant 0 <= i <= validity.Length
      invariant count == CountTrue(validity[..i])
    {
      assert validity[..i + 1][..i] == validity[..i];
      if validity[i] {
        count := count + 1;
      }
      i := i + 1;
    }
    assert validity[..i] == validity[..];
    var found: seq<int> := [];
    i := 0;
    while i < |merged|
      invariant 0 <= i <= |merged|
      invariant found == FlaggedOffsets(merged[..i], validity[..i])
    {
      assert merged[..i + 1][..i] == merged[..i];
      assert validity[..i + 1][..i] == validity[..i];
      if validity[i] {
        found := found + [Offset(merged[i])];
      }
      i := i + 1;
    }
    assert merged[..i] == merged;
    FlaggedOffsetsMeaning(merged, validity[..], 0);
    var a := new int[|found|](k requires 0 <= k < |found| => found[k]);
    assert a[..] == found;
    SortBy(a, x => x);
    offsets := a[..];
  }
}
