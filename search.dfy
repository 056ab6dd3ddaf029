/**
 * The coordinator's search pipeline after the preliminary checks
 * (search_master, 3.cpp:444-609), from the hits the live nodes report to the
 * printed count and offsets, with the nodes' boundary checks computed from
 * their stores.
 */
module WordSearch {
  import opened Utils
  import opened Chunks
  import opened NodeSearch
  import opened Reconcile

  /** What `search` prints: -1, nothing defined (an out-of-bounds read), or the count and the sorted offsets. */
  datatype SearchResult = Rejected | Undefined | Found(count: nat, offsets: seq<int>)

  /** Some node reported hit h. */
  ghost predicate ReportedBy(reports: seq<seq<Hit>>, h: Hit) {
    exists i :: 0 <= i < |reports| && h in reports[i]
  }

  /** A reported hit that waits for a boundary check. */
  ghost predicate PendingHit(reports: seq<seq<Hit>>, h: Hit, wordLength: nat, chunkCount: nat) {
    ReportedBy(reports, h) && !ValidNow(h, wordLength, chunkCount)
  }

  /** Some pending hit's route reads past the replica table or a replica list. */
  ghost predicate RoutesPastEnd(reports: seq<seq<Hit>>, wordLength: nat, chunkCount: nat,
                                chunkNodes: seq<seq<nat>>, alive: seq<bool>) {
    exists h :: PendingHit(reports, h, wordLength, chunkCount) && RouteOf(h, chunkNodes, alive) == PastEnd
  }

  /** Some pending hit's check makes its replica read past its store. */
  ghost predicate CheckReadsPastStore(reports: seq<seq<Hit>>, word: seq<char>, chunkCount: nat,
                                      chunkNodes: seq<seq<nat>>, alive: seq<bool>, stores: seq<seq<Chunk>>) {
    exists h :: PendingHit(reports, h, |word|, chunkCount) &&
      var c := RouteOf(h, chunkNodes, alive);
      c.Replica? && c.node < |stores| && Answer(stores[c.node], word, Hit(h.pos, h.chunk + 1)).None?
  }

  /** Exactly the merged hits whose flag Classify leaves false are pending. */
  lemma PendingMembers(reports: seq<seq<Hit>>, merged: seq<Hit>, wordLength: nat, chunkCount: nat, h: Hit)
    requires forall h' :: h' in merged <==> ReportedBy(reports, h')
    ensures h in Unflagged(merged, ValidFlags(merged, wordLength, chunkCount)) <==> PendingHit(reports, h, wordLength, chunkCount)
  {
    UnflaggedMembers(merged, ValidFlags(merged, wordLength, chunkCount), h);
  }

  /** A node that is not alive is sent no boundary requests. */
  lemma NoRequestsForDead(pending: seq<Hit>, chunkNodes: seq<seq<nat>>, alive: seq<bool>, k: nat)
    requires k < |alive| && !alive[k]
    ensures RequestsFor(pending, chunkNodes, alive, k) == []
  {
    var reqs := RequestsFor(pending, chunkNodes, alive, k);
    if reqs != [] {
      RequestsForMembers(pending, chunkNodes, alive, k, reqs[0]);
    }
  }

  /** Route reads out of bounds exactly when some pending hit's route does. */
  lemma RoutedPastEnd(reports: seq<seq<Hit>>, merged: seq<Hit>, wordLength: nat, chunkCount: nat,
                      chunkNodes: seq<seq<nat>>, alive: seq<bool>)
    requires forall h' :: h' in merged <==> ReportedBy(reports, h')
    ensures var pending := Unflagged(merged, ValidFlags(merged, wordLength, chunkCount));
            (exists i :: 0 <= i < |pending| && RouteOf(pending[i], chunkNodes, alive) == PastEnd)
              <==> RoutesPastEnd(reports, wordLength, chunkCount, chunkNodes, alive)
  {
    var pending := Unflagged(merged, ValidFlags(merged, wordLength, chunkCount));
    if exists i :: 0 <= i < |pending| && RouteOf(pending[i], chunkNodes, alive) == PastEnd {
      var i :| 0 <= i < |pending| && RouteOf(pending[i], chunkNodes, alive) == PastEnd;
      PendingMembers(reports, merged, wordLength, chunkCount, pending[i]);
    }
    if RoutesPastEnd(reports, wordLength, chunkCount, chunkNodes, alive) {
      var h :| PendingHit(reports, h, wordLength, chunkCount) && RouteOf(h, chunkNodes, alive) == PastEnd;
      PendingMembers(reports, merged, wordLength, chunkCount, h);
      var i :| 0 <= i < |pending| && pending[i] == h;
    }
  }

  /** Some node's verification reads out of bounds exactly when some pending hit's check does. */
  lemma VerifiedPastStore(reports: seq<seq<Hit>>, merged: seq<Hit>, word: seq<char>, chunkCount: nat,
                          chunkNodes: seq<seq<nat>>, alive: seq<bool>, stores: seq<seq<Chunk>>)
    requires forall h' :: h' in merged <==> ReportedBy(reports, h')
    requires |alive| == |stores|
    ensures var pending := Unflagged(merged, ValidFlags(merged, |word|, chunkCount));
            (exists n :: 0 <= n < |alive| && VerifyRequests(stores[n], word, RequestsFor(pending, chunkNodes, alive, n)).None?)
              <==> CheckReadsPastStore(reports, word, chunkCount, chunkNodes, alive, stores)
  {
    var pending := Unflagged(merged, ValidFlags(merged, |word|, chunkCount));
    if exists n :: 0 <= n < |alive| && VerifyRequests(stores[n], word, RequestsFor(pending, chunkNodes, alive, n)).None? {
      var n :| 0 <= n < |alive| && VerifyRequests(stores[n], word, RequestsFor(pending, chunkNodes, alive, n)).None?;
      var reqs := RequestsFor(pending, chunkNodes, alive, n);
      var m :| 0 <= m < |reqs| && Answer(stores[n], word, reqs[m]).None?;
      RequestsForMembers(pending, chunkNodes, alive, n, reqs[m]);
      var i :| Requests(pending, chunkNodes, alive, n, reqs[m], i);
      PendingMembers(reports, merged, |word|, chunkCount, pending[i]);
    }
    if CheckReadsPastStore(reports, word, chunkCount, chunkNodes, alive, stores) {
      var h :| PendingHit(reports, h, |word|, chunkCount) &&
        var c := RouteOf(h, chunkNodes, alive);
        c.Replica? && c.node < |stores| && Answer(stores[c.node], word, Hit(h.pos, h.chunk + 1)).None?;
      var n := RouteOf(h, chunkNodes, alive).node;
      var r := Hit(h.pos, h.chunk + 1);
      PendingMembers(reports, merged, |word|, chunkCount, h);
      var i :| 0 <= i < |pending| && pending[i] == h;
      RequestsForMembers(pending, chunkNodes, alive, n, r);
      assert Requests(pending, chunkNodes, alive, n, r, i);
      var reqs := RequestsFor(pending, chunkNodes, alive, n);
      var m :| 0 <= m < |reqs| && reqs[m] == r;
    }
  }

  /** The printed offsets are the offsets of the reported hits that end confirmed. */
  lemma ConfirmedOffsets(reports: seq<seq<Hit>>, merged: seq<Hit>, word: seq<char>, chunkCount: nat,
                         chunkNodes: seq<seq<nat>>, alive: seq<bool>, stores: seq<seq<Chunk>>,
                         final: seq<bool>, offsets: seq<int>)
    requires forall h' :: h' in merged <==> ReportedBy(reports, h')
    requires |final| == |merged|
    requires forall k :: 0 <= k < |merged| ==> final[k] == Confirmed(merged[k], |word|, chunkCount, chunkNodes, alive, stores, word)
    requires multiset(offsets) == multiset(FlaggedOffsets(merged, final))
    ensures forall x :: x in offsets <==>
              exists h :: ReportedBy(reports, h) && Confirmed(h, |word|, chunkCount, chunkNodes, alive, stores, word) && Offset(h) == x
  {
    forall x ensures x in offsets <==>
              exists h :: ReportedBy(reports, h) && Confirmed(h, |word|, chunkCount, chunkNodes, alive, stores, word) && Offset(h) == x
    {
      FlaggedOffsetsMeaning(merged, final, x);
      assert x in offsets <==> x in multiset(offsets);
      assert x in FlaggedOffsets(merged, final) <==> x in multiset(FlaggedOffsets(merged, final));
      if exists h :: ReportedBy(reports, h) && Confirmed(h, |word|, chunkCount, chunkNodes, alive, stores, word) && Offset(h) == x {
        var h :| ReportedBy(reports, h) && Confirmed(h, |word|, chunkCount, chunkNodes, alive, stores, word) && Offset(h) == x;
        var k :| 0 <= k < |merged| && merged[k] == h;
      }
    }
  }

  /** The hits the nodes reported, duplicates merged. */
  ghost function ReportedHits(reports: seq<seq<Hit>>): set<Hit> {
    set i, h | 0 <= i < |reports| && h in reports[i] :: h
  }

  /** The reported hits that end confirmed: the ones the count counts. */
  ghost function ConfirmedHits(reports: seq<seq<Hit>>, word: seq<char>, chunkCount: nat,
                               chunkNodes: seq<seq<nat>>, alive: seq<bool>, stores: seq<seq<Chunk>>): set<Hit> {
    set h | h in ReportedHits(reports) && Confirmed(h, |word|, chunkCount, chunkNodes, alive, stores, word)
  }

  /** With the merged list free of duplicates, the true final flags count the confirmed hits. */
  lemma ConfirmedCount(reports: seq<seq<Hit>>, merged: seq<Hit>, word: seq<char>, chunkCount: nat,
                       chunkNodes: seq<seq<nat>>, alive: seq<bool>, stores: seq<seq<Chunk>>, final: seq<bool>)
    requires Distinct(merged) && forall h' :: h' in merged <==> ReportedBy(reports, h')
    requires |final| == |merged|
    requires forall k :: 0 <= k < |merged| ==> final[k] == Confirmed(merged[k], |word|, chunkCount, chunkNodes, alive, stores, word)
    ensures CountTrue(final) == |ConfirmedHits(reports, word, chunkCount, chunkNodes, alive, stores)|
  {
    CountTrueDistinct(merged, final);
    var flagged := set k | 0 <= k < |merged| && final[k] :: merged[k];
    var confirmed := ConfirmedHits(reports, word, chunkCount, chunkNodes, alive, stores);
    forall h ensures h in flagged <==> h in confirmed {
      if h in flagged {
        var k :| 0 <= k < |merged| && final[k] && merged[k] == h;
        assert ReportedBy(reports, h);
        var i :| 0 <= i < |reports| && h in reports[i];
        assert h in ReportedHits(reports);
      }
      if h in confirmed {
        var i :| 0 <= i < |reports| && h in reports[i];
        assert ReportedBy(reports, h);
        var k :| 0 <= k < |merged| && merged[k] == h;
        assert final[k];
      }
    }
    assert flagged == confirmed;
  }

  /** Offsets of distinct scan-shaped hits, sorted, strictly ascend. */
  lemma ConfirmedOffsetsAscending(reports: seq<seq<Hit>>, merged: seq<Hit>, final: seq<bool>, offsets: seq<int>)
    requires Distinct(merged) && forall h' :: h' in merged <==> ReportedBy(reports, h')
    requires forall h' :: ReportedBy(reports, h') ==> ScanShaped(h')
    requires |final| == |merged|
    requires Sorted(offsets) && multiset(offsets) == multiset(FlaggedOffsets(merged, final))
    ensures StrictlyAscending(offsets)
  {
    forall k | 0 <= k < |merged| ensures ScanShaped(merged[k]) {
      assert merged[k] in merged;
    }
    FlaggedOffsetsDistinct(merged, final);
    DistinctPermutation(offsets, FlaggedOffsets(merged, final));
  }

  /**
   * The verification round (3.cpp:527-555): every live node checks the
   * requests it was sent against its own store; a node that is not alive was
   * sent none. Undefined (None) as soon as one check reads out of bounds.
   */
  method CheckRequests(requests: seq<seq<Hit>>, word: seq<char>, alive: seq<bool>, stores: seq<seq<Chunk>>)
    returns (answers: Option<seq<seq<bool>>>)
    requires |requests| == |alive| == |stores|
    requires forall n :: 0 <= n < |alive| && !alive[n] ==> requests[n] == []
    ensures answers.None? <==> exists n :: 0 <= n < |alive| && VerifyRequests(stores[n], word, requests[n]).None?
    ensures answers.Some? ==> |answers.value| == |alive|
    ensures answers.Some? ==>
              forall n :: 0 <= n < |alive| ==> VerifyRequests(stores[n], word, requests[n]) == Some(answers.value[n])
  {
    var acc: seq<seq<bool>> := [];
    var n := 0;
    while n < |alive|
      invariant 0 <= n <= |alive| && |acc| == n
      invariant forall n' :: 0 <= n' < n ==> VerifyRequests(stores[n'], word, requests[n']) == Some(acc[n'])
    {
      if alive[n] {
        var a := VerifyRequests(stores[n], word, requests[n]);
        if a.None? {
          return None;
        }
        acc := acc + [a.value];
      } else {
        acc := acc + [[]];
      }
      n := n + 1;
    }
    return Some(acc);
  }

  /**
   * The end of the pipeline (3.cpp:557-609): fold the verdicts into the
   * flags Classify set, then report. Each hit ends as `Confirmed` says.
   */
  method Conclude(reports: seq<seq<Hit>>, merged: seq<Hit>, validity: array<bool>,
                requests: seq<seq<Hit>>, answers: seq<seq<bool>>, word: seq<char>, chunkCount: nat,
                chunkNodes: seq<seq<nat>>, alive: seq<bool>, stores: seq<seq<Chunk>>)
    returns (count: nat, offsets: seq<int>)
    requires Distinct(merged) && forall h :: h in merged <==> ReportedBy(reports, h)
    requires validity[..] == ValidFlags(merged, |word|, chunkCount)
    requires |requests| == |alive| == |stores| == |answers|
    requires forall n :: 0 <= n < |alive| ==>
               requests[n] == RequestsFor(Unflagged(merged, ValidFlags(merged, |word|, chunkCount)), chunkNodes, alive, n)
    requires forall n :: 0 <= n < |alive| ==> VerifyRequests(stores[n], word, requests[n]) == Some(answers[n])
    modifies validity
    ensures count == |offsets| && Sorted(offsets)
    ensures count == |ConfirmedHits(reports, word, chunkCount, chunkNodes, alive, stores)|
    ensures forall x :: x in offsets <==>
              exists h :: ReportedBy(reports, h) && Confirmed(h, |word|, chunkCount, chunkNodes, alive, stores, word) && Offset(h) == x
    ensures (forall h :: ReportedBy(reports, h) ==> ScanShaped(h)) ==> StrictlyAscending(offsets)
  {
    ghost var flags := validity[..];
    assert Paired(requests, answers);
    Fold(validity, merged, requests, answers);
    forall k | 0 <= k < |merged|
      ensures validity[k] == Confirmed(merged[k], |word|, chunkCount, chunkNodes, alive, stores, word)
    {
      assert flags[k] == ValidNow(merged[k], |word|, chunkCount);
      FoldedVerdict(merged, |word|, chunkCount, chunkNodes, alive, requests, answers, stores, word, k);
    }
    count, offsets := Report(merged, validity);
    ConfirmedOffsets(reports, merged, word, chunkCount, chunkNodes, alive, stores, validity[..], offsets);
    ConfirmedCount(reports, merged, word, chunkCount, chunkNodes, alive, stores, validity[..]);
    if forall h :: ReportedBy(reports, h) ==> ScanShaped(h) {
      ConfirmedOffsetsAscending(reports, merged, validity[..], offsets);
    }
  }

  /**
   * The pipeline (3.cpp:444-609): merge the reported hits, classify them,
   * collect the pending ones, route each to a live replica of the next chunk,
   * let every live node check the requests it was sent against its store,
   * fold the verdicts in and report. The result is undefined exactly when
   * a route or a check reads out of bounds; otherwise the printed offsets,
   * ascending, are those of the reported hits that end confirmed.
   */
  method Resolve(reports: seq<seq<Hit>>, word: seq<char>, chunkCount: nat, chunkNodes: seq<seq<nat>>,
                 alive: seq<bool>, stores: seq<seq<Chunk>>) returns (result: SearchResult)
    requires |reports| == |alive| == |stores|
    ensures !result.Rejected?
    ensures result.Undefined? <==>
              || RoutesPastEnd(reports, |word|, chunkCount, chunkNodes, alive)
              || CheckReadsPastStore(reports, word, chunkCount, chunkNodes, alive, stores)
    ensures result.Found? ==> result.count == |result.offsets| && Sorted(result.offsets)
    ensures result.Found? ==> result.count == |ConfirmedHits(reports, word, chunkCount, chunkNodes, alive, stores)|
    ensures result.Found? && (forall h :: ReportedBy(reports, h) ==> ScanShaped(h)) ==> StrictlyAscending(result.offsets)
    ensures result.Found? ==> forall x :: x in result.offsets <==>
              exists h :: ReportedBy(reports, h) && Confirmed(h, |word|, chunkCount, chunkNodes, alive, stores, word) && Offset(h) == x
  {
    var merged := MergeHits(reports);
    assert forall h :: h in merged <==> ReportedBy(reports, h);
    var validity := Classify(merged, |word|, chunkCount);
    ghost var flags := validity[..];
    assert flags == ValidFlags(merged, |word|, chunkCount);
    var pending := CollectPending(merged, validity);
    RoutedPastEnd(reports, merged, |word|, chunkCount, chunkNodes, alive);
    VerifiedPastStore(reports, merged, word, chunkCount, chunkNodes, alive, stores);
    var routed := Route(pending, chunkNodes, alive);
    if routed.None? {
      return Undefined;
    }
    var requests := routed.value;
    forall n | 0 <= n < |alive| && !alive[n] ensures requests[n] == [] {
      NoRequestsForDead(pending, chunkNodes, alive, n);
    }
    var answers := CheckRequests(requests, word, alive, stores);
    if answers.None? {
      return Undefined;
    }
    var count, offsets := Conclude(reports, merged, validity, requests, answers.value, word, chunkCount, chunkNodes, alive, stores);
    return Found(count, offsets);
  }
}
