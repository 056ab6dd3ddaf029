/**
 * The placement planner of upload_file_master (3.cpp:133-165): for one chunk,
 * sort the (node, load) table by load, then walk it and take up to three alive
 * nodes, incrementing each one's load.
 */
module Placement {
  import opened Utils
  import opened Sorting

  /** At most this many replicas per chunk (the `node_count == 3` cut-off). */
  const ReplicationFactor: nat := 3

  /** One row of `storage_load`: a storage node (0-based) and the replicas assigned to it so far. */
  datatype Load = Load(node: nat, count: nat)

  function LoadKey(l: Load): int {
    l.count
  }

  /** Node k has a row in the table. */
  ghost predicate HasRow(t: seq<Load>, k: nat) {
    exists i :: 0 <= i < |t| && t[i].node == k
  }

  /** The table has exactly one row for each storage node 0 .. n-1. */
  ghost predicate IsLoadTable(t: seq<Load>, n: nat) {
    && |t| == n
    && (forall i :: 0 <= i < n ==> t[i].node < n)
    && (forall i, j :: 0 <= i < j < n ==> t[i].node != t[j].node)
    && (forall k :: 0 <= k < n ==> HasRow(t, k))
  }

  /** The load the table records for node k. */
  ghost function LoadOf(t: seq<Load>, k: nat): nat
    requires HasRow(t, k)
  {
    var i :| 0 <= i < |t| && t[i].node == k; t[i].count
  }

  lemma LoadOfAt(t: seq<Load>, n: nat, i: nat)
    requires IsLoadTable(t, n) && i < n
    ensures HasRow(t, t[i].node) && LoadOf(t, t[i].node) == t[i].count
  {
  }

  /** In a table with one row per node, no row occurs twice. */
  lemma {:induction false} RowsOccurOnce(t: seq<Load>, x: Load)
    requires forall i, j :: 0 <= i < j < |t| ==> t[i].node != t[j].node
    ensures multiset(t)[x] <= 1
  {
    if t != [] {
      var u := t[..|t| - 1];
      RowsOccurOnce(u, x);
      assert t == u + [t[|t| - 1]];
      if t[|t| - 1] == x {
        assert x !in u by {
          forall i | 0 <= i < |u| ensures u[i] != x {
            assert u[i].node == t[i].node != t[|t| - 1].node;
          }
        }
      }
    }
  }

  lemma TwiceInSequence<T>(s: seq<T>, i: nat, j: nat)
    requires i < j < |s| && s[i] == s[j]
    ensures multiset(s)[s[i]] >= 2
  {
    assert s == s[..i] + [s[i]] + s[i + 1..j] + [s[j]] + s[j + 1..];
  }

  /** Re-ordering a load table (as the sort does) keeps it a table and keeps every node's load. */
  lemma PermutedTable(a: seq<Load>, b: seq<Load>, n: nat)
    requires IsLoadTable(a, n) && multiset(a) == multiset(b)
    ensures IsLoadTable(b, n)
    ensures forall k :: 0 <= k < n ==> LoadOf(b, k) == LoadOf(a, k)
  {
    assert |b| == |multiset(b)| == |multiset(a)| == n;
    forall i | 0 <= i < n
      ensures b[i] in a
    {
      assert b[i] in multiset(b);
    }
    forall i, j | 0 <= i < j < n
      ensures b[i].node != b[j].node
    {
      if b[i] == b[j] {
        TwiceInSequence(b, i, j);
        RowsOccurOnce(a, b[i]);
      } else {
        var p :| 0 <= p < n && a[p] == b[i];
        var q :| 0 <= q < n && a[q] == b[j];
        assert p != q;
      }
    }
    forall k | 0 <= k < n
      ensures HasRow(b, k)
    {
      assert HasRow(a, k);
      var p :| 0 <= p < n && a[p].node == k;
      assert a[p] in multiset(a);
      var q :| 0 <= q < n && b[q] == a[p];
    }
    forall k | 0 <= k < n
      ensures LoadOf(b, k) == LoadOf(a, k)
    {
      assert HasRow(a, k);
      var p :| 0 <= p < n && a[p].node == k;
      assert a[p] in multiset(a);
      var q :| 0 <= q < n && b[q] == a[p];
      LoadOfAt(a, n, p);
      LoadOfAt(b, n, q);
    }
  }

  /**
   * Places one chunk. Returns the chosen nodes in the order they were taken:
   * at most three, distinct, all alive, every alive node when fewer than three
   * were taken, taken in ascending order of load, and no alive node left out
   * carries less load than a chosen one. Each chosen node's load rises by one;
   * every other load is unchanged.
   */
  method PlaceChunk(table: array<Load>, alive: seq<bool>) returns (chosen: seq<nat>)
    requires IsLoadTable(table[..], |alive|)
    modifies table
    ensures IsLoadTable(table[..], |alive|)
    ensures |chosen| <= ReplicationFactor && Distinct(chosen)
    ensures forall i :: 0 <= i < |chosen| ==> chosen[i] < |alive| && alive[chosen[i]]
    ensures |chosen| < ReplicationFactor ==> forall k :: 0 <= k < |alive| && alive[k] ==> k in chosen
    ensures forall i, j :: 0 <= i < j < |chosen| ==>
              LoadOf(old(table[..]), chosen[i]) <= LoadOf(old(table[..]), chosen[j])
    ensures forall i, k :: 0 <= i < |chosen| && 0 <= k < |alive| && alive[k] && k !in chosen ==>
              LoadOf(old(table[..]), chosen[i]) <= LoadOf(old(table[..]), k)
    ensures forall k :: 0 <= k < |alive| ==>
              LoadOf(table[..], k) == LoadOf(old(table[..]), k) + (if k in chosen then 1 else 0)
  {
    ghost var before := table[..];
    SortBy(table, LoadKey);
    ghost var s := table[..];
    PermutedTable(before, s, |alive|);
    ghost var taken, pos;
    chosen, taken, pos := TakeLeastLoaded(table, alive);
    assert ScanState(s, alive, chosen, taken, pos);
    ChargedLoads(before, s, table[..], alive, chosen, taken, pos);
    ChosenNodes(s, alive, chosen, taken, pos);
    ChosenLeastLoaded(before, s, alive, chosen, taken, pos);
  }

  /**
   * The scan after the sort: walk the table from the least loaded row, take each
   * alive node and charge it one replica, stop after three. `taken` (ghost) gives
   * the positions taken and `pos` how far the scan went.
   */
  method TakeLeastLoaded(table: array<Load>, alive: seq<bool>)
    returns (chosen: seq<nat>, ghost taken: seq<nat>, ghost pos: nat)
    requires forall q :: 0 <= q < table.Length ==> table[q].node < |alive|
    modifies table
    ensures pos <= table.Length
    ensures |taken| == |chosen| <= ReplicationFactor
    ensures pos == table.Length || |chosen| == ReplicationFactor
    ensures forall i :: 0 <= i < |taken| ==>
              taken[i] < pos && chosen[i] == old(table[taken[i]]).node && alive[chosen[i]]
    ensures forall i, j :: 0 <= i < j < |taken| ==> taken[i] < taken[j]
    ensures forall q :: 0 <= q < pos && alive[old(table[q]).node] ==> q in taken
    ensures forall q :: 0 <= q < table.Length ==>
              table[q] == if q < pos && alive[old(table[q]).node]
                          then old(table[q]).(count := old(table[q]).count + 1) else old(table[q])
  {
    var n := table.Length;
    ghost var s := table[..];
    chosen := [];
    taken := [];
    pos := 0;
    var p := 0;
    while p < n && |chosen| < ReplicationFactor
      invariant 0 <= p <= n && pos == p
      invariant |taken| == |chosen| <= ReplicationFactor
      invariant forall i :: 0 <= i < |taken| ==>
                  taken[i] < p && chosen[i] == s[taken[i]].node && alive[chosen[i]]
      invariant forall i, j :: 0 <= i < j < |taken| ==> taken[i] < taken[j]
      invariant forall q :: 0 <= q < p && alive[s[q].node] ==> q in taken
      invariant forall q :: 0 <= q < n ==>
                  table[q] == if q < p && alive[s[q].node] then s[q].(count := s[q].count + 1) else s[q]
    {
      if alive[table[p].node] {
        chosen := chosen + [table[p].node];
        taken := taken + [p];
        table[p] := table[p].(count := table[p].count + 1);
      }
      p := p + 1;
      pos := p;
    }
  }

  /** The positions a scan of the sorted table `s` took: increasing, alive, all alive ones before `pos`. */
  ghost predicate ScanState(s: seq<Load>, alive: seq<bool>, chosen: seq<nat>, taken: seq<nat>, pos: nat) {
    && pos <= |s|
    && |taken| == |chosen|
    && (forall q :: 0 <= q < |s| ==> s[q].node < |alive|)
    && (forall i :: 0 <= i < |taken| ==> taken[i] < pos && chosen[i] == s[taken[i]].node && alive[chosen[i]])
    && (forall i, j :: 0 <= i < j < |taken| ==> taken[i] < taken[j])
    && (forall q :: 0 <= q < pos && alive[s[q].node] ==> q in taken)
  }

  /** A node is chosen exactly when its row lies before `pos` and it is alive. */
  lemma ChosenIffScanned(s: seq<Load>, alive: seq<bool>, chosen: seq<nat>, taken: seq<nat>, pos: nat, q: nat)
    requires IsLoadTable(s, |alive|) && ScanState(s, alive, chosen, taken, pos) && q < |s|
    ensures s[q].node in chosen <==> q < pos && alive[s[q].node]
  {
    if s[q].node in chosen {
      var i :| 0 <= i < |chosen| && chosen[i] == s[q].node;
      assert taken[i] == q;
    }
    if q < pos && alive[s[q].node] {
      var i :| 0 <= i < |taken| && taken[i] == q;
    }
  }

  /** The charged table is still a table, and exactly the chosen nodes gained one replica. */
  lemma ChargedLoads(before: seq<Load>, s: seq<Load>, after: seq<Load>, alive: seq<bool>,
                     chosen: seq<nat>, taken: seq<nat>, pos: nat)
    requires IsLoadTable(before, |alive|) && IsLoadTable(s, |alive|)
    requires forall k :: 0 <= k < |alive| ==> LoadOf(s, k) == LoadOf(before, k)
    requires ScanState(s, alive, chosen, taken, pos) && |after| == |s|
    requires forall q :: 0 <= q < |s| ==>
               after[q] == if q < pos && alive[s[q].node] then s[q].(count := s[q].count + 1) else s[q]
    ensures IsLoadTable(after, |alive|)
    ensures forall k :: 0 <= k < |alive| ==>
              LoadOf(after, k) == LoadOf(before, k) + (if k in chosen then 1 else 0)
  {
    var n := |alive|;
    forall k | 0 <= k < n ensures HasRow(after, k) {
      assert HasRow(s, k);
      var q :| 0 <= q < n && s[q].node == k;
      assert after[q].node == k;
    }
    assert IsLoadTable(after, n);
    forall k | 0 <= k < n
      ensures LoadOf(after, k) == LoadOf(before, k) + (if k in chosen then 1 else 0)
    {
      assert HasRow(s, k);
      var q :| 0 <= q < n && s[q].node == k;
      LoadOfAt(s, n, q);
      LoadOfAt(after, n, q);
      ChosenIffScanned(s, alive, chosen, taken, pos, q);
    }
  }

  /** Chosen nodes are distinct, and all alive nodes are chosen when fewer than three are. */
  lemma ChosenNodes(s: seq<Load>, alive: seq<bool>, chosen: seq<nat>, taken: seq<nat>, pos: nat)
    requires IsLoadTable(s, |alive|) && ScanState(s, alive, chosen, taken, pos)
    requires pos == |s| || |chosen| == ReplicationFactor
    ensures Distinct(chosen)
    ensures |chosen| < ReplicationFactor ==> forall k :: 0 <= k < |alive| && alive[k] ==> k in chosen
  {
    forall i, j | 0 <= i < j < |chosen| ensures chosen[i] != chosen[j] {
      assert taken[i] < taken[j];
    }
    if |chosen| < ReplicationFactor {
      forall k | 0 <= k < |alive| && alive[k] ensures k in chosen {
        assert HasRow(s, k);
        var q :| 0 <= q < |s| && s[q].node == k;
        ChosenIffScanned(s, alive, chosen, taken, pos, q);
      }
    }
  }

  /** Chosen nodes come in ascending load, and no alive node left out has less load. */
  lemma ChosenLeastLoaded(before: seq<Load>, s: seq<Load>, alive: seq<bool>,
                          chosen: seq<nat>, taken: seq<nat>, pos: nat)
    requires IsLoadTable(before, |alive|) && IsLoadTable(s, |alive|)
    requires forall k :: 0 <= k < |alive| ==> LoadOf(s, k) == LoadOf(before, k)
    requires SortedBy(s, LoadKey)
    requires ScanState(s, alive, chosen, taken, pos)
    ensures forall i, j :: 0 <= i < j < |chosen| ==> LoadOf(before, chosen[i]) <= LoadOf(before, chosen[j])
    ensures forall i, k :: 0 <= i < |chosen| && 0 <= k < |alive| && alive[k] && k !in chosen ==>
              LoadOf(before, chosen[i]) <= LoadOf(before, k)
  {
    var n := |alive|;
    forall i | 0 <= i < |chosen|
      ensures LoadOf(before, chosen[i]) == s[taken[i]].count
    {
      LoadOfAt(s, n, taken[i]);
    }
    forall i, k | 0 <= i < |chosen| && 0 <= k < n && alive[k] && k !in chosen
      ensures LoadOf(before, chosen[i]) <= LoadOf(before, k)
    {
      assert HasRow(s, k);
      var q :| 0 <= q < n && s[q].node == k;
      ChosenIffScanned(s, alive, chosen, taken, pos, q);
      LoadOfAt(s, n, q);
    }
  }

  /** Number of alive storage nodes. */
  function AliveCount(alive: seq<bool>): (r: nat)
    ensures r == |set k | 0 <= k < |alive| && alive[k]|
  {
    if alive == [] then 0
    else
      var m := |alive| - 1;
      assert (set k | 0 <= k < |alive| && alive[k]) ==
             (set k | 0 <= k < m && alive[..m][k]) + (if alive[m] then {m} else {});
      AliveCount(alive[..m]) + (if alive[m] then 1 else 0)
  }

  /** What the planner's contract implies about how many replicas a chunk gets: min(3, #alive). */
  lemma ReplicaCount(chosen: seq<nat>, alive: seq<bool>)
    requires |chosen| <= ReplicationFactor && Distinct(chosen)
    requires forall i :: 0 <= i < |chosen| ==> chosen[i] < |alive| && alive[chosen[i]]
    requires |chosen| < ReplicationFactor ==> forall k :: 0 <= k < |alive| && alive[k] ==> k in chosen
    ensures |chosen| == Min(ReplicationFactor, AliveCount(alive))
  {
    var picked: set<nat> := set x | x in chosen;
    var all := set k | 0 <= k < |alive| && alive[k];
    DistinctCardinality<nat>(chosen);
    forall x | x in picked ensures x in all {
      var i :| 0 <= i < |chosen| && chosen[i] == x;
    }
    var rest := all - picked;
    assert all == picked + rest;
    assert |all| == |picked| + |rest|;
    if |chosen| < ReplicationFactor {
      forall k | k in all ensures k in picked { }
      assert rest == {};
    }
  }
}
