/** `list_file`: the live replicas of every chunk of a file (list_master, 3.cpp:758-803). */
module Listing {
  import opened Utils
  import opened Placement
  import opened Catalog

  /** One printed line: chunk index, number of live replicas, their node ranks (1-based). */
  datatype ListLine = ListLine(index: nat, count: nat, ranks: seq<nat>)

  /** The second loop of a line: the live replicas in recorded order, as ranks (3.cpp:793-799). */
  function LiveRanks(nodes: seq<nat>, alive: seq<bool>): (r: seq<nat>)
    requires forall j :: 0 <= j < |nodes| ==> nodes[j] < |alive|
    ensures |r| <= |nodes|
    ensures forall x :: x in r <==> x >= 1 && x - 1 in nodes && alive[x - 1]
  {
    if nodes == [] then []
    else
      var last := nodes[|nodes| - 1];
      LiveRanks(nodes[..|nodes| - 1], alive) + (if alive[last] then [last + 1] else [])
  }

  /** The first loop of a line: the number of live replicas (3.cpp:783-790). */
  function CountAlive(nodes: seq<nat>, alive: seq<bool>): nat
    requires forall j :: 0 <= j < |nodes| ==> nodes[j] < |alive|
  {
    if nodes == [] then 0
    else CountAlive(nodes[..|nodes| - 1], alive) + (if alive[nodes[|nodes| - 1]] then 1 else 0)
  }

  /** The printed count is the number of ranks printed after it. */
  lemma {:induction false} CountMatchesRanks(nodes: seq<nat>, alive: seq<bool>)
    requires forall j :: 0 <= j < |nodes| ==> nodes[j] < |alive|
    ensures CountAlive(nodes, alive) == |LiveRanks(nodes, alive)|
  {
    if nodes != [] {
      CountMatchesRanks(nodes[..|nodes| - 1], alive);
    }
  }

  /** Distinct recorded replicas give distinct printed ranks. */
  lemma {:induction false} LiveRanksDistinct(nodes: seq<nat>, alive: seq<bool>)
    requires forall j :: 0 <= j < |nodes| ==> nodes[j] < |alive|
    requires Distinct(nodes)
    ensures Distinct(LiveRanks(nodes, alive))
  {
    if nodes != [] {
      var init := nodes[..|nodes| - 1];
      LiveRanksDistinct(init, alive);
      var last := nodes[|nodes| - 1];
      assert last !in init by {
        forall j | 0 <= j < |init| ensures init[j] != last {
          assert init[j] == nodes[j];
        }
      }
      var r := LiveRanks(init, alive);
      assert last + 1 !in r;
    }
  }

  /** The positions in the replica list whose node is alive, ascending. */
  function LivePositions(nodes: seq<nat>, alive: seq<bool>): seq<nat>
    requires forall j :: 0 <= j < |nodes| ==> nodes[j] < |alive|
  {
    if nodes == [] then []
    else
      var n := |nodes| - 1;
      LivePositions(nodes[..n], alive) + (if alive[nodes[n]] then [n] else [])
  }

  /**
   * The ranks keep the recorded order: rank i of the line is one more than
   * the node at the i-th live position of the replica list, the positions
   * ascend, and every live position is printed.
   */
  lemma {:induction false} LiveRanksInOrder(nodes: seq<nat>, alive: seq<bool>)
    requires forall j :: 0 <= j < |nodes| ==> nodes[j] < |alive|
    ensures var ps := LivePositions(nodes, alive);
            var r := LiveRanks(nodes, alive);
            && |ps| == |r|
            && (forall i :: 0 <= i < |ps| ==> ps[i] < |nodes| && alive[nodes[ps[i]]] && r[i] == nodes[ps[i]] + 1)
            && (forall i, i' :: 0 <= i < i' < |ps| ==> ps[i] < ps[i'])
            && (forall j :: 0 <= j < |nodes| && alive[nodes[j]] ==> j in ps)
  {
    if nodes != [] {
      var n := |nodes| - 1;
      var init := nodes[..n];
      LiveRanksInOrder(init, alive);
      var ps0 := LivePositions(init, alive);
      var r0 := LiveRanks(init, alive);
      assert forall j :: 0 <= j < n ==> init[j] == nodes[j];
      if alive[nodes[n]] {
        assert LivePositions(nodes, alive) == ps0 + [n];
        assert LiveRanks(nodes, alive) == r0 + [nodes[n] + 1];
      } else {
        assert LivePositions(nodes, alive) == ps0;
        assert LiveRanks(nodes, alive) == r0;
      }
    }
  }

  /** A chunk's replicas lie inside the status table. */
  ghost predicate InTable(m: Metadata, alive: seq<bool>) {
    && |m.chunkNodes| == m.chunkCount
    && forall c, j :: 0 <= c < m.chunkCount && 0 <= j < |m.chunkNodes[c]| ==> m.chunkNodes[c][j] < |alive|
  }

  lemma WellFormedInTable(catalog: seq<Metadata>, alive: seq<bool>, i: nat)
    requires WellFormed(catalog, |alive|) && i < |catalog|
    ensures InTable(catalog[i], alive)
  {
    var m := catalog[i];
    forall c, j | 0 <= c < m.chunkCount && 0 <= j < |m.chunkNodes[c]| ensures m.chunkNodes[c][j] < |alive| {
      assert m.chunkNodes[c][j] in m.chunkNodes[c];
    }
  }

  /** The lines of a file, one per chunk (3.cpp:781-802). */
  function Lines(m: Metadata, alive: seq<bool>): (lines: seq<ListLine>)
    requires InTable(m, alive)
    ensures |lines| == m.chunkCount
  {
    seq(m.chunkCount, c requires 0 <= c < m.chunkCount =>
      ListLine(c, CountAlive(m.chunkNodes[c], alive), LiveRanks(m.chunkNodes[c], alive)))
  }

  /** `list_file name`: -1 (None) for an unknown name, else the lines of the first entry with that name. */
  function ListFile(catalog: seq<Metadata>, alive: seq<bool>, name: string): (r: Option<seq<ListLine>>)
    requires WellFormed(catalog, |alive|)
    ensures r.None? <==> forall i :: 0 <= i < |catalog| ==> catalog[i].name != name
  {
    match Lookup(catalog, name)
    case None => None
    case Some(i) => WellFormedInTable(catalog, alive, i); Some(Lines(catalog[i], alive))
  }

  /**
   * Line c of a listed file names chunk c, and prints exactly the live
   * replicas recorded for it, as ranks, preceded by their number.
   */
  lemma ListFileMeaning(catalog: seq<Metadata>, alive: seq<bool>, name: string, c: nat)
    requires WellFormed(catalog, |alive|)
    requires ListFile(catalog, alive, name).Some?
    ensures var m := catalog[Lookup(catalog, name).value];
            var lines := ListFile(catalog, alive, name).value;
            && |lines| == m.chunkCount
            && (c < m.chunkCount ==>
                  && lines[c].index == c
                  && lines[c].count == |lines[c].ranks| <= ReplicationFactor
                  && Distinct(lines[c].ranks)
                  && forall x :: x in lines[c].ranks <==> x >= 1 && x - 1 in m.chunkNodes[c] && alive[x - 1])
  {
    var m := catalog[Lookup(catalog, name).value];
    WellFormedInTable(catalog, alive, Lookup(catalog, name).value);
    if c < m.chunkCount {
      CountMatchesRanks(m.chunkNodes[c], alive);
      LiveRanksDistinct(m.chunkNodes[c], alive);
    }
  }

  /** The live replicas of a list, as a set. */
  ghost function LiveSet(nodes: seq<nat>, alive: seq<bool>): set<nat> {
    set x | x in nodes && x < |alive| && alive[x]
  }

  /** Over a replica list without repeats, the count is the number of distinct live replicas. */
  lemma {:induction false} CountAliveCardinality(nodes: seq<nat>, alive: seq<bool>)
    requires forall j :: 0 <= j < |nodes| ==> nodes[j] < |alive|
    requires Distinct(nodes)
    ensures CountAlive(nodes, alive) == |LiveSet(nodes, alive)|
  {
    if nodes != [] {
      var init := nodes[..|nodes| - 1];
      var last := nodes[|nodes| - 1];
      DistinctSnoc(nodes);
      CountAliveCardinality(init, alive);
      LiveSetSnoc(init, last, alive);
      assert nodes == init + [last];
    }
  }

  /** The last entry of a list without repeats is not among the others, which have none either. */
  lemma DistinctSnoc(nodes: seq<nat>)
    requires nodes != [] && Distinct(nodes)
    ensures Distinct(nodes[..|nodes| - 1]) && nodes[|nodes| - 1] !in nodes[..|nodes| - 1]
  {
    var init := nodes[..|nodes| - 1];
    forall j | 0 <= j < |init| ensures init[j] != nodes[|nodes| - 1] {
      assert init[j] == nodes[j];
    }
  }

  /** Appending a replica adds it to the live set exactly when it is live. */
  lemma LiveSetSnoc(init: seq<nat>, last: nat, alive: seq<bool>)
    requires last < |alive|
    ensures LiveSet(init + [last], alive) == LiveSet(init, alive) + (if alive[last] then {last} else {})
  {
  }
}
