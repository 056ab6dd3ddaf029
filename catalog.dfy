/**
 * The coordinator's file catalog `file_metadatas` (3.cpp:9-15, 86): an
 * append-only list of file entries, searched by name with the first match
 * winning (3.cpp:229-243, 361-375, 765-779).
 */
module Catalog {
  import opened Utils
  import opened Placement

  /** One catalog entry. `chunkNodes[i]` lists the storage nodes (0-based) holding chunk i. */
  datatype Metadata = Metadata(fileId: int, name: string, chunkCount: nat, chunkNodes: seq<seq<nat>>)

  /** What a successful upload records: one to three distinct replicas per chunk, on nodes below n. */
  ghost predicate WellPlaced(m: Metadata, n: nat) {
    && |m.chunkNodes| == m.chunkCount
    && forall c :: 0 <= c < m.chunkCount ==>
         && 1 <= |m.chunkNodes[c]| <= ReplicationFactor
         && Distinct(m.chunkNodes[c])
         && forall x :: x in m.chunkNodes[c] ==> x < n
  }

  /** Entry i carries file id i + 1 (ids are handed out as catalog size + 1 and never reused). */
  ghost predicate WellFormed(catalog: seq<Metadata>, n: nat) {
    forall i :: 0 <= i < |catalog| ==> catalog[i].fileId == i + 1 && WellPlaced(catalog[i], n)
  }

  /** Index of the first entry called `name`, if any. */
  function Lookup(catalog: seq<Metadata>, name: string): (r: Option<nat>)
    ensures r.None? <==> forall i :: 0 <= i < |catalog| ==> catalog[i].name != name
    ensures r.Some? ==> r.value < |catalog| && catalog[r.value].name == name
    ensures r.Some? ==> forall j :: 0 <= j < r.value ==> catalog[j].name != name
  {
    if catalog == [] then None
    else if catalog[0].name == name then Some(0)
    else match Lookup(catalog[1..], name)
      case None => None
      case Some(i) => Some(i + 1)
  }

  /** The lookup loop: scan the catalog, stop at the first entry whose name matches. */
  method FindFile(catalog: seq<Metadata>, name: string) returns (found: Option<Metadata>)
    ensures found.None? <==> Lookup(catalog, name).None?
    ensures found.Some? ==> found.value == catalog[Lookup(catalog, name).value]
  {
    found := None;
    var i := 0;
    while i < |catalog|
      invariant 0 <= i <= |catalog|
      invariant forall j :: 0 <= j < i ==> catalog[j].name != name
    {
      if catalog[i].name == name {
        found := Some(catalog[i]);
        return;
      }
      i := i + 1;
    }
  }

  /**
   * Appending an entry never changes what an existing name resolves to: a
   * second upload under a known name is recorded but can never be looked up.
   */
  lemma {:induction false} LookupAfterAppend(catalog: seq<Metadata>, m: Metadata, name: string)
    ensures Lookup(catalog + [m], name) ==
              if Lookup(catalog, name).Some? then Lookup(catalog, name)
              else if m.name == name then Some(|catalog|)
              else None
  {
    if catalog != [] && catalog[0].name != name {
      LookupAfterAppend(catalog[1..], m, name);
      assert (catalog + [m])[1..] == catalog[1..] + [m];
    }
  }

  /** Appending the next entry, with id size + 1, keeps the catalog well formed. */
  lemma AppendWellFormed(catalog: seq<Metadata>, m: Metadata, n: nat)
    requires WellFormed(catalog, n) && WellPlaced(m, n) && m.fileId == |catalog| + 1
    ensures WellFormed(catalog + [m], n)
  {
  }
}
