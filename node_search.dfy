/**
 * The storage node's half of the distributed word search (search_node,
 * 3.cpp:612-756): the local scan of every chunk of the file, and the boundary
 * check the coordinator asks for afterwards.
 */
module NodeSearch {
  import opened Utils
  import opened Chunks

  /** A search hit: the word's first byte is byte `pos` of chunk `chunk`. */
  datatype Hit = Hit(pos: nat, chunk: nat)

  predicate Blank(c: char) {
    c == '\0' || c == ' '
  }

  predicate NoZero(word: seq<char>) {
    forall i :: 0 <= i < |word| ==> word[i] != '\0'
  }

  /**
   * Byte k of the pattern the node matches: the received word moved one place
   * right behind a space (3.cpp:628-633), then zero bytes.
   */
  function Pattern(word: seq<char>, k: nat): char {
    if k == 0 then ' ' else if k - 1 < |word| then word[k - 1] else '\0'
  }

  // ---------------------------------------------------------------- local scan

  /** The comparison loop of the scan at chunk offset j, from pattern index k (3.cpp:646-668). */
  function ScanFrom(data: Block, word: seq<char>, j: nat, k: nat): bool
    decreases ChunkSize - (j + k)
  {
    if j + k >= ChunkSize then true
    else if Pattern(word, k) == '\0' then Blank(data[j + k])
    else if data[j + k] != Pattern(word, k) then false
    else ScanFrom(data, word, j, k + 1)
  }

  /** Outcome of the scan at offset j: `flag` at 3.cpp:669. */
  function MatchAt(data: Block, word: seq<char>, j: nat): bool {
    ScanFrom(data, word, j, 0)
  }

  /**
   * A whole word at offset j as the node sees it: a space at j, then the word's
   * bytes as far as the chunk goes, then a blank byte if the chunk has room.
   */
  ghost predicate WordAfterSpace(data: Block, word: seq<char>, j: nat)
    requires j < ChunkSize
  {
    && data[j] == ' '
    && (forall i :: 0 <= i < |word| && j + 1 + i < ChunkSize ==> data[j + 1 + i] == word[i])
    && (j + 1 + |word| < ChunkSize ==> Blank(data[j + 1 + |word|]))
  }

  lemma {:induction false} ScanFromMeans(data: Block, word: seq<char>, j: nat, k: nat)
    requires NoZero(word) && j < ChunkSize && k <= |word| + 1
    ensures ScanFrom(data, word, j, k) <==>
              && (forall t :: k <= t <= |word| && j + t < ChunkSize ==> data[j + t] == Pattern(word, t))
              && (j + |word| + 1 < ChunkSize ==> Blank(data[j + |word| + 1]))
    decreases |word| + 1 - k
  {
    if j + k < ChunkSize && k <= |word| {
      assert Pattern(word, k) != '\0';
      ScanFromMeans(data, word, j, k + 1);
    }
  }

  /** With a word free of zero bytes, the scan's loop finds exactly the whole words after a space. */
  lemma MatchAtMeans(data: Block, word: seq<char>, j: nat)
    requires NoZero(word) && j < ChunkSize
    ensures MatchAt(data, word, j) <==> WordAfterSpace(data, word, j)
  {
    ScanFromMeans(data, word, j, 0);
    if MatchAt(data, word, j) {
      forall i | 0 <= i < |word| && j + 1 + i < ChunkSize ensures data[j + 1 + i] == word[i] {
        assert Pattern(word, i + 1) == word[i];
      }
    }
    if WordAfterSpace(data, word, j) {
      forall t | 0 <= t <= |word| && j + t < ChunkSize ensures data[j + t] == Pattern(word, t) {
        if t > 0 { assert data[j + 1 + (t - 1)] == word[t - 1]; }
      }
    }
  }

  /** The extra check on chunk 0: its first |word| bytes are the word (3.cpp:676-693). */
  predicate PrefixMatch(data: Block, word: seq<char>)
    requires |word| <= ChunkSize
  {
    data[..|word|] == word
  }

  /** Hits of the scan loop over offsets 0 .. n - 1 of one chunk (3.cpp:644-674). */
  function ScanOffsets(c: Chunk, word: seq<char>, n: nat): (hits: seq<Hit>)
    requires n <= |c.data|
    ensures forall h :: h in hits <==>
              h.chunk == c.chunkId && 1 <= h.pos <= n && MatchAt(c.data, word, h.pos - 1)
  {
    if n == 0 then []
    else ScanOffsets(c, word, n - 1) + (if MatchAt(c.data, word, n - 1) then [Hit(n, c.chunkId)] else [])
  }

  /** All hits a node reports for one chunk: the scan, then the chunk-0 prefix hit (0, 0). */
  function ScanChunk(c: Chunk, word: seq<char>): (hits: seq<Hit>)
    requires |word| <= ChunkSize
    ensures forall h :: h in hits <==>
              || (h.chunk == c.chunkId && 1 <= h.pos <= ChunkSize && MatchAt(c.data, word, h.pos - 1))
              || (h == Hit(0, 0) && c.chunkId == 0 && PrefixMatch(c.data, word))
  {
    ScanOffsets(c, word, |c.data|) + (if c.chunkId == 0 && PrefixMatch(c.data, word) then [Hit(0, 0)] else [])
  }

  /** The hits a node sends for file `fileId`: every stored chunk of that file is scanned, in store order (3.cpp:636-696). */
  function ScanStore(store: seq<Chunk>, fileId: int, word: seq<char>): (hits: seq<Hit>)
    requires |word| <= ChunkSize
    ensures store == [] ==> hits == []
  {
    if store == [] then []
    else
      ScanStore(store[..|store| - 1], fileId, word)
      + (if store[|store| - 1].fileId == fileId then ScanChunk(store[|store| - 1], word) else [])
  }

  /** Chunk i of the store belongs to the file and yields hit h. */
  ghost predicate YieldedBy(store: seq<Chunk>, fileId: int, word: seq<char>, h: Hit, i: int)
    requires |word| <= ChunkSize
  {
    0 <= i < |store| && store[i].fileId == fileId && h in ScanChunk(store[i], word)
  }

  /** A hit is reported exactly when some stored chunk of the file yields it. */
  lemma {:induction false} ScanStoreHits(store: seq<Chunk>, fileId: int, word: seq<char>, h: Hit)
    requires |word| <= ChunkSize
    ensures h in ScanStore(store, fileId, word) <==> exists i :: YieldedBy(store, fileId, word, h, i)
  {
    if store != [] {
      var init := store[..|store| - 1];
      var last := store[|store| - 1];
      var own := if last.fileId == fileId then ScanChunk(last, word) else [];
      assert ScanStore(store, fileId, word) == ScanStore(init, fileId, word) + own;
      ScanStoreHits(init, fileId, word, h);
      if h in ScanStore(store, fileId, word) {
        if h in ScanStore(init, fileId, word) {
          var i :| YieldedBy(init, fileId, word, h, i);
          assert YieldedBy(store, fileId, word, h, i);
        } else {
          assert YieldedBy(store, fileId, word, h, |store| - 1);
        }
      }
      if exists i :: YieldedBy(store, fileId, word, h, i) {
        var i :| YieldedBy(store, fileId, word, h, i);
        if i < |init| {
          assert YieldedBy(init, fileId, word, h, i);
        } else {
          assert h in own;
        }
      }
    }
  }

  /** The shape of every hit a node reports: at most 32 bytes in, and position 0 only in chunk 0. */
  predicate ScanShaped(h: Hit) {
    h.pos <= ChunkSize && (h.pos == 0 ==> h.chunk == 0)
  }

  /** Every hit a node reports has the scan's shape. */
  lemma ScanStoreShaped(store: seq<Chunk>, fileId: int, word: seq<char>, h: Hit)
    requires |word| <= ChunkSize && h in ScanStore(store, fileId, word)
    ensures ScanShaped(h)
  {
    ScanStoreHits(store, fileId, word, h);
  }

  // ---------------------------------------------------------- boundary check

  /** The comparison loop of the boundary check: chunk byte j against pattern byte j + shift (3.cpp:723-743). */
  function CheckFrom(data: Block, word: seq<char>, shift: nat, j: nat): bool
    decreases ChunkSize - j
  {
    if j >= ChunkSize then true
    else if Pattern(word, j + shift) == '\0' then Blank(data[j])
    else if data[j] != Pattern(word, j + shift) then false
    else CheckFrom(data, word, shift, j + 1)
  }

  /** Verdict on a pending hit at position p, against the chunk handed in (`pos = 32 - p`, 3.cpp:721). */
  function VerifyBoundary(data: Block, word: seq<char>, p: nat): bool
    requires p <= ChunkSize
  {
    CheckFrom(data, word, ChunkSize - p, 0)
  }

  /** First chunk byte the check wants blank: where the pattern's terminating zero falls. */
  function StopAt(word: seq<char>, shift: nat): nat {
    if shift <= |word| + 1 then |word| + 1 - shift else 0
  }

  lemma {:induction false} CheckFromMeans(data: Block, word: seq<char>, shift: nat, j: nat)
    requires NoZero(word) && j <= StopAt(word, shift)
    ensures CheckFrom(data, word, shift, j) <==>
              && (forall t :: j <= t < StopAt(word, shift) && t < ChunkSize ==> data[t] == Pattern(word, t + shift))
              && (StopAt(word, shift) < ChunkSize ==> Blank(data[StopAt(word, shift)]))
    decreases ChunkSize - j
  {
    if j < ChunkSize && j < StopAt(word, shift) {
      assert Pattern(word, j + shift) != '\0';
      CheckFromMeans(data, word, shift, j + 1);
    } else if j < ChunkSize {
      assert Pattern(word, j + shift) == '\0';
    }
  }

  /**
   * What the boundary check accepts, for a word free of zero bytes: the next
   * chunk must start with pattern bytes 32 - p onwards, that is with the word
   * from index 31 - p on, followed by a blank byte. The scan put word index 0 at
   * byte p, so the word bytes it left for the next chunk start at index 32 - p:
   * the check reads the word one byte early.
   */
  lemma VerifyBoundaryMeans(data: Block, word: seq<char>, p: nat)
    requires NoZero(word) && 1 <= p < ChunkSize && ChunkSize - p <= |word|
    ensures VerifyBoundary(data, word, p) <==>
              && (forall t :: 0 <= t < |word| + p - ChunkSize + 1 && t < ChunkSize ==> data[t] == word[t + ChunkSize - p - 1])
              && (|word| + p - ChunkSize + 1 < ChunkSize ==> Blank(data[|word| + p - ChunkSize + 1]))
  {
    var shift := ChunkSize - p;
    CheckFromMeans(data, word, shift, 0);
    assert StopAt(word, shift) == |word| + p - ChunkSize + 1;
  }

  /** With no shift, the boundary check's loop is the scan's loop at offset 0. */
  lemma {:induction false} CheckFromUnshifted(data: Block, word: seq<char>, k: nat)
    ensures CheckFrom(data, word, 0, k) == ScanFrom(data, word, 0, k)
    decreases ChunkSize - k
  {
    if k < ChunkSize && Pattern(word, k) != '\0' && data[k] == Pattern(word, k) {
      CheckFromUnshifted(data, word, k + 1);
    }
  }

  /**
   * The check for a hit at position 32 (the space was the chunk's last byte):
   * the next chunk must itself start with a space, then the word, then a blank
   * byte -- the scan's own test at offset 0. The word left for the next chunk
   * starts at its byte 0, so here too the check reads one byte early.
   */
  lemma VerifyBoundaryAtEnd(data: Block, word: seq<char>)
    requires NoZero(word)
    ensures VerifyBoundary(data, word, ChunkSize) <==> WordAfterSpace(data, word, 0)
  {
    CheckFromUnshifted(data, word, 0);
    MatchAtMeans(data, word, 0);
  }

  /**
   * A word split across a chunk boundary: chunk 0 ends in " ab" and chunk 1
   * starts with "c ". The scan of chunk 0 reports it at position 30, which runs
   * past the chunk end, and the boundary check on chunk 1 then rejects it,
   * because it compares "c" with the word's second byte.
   */
  lemma SplitWordRejected()
    ensures var first: Block := seq(ChunkSize, i => if i < 29 then 'x' else if i == 29 then ' ' else if i == 30 then 'a' else 'b');
            var second: Block := seq(ChunkSize, i => if i == 0 then 'c' else if i == 1 then ' ' else '\0');
            && MatchAt(first, "abc", 29)
            && WordAfterSpace(first, "abc", 29)
            && second[..2] == "c "
            && !VerifyBoundary(second, "abc", 30)
  {
  }

  /**
   * The node's answer to one boundary request. The chunk is taken from the
   * store by position, `store[r.chunk]`, whatever file it belongs to; an index
   * past the store or a position past the chunk reads out of bounds (None).
   */
  function Answer(store: seq<Chunk>, word: seq<char>, r: Hit): (a: Option<bool>)
    ensures a.Some? <==> r.chunk < |store| && r.pos <= ChunkSize
    ensures a.Some? ==> a.value == VerifyBoundary(store[r.chunk].data, word, r.pos)
  {
    if r.chunk < |store| && r.pos <= ChunkSize then Some(VerifyBoundary(store[r.chunk].data, word, r.pos)) else None
  }

  /** The node's answers to the boundary requests it was sent, in request order (3.cpp:716-752). */
  function VerifyRequests(store: seq<Chunk>, word: seq<char>, requests: seq<Hit>): (answers: Option<seq<bool>>)
    ensures answers.None? <==> exists i :: 0 <= i < |requests| && Answer(store, word, requests[i]).None?
    ensures answers.Some? ==> |answers.value| == |requests|
    ensures answers.Some? ==>
              forall i :: 0 <= i < |requests| ==> Some(answers.value[i]) == Answer(store, word, requests[i])
  {
    if requests == [] then Some([])
    else
      var last := requests[|requests| - 1];
      match VerifyRequests(store, word, requests[..|requests| - 1])
      case None => None
      case Some(init) =>
        match Answer(store, word, last)
        case None => None
        case Some(b) => Some(init + [b])
  }
}
