/** Splitting file content into fixed 32-byte chunks (upload_file_master, 3.cpp:103-131). */
module Chunks {

  /** Bytes per chunk; a constant of the source. */
  const ChunkSize: nat := 32

  /** The 32-byte payload of one chunk. */
  type Block = s: seq<char> | |s| == ChunkSize witness seq(ChunkSize, _ => '\0')

  /** A chunk as it travels to and lives on a storage node. */
  datatype Chunk = Chunk(fileId: int, chunkId: nat, data: Block)

  /** Number of chunks of a file of `len` bytes: (len + 31) / 32. */
  function ChunkCount(len: nat): nat {
    (len + ChunkSize - 1) / ChunkSize
  }

  /** Byte `i` of the content; indices at or past the end read as the zero byte. */
  function ByteAt(content: seq<char>, i: nat): char {
    if i < |content| then content[i] else '\0'
  }

  /** `blocks` is the chunking of `content`: block i holds bytes 32*i .. 32*i+31, zero padded. */
  ghost predicate IsSplitOf(blocks: seq<Block>, content: seq<char>) {
    && |blocks| == ChunkCount(|content|)
    && forall i, j :: 0 <= i < |blocks| && 0 <= j < ChunkSize ==>
         blocks[i][j] == ByteAt(content, i * ChunkSize + j)
  }

  /** The chunk-fill loops of the upload. */
  method SplitContent(content: seq<char>) returns (blocks: seq<Block>)
    ensures |blocks| == ChunkCount(|content|)
    ensures forall i, j :: 0 <= i < |blocks| && 0 <= j < ChunkSize ==>
              blocks[i][j] == (if i * ChunkSize + j < |content| then content[i * ChunkSize + j] else '\0')
  {
    var count := ChunkCount(|content|);
    blocks := [];
    var i := 0;
    while i < count
      invariant 0 <= i <= count
      invariant |blocks| == i
      invariant forall a, b :: 0 <= a < i && 0 <= b < ChunkSize ==> blocks[a][b] == ByteAt(content, a * ChunkSize + b)
    {
      var block: seq<char> := [];
      var j := 0;
      while j < ChunkSize
        invariant 0 <= j <= ChunkSize
        invariant |block| == j
        invariant forall b :: 0 <= b < j ==> block[b] == ByteAt(content, i * ChunkSize + b)
      {
        block := block + [ByteAt(content, i * ChunkSize + j)];
        j := j + 1;
      }
      blocks := blocks + [block];
      i := i + 1;
    }
  }

  /** The chunk objects sent to the nodes: chunk i carries the file id and index i. */
  function ChunkObjects(fileId: int, blocks: seq<Block>): (chunks: seq<Chunk>)
    ensures |chunks| == |blocks|
    ensures forall i :: 0 <= i < |chunks| ==> chunks[i] == Chunk(fileId, i, blocks[i])
  {
    seq(|blocks|, i requires 0 <= i < |blocks| => Chunk(fileId, i, blocks[i]))
  }

  /** All blocks laid end to end. */
  function Flatten(blocks: seq<Block>): (r: seq<char>)
    ensures |r| == |blocks| * ChunkSize
  {
    if blocks == [] then [] else Flatten(blocks[..|blocks| - 1]) + blocks[|blocks| - 1]
  }

  lemma {:induction false} FlattenAt(blocks: seq<Block>, x: nat)
    requires x < |blocks| * ChunkSize
    ensures Flatten(blocks)[x] == blocks[x / ChunkSize][x % ChunkSize]
  {
    var n := |blocks| - 1;
    if x < n * ChunkSize {
      FlattenAt(blocks[..n], x);
    }
  }

  /** The chunk count covers the content with fewer than 32 bytes of padding. */
  lemma ChunkCountBounds(len: nat)
    ensures len <= ChunkCount(len) * ChunkSize < len + ChunkSize
  {
  }

  /**
   * Round trip of the chunking: laid end to end, the chunks give back the content
   * followed by fewer than 32 zero bytes.
   */
  lemma SplitRoundTrip(blocks: seq<Block>, content: seq<char>)
    requires IsSplitOf(blocks, content)
    ensures |content| <= |Flatten(blocks)| < |content| + ChunkSize
    ensures Flatten(blocks)[..|content|] == content
    ensures forall x :: |content| <= x < |Flatten(blocks)| ==> Flatten(blocks)[x] == '\0'
  {
    ChunkCountBounds(|content|);
    forall x | 0 <= x < |Flatten(blocks)|
      ensures Flatten(blocks)[x] == ByteAt(content, x)
    {
      FlattenAt(blocks, x);
      assert x == (x / ChunkSize) * ChunkSize + x % ChunkSize;
    }
  }
}
