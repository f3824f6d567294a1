/** Chunk geometry: row keys, the chunks a byte range covers, and the pieces of it. */
module Chunking {
  import opened Basics

  newtype byte = b: int | 0 <= b < 256

  type Blob = seq<byte>

  const CHUNK_SIZE: nat := 65536
  const MAX_CHUNKS: nat := 0x100_0000
  const MAX_FILE_SIZE: nat := MAX_CHUNKS * CHUNK_SIZE
  const MAX_INO: nat := 0x7F_FFFF_FFFF
  const I64_MAX: int := 0x7FFF_FFFF_FFFF_FFFF
  const U64_MAX: int := 0xFFFF_FFFF_FFFF_FFFF

  /* ----- Row keys ----- */

  /** Row id of a chunk. The source shifts and ors; `ShiftOrIsSum` is why a sum does here. */
  function ChunkKey(ino: nat, chunkIndex: nat): int {
    ino * MAX_CHUNKS + chunkIndex
  }

  function ChunkIndexOf(key: nat): nat {
    key % MAX_CHUNKS
  }

  function InoOf(key: nat): nat {
    key / MAX_CHUNKS
  }

  /** On 64-bit words, or-ing the index into the shifted inode number is addition, the sum is a
      positive i64, and masking and shifting give the parts back. */
  lemma ShiftOrIsSum(ino: bv64, chunkIndex: bv64)
    requires ino <= 0x7F_FFFF_FFFF && chunkIndex < 0x100_0000
    ensures (ino << 24) | chunkIndex == (ino << 24) + chunkIndex
    ensures ((ino << 24) | chunkIndex) & 0xFF_FFFF == chunkIndex
    ensures ((ino << 24) | chunkIndex) >> 24 == ino
    ensures (ino << 24) | chunkIndex <= 0x7FFF_FFFF_FFFF_FFFF
  {
  }

  /* The same operators on numbers, bit by bit. */

  function BitOr(a: nat, b: nat): nat {
    if a == 0 && b == 0 then 0 else 2 * BitOr(a / 2, b / 2) + if a % 2 == 1 || b % 2 == 1 then 1 else 0
  }

  function BitAnd(a: nat, b: nat): nat {
    if a == 0 || b == 0 then 0 else 2 * BitAnd(a / 2, b / 2) + if a % 2 == 1 && b % 2 == 1 then 1 else 0
  }

  function ShiftLeft(a: nat, k: nat): nat {
    if k == 0 then a else 2 * ShiftLeft(a, k - 1)
  }

  lemma {:induction false} LowBits(a: nat, k: nat, c: nat)
    requires c < ShiftLeft(1, k)
    ensures BitOr(ShiftLeft(a, k), c) == ShiftLeft(a, k) + c
    ensures BitAnd(ShiftLeft(a, k) + c, ShiftLeft(1, k) - 1) == c
    decreases k
  {
    if k > 0 {
      LowBits(a, k - 1, c / 2);
      assert (ShiftLeft(a, k) + c) / 2 == ShiftLeft(a, k - 1) + c / 2;
    } else {
      NothingToOr(a);
    }
  }

  lemma {:induction false} NothingToOr(a: nat)
    ensures BitOr(a, 0) == a
  {
    if a > 0 {
      NothingToOr(a / 2);
    }
  }

  lemma {:induction false} ShiftLeftIsProduct(a: nat, k: nat)
    ensures ShiftLeft(a, k) == a * ShiftLeft(1, k)
    decreases k
  {
    if k > 0 {
      ShiftLeftIsProduct(a, k - 1);
    }
  }

  /** The sum the model uses as a key is what shifting and or-ing its parts gives, and masking a key
      gives its index. */
  lemma KeyIsShiftOr(ino: nat, c: nat)
    requires c < MAX_CHUNKS
    ensures BitOr(ShiftLeft(ino, 24), c) == ChunkKey(ino, c)
    ensures BitAnd(ChunkKey(ino, c), MAX_CHUNKS - 1) == c
  {
    assert ShiftLeft(1, 8) == 0x100;
    assert ShiftLeft(1, 16) == 0x1_0000;
    assert ShiftLeft(1, 24) == 0x100_0000;
    LowBits(ino, 24, c);
    ShiftLeftIsProduct(ino, 24);
  }

  /** Keys fit a positive i64, decode to their parts, and order like (ino, index) pairs, so a
      range of keys between two indices of one inode holds rows of that inode only. */
  lemma KeysDecodeAndRangesAreDisjoint(ino: nat, c: nat, other: nat, d: nat)
    requires ino <= MAX_INO && c < MAX_CHUNKS
    requires other <= MAX_INO && d < MAX_CHUNKS
    ensures 0 <= ChunkKey(ino, c) <= I64_MAX
    ensures ChunkIndexOf(ChunkKey(ino, c)) == c && InoOf(ChunkKey(ino, c)) == ino
    ensures ChunkKey(ino, c) == ChunkKey(other, d) <==> ino == other && c == d
    ensures ChunkKey(ino, 0) <= ChunkKey(other, d) <= ChunkKey(ino, MAX_CHUNKS - 1) <==> other == ino
    ensures ChunkKey(ino, c) < ChunkKey(other, d) <==> ino < other || (ino == other && c < d)
  {
    if ino < other {
      assert ino * MAX_CHUNKS + MAX_CHUNKS <= other * MAX_CHUNKS;
    } else if other < ino {
      assert other * MAX_CHUNKS + MAX_CHUNKS <= ino * MAX_CHUNKS;
    }
  }

  /** Every nonnegative key is the key of exactly the pair it decodes to. */
  lemma KeyOfParts(key: nat)
    ensures ChunkKey(InoOf(key), ChunkIndexOf(key)) == key
    ensures ChunkIndexOf(key) < MAX_CHUNKS
  {
    assert key == key / MAX_CHUNKS * MAX_CHUNKS + key % MAX_CHUNKS;
  }

  /* ----- Spans and pieces ----- */

  /** The chunk that byte `k` of a buffer at file position `base` lies in, and where in it. */
  function ChunkOf(base: nat, k: nat): nat { (base + k) / CHUNK_SIZE }

  function OffsetIn(base: nat, k: nat): nat { (base + k) % CHUNK_SIZE }

  /** Two ranges of equal length: positions inside a chunk, and the buffer positions they go with. */
  datatype ChunkPiece = ChunkPiece(chunkStart: nat, chunkEnd: nat, bufStart: nat, bufEnd: nat) {
    predicate IsFullChunk() {
      chunkStart == 0 && chunkEnd == CHUNK_SIZE
    }
  }

  /** The chunks covered by a nonempty byte range. */
  datatype ChunkSpan = ChunkSpan(start: nat, end: nat, first: nat, last: nat) {

    ghost predicate Valid() {
      && start < end
      && first * CHUNK_SIZE <= start < first * CHUNK_SIZE + CHUNK_SIZE
      && last * CHUNK_SIZE < end <= last * CHUNK_SIZE + CHUNK_SIZE
    }

    function Piece(chunkIndex: nat): ChunkPiece
      requires Valid() && first <= chunkIndex <= last
    {
      PieceBounds(this, chunkIndex);
      var chunkFrom := chunkIndex * CHUNK_SIZE;
      var from := Max(start, chunkFrom);
      var to := Min(end, chunkFrom + CHUNK_SIZE);
      ChunkPiece(from - chunkFrom, to - chunkFrom, from - start, to - start)
    }
  }

  lemma PieceBounds(span: ChunkSpan, c: nat)
    requires span.Valid() && span.first <= c <= span.last
    ensures span.start < (c + 1) * CHUNK_SIZE
    ensures c * CHUNK_SIZE < span.end
    ensures (c == span.first) == (c * CHUNK_SIZE <= span.start)
    ensures (c == span.last) == (span.end <= (c + 1) * CHUNK_SIZE)
  {
  }

  function NewSpan(offset: nat, len: nat): (span: Option<ChunkSpan>)
    requires offset + len <= U64_MAX
    ensures span.Some? <==> len > 0
    ensures span.Some? ==> span.value.Valid() && span.value.end - span.value.start == len
  {
    if len == 0 then None
    else Some(ChunkSpan(offset, offset + len, offset / CHUNK_SIZE, (offset + len - 1) / CHUNK_SIZE))
  }

  /** The pieces of a span tile the caller's buffer, in order, with no gap and no overlap, and
      each stays inside its chunk at the matching position. */
  lemma PiecesTile(span: ChunkSpan, c: nat)
    requires span.Valid() && span.first <= c <= span.last
    ensures var p := span.Piece(c);
            && p.chunkStart < p.chunkEnd <= CHUNK_SIZE
            && p.bufStart < p.bufEnd <= span.end - span.start
            && p.chunkEnd - p.chunkStart == p.bufEnd - p.bufStart
            && c * CHUNK_SIZE + p.chunkStart == span.start + p.bufStart
            && (c == span.first <==> p.bufStart == 0)
            && (c == span.last <==> p.bufEnd == span.end - span.start)
            && (c < span.last ==> span.Piece(c + 1).bufStart == p.bufEnd)
  {
    PieceBounds(span, c);
    if c < span.last {
      PieceBounds(span, c + 1);
    }
  }

  /** Every byte of the buffer is in the piece of exactly one chunk: the one its file position
      divides to, at the offset its file position leaves. */
  lemma EveryByteInOnePiece(span: ChunkSpan, k: nat, c: nat)
    requires span.Valid() && k < span.end - span.start
    requires span.first <= c <= span.last
    ensures span.first <= ChunkOf(span.start, k) <= span.last
    ensures span.Piece(c).bufStart <= k < span.Piece(c).bufEnd <==> c == ChunkOf(span.start, k)
    ensures c == ChunkOf(span.start, k) ==>
              span.Piece(c).chunkStart + (k - span.Piece(c).bufStart) == OffsetIn(span.start, k)
  {
    PiecesTile(span, c);
    var p := span.start + k;
    assert p == p / CHUNK_SIZE * CHUNK_SIZE + p % CHUNK_SIZE;
    if c < p / CHUNK_SIZE {
      assert (c + 1) * CHUNK_SIZE <= p;
    } else if c > p / CHUNK_SIZE {
      assert p < c * CHUNK_SIZE;
    }
  }

  /** Afterwards a position of `out` holds the byte of `data` at its place in the chunk, if there is
      one, and what it held before otherwise. */
  method CopyOut(span: ChunkSpan, chunkIndex: nat, data: Blob, out: array<byte>)
    requires span.Valid() && span.first <= chunkIndex <= span.last
    requires out.Length == span.end - span.start
    modifies out
    ensures forall k :: 0 <= k < out.Length ==>
                          out[k] == if ChunkOf(span.start, k) == chunkIndex && OffsetIn(span.start, k) < |data|
                          then data[OffsetIn(span.start, k)]
                          else old(out[k])
  {
    var piece := span.Piece(chunkIndex);
    PiecesTile(span, chunkIndex);
    var avail := Min(|data|, piece.chunkEnd);
    forall k | 0 <= k < out.Length
      ensures ChunkOf(span.start, k) == chunkIndex <==> piece.bufStart <= k < piece.bufEnd
      ensures piece.bufStart <= k < piece.bufEnd ==>
                piece.chunkStart + (k - piece.bufStart) == OffsetIn(span.start, k)
    {
      EveryByteInOnePiece(span, k, chunkIndex);
    }
    if avail <= piece.chunkStart {
      return;
    }
    var len := avail - piece.chunkStart;
    forall k | 0 <= k < len {
      out[piece.bufStart + k] := data[piece.chunkStart + k];
    }
  }
}
