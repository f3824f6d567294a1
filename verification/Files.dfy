/** A file as its size and its sparse chunk rows, and what those mean as bytes. */
module Files {
  import opened Basics
  import opened Chunking

  type Rows = map<nat, Blob>

  datatype File = File(size: nat, rows: Rows)

  const EMPTY_FILE: File := File(0, map[])

  /** No row is empty or longer than a chunk, and no stored byte lies past the size. */
  ghost predicate WellFormed(f: File) {
    && f.size <= MAX_FILE_SIZE
    && forall c :: c in f.rows ==> 1 <= |f.rows[c]| <= CHUNK_SIZE && c * CHUNK_SIZE + |f.rows[c]| <= f.size
  }

  function RowOf(rows: Rows, c: nat): Blob {
    if c in rows then rows[c] else []
  }

  /** Byte `k` of a row or buffer; holes and short rows read as zero. */
  function ByteIn(s: Blob, k: nat): byte {
    if k < |s| then s[k] else 0
  }

  function ByteAt(rows: Rows, p: nat): byte {
    ByteIn(RowOf(rows, p / CHUNK_SIZE), p % CHUNK_SIZE)
  }

  /** The plain byte array a file stands for. */
  function Contents(f: File): Blob {
    seq(f.size, p requires 0 <= p => ByteAt(f.rows, p))
  }

  /** `s` with `d` written at `at`, zero filled up to there when `s` is shorter. */
  function Splice(s: Blob, at: nat, d: Blob): (r: Blob)
    ensures d != [] ==> |r| == Max(|s|, at + |d|)
    ensures d == [] ==> r == s
  {
    if d == [] then s
    else seq(Max(|s|, at + |d|), p requires 0 <= p => if at <= p < at + |d| then d[p - at] else ByteIn(s, p))
  }

  /** The same, but even an empty `d` extends `s` up to where it would go. */
  function Patch(s: Blob, at: nat, d: Blob): Blob {
    if d == [] then Resize(s, Max(|s|, at)) else Splice(s, at, d)
  }

  /** `s` cut, or zero extended, to `n` bytes. */
  function Resize(s: Blob, n: nat): (r: Blob)
    ensures |r| == n
  {
    seq(n, p requires 0 <= p => ByteIn(s, p))
  }

  /** `bytes` with `d` copied over it at `at`. */
  function Overwrite(bytes: Blob, at: nat, d: Blob): (r: Blob)
    requires at + |d| <= |bytes|
    ensures |r| == |bytes|
    ensures forall k :: 0 <= k < |r| ==> r[k] == if at <= k < at + |d| then d[k - at] else bytes[k]
  {
    bytes[..at] + d + bytes[at + |d|..]
  }

  function Zeros(n: nat): (r: Blob)
    ensures |r| == n && forall k :: 0 <= k < n ==> r[k] == 0
  {
    seq(n, _ => 0)
  }

  /** At most `size` bytes of `s` from `offset` on: what a read returns. */
  function Window(s: Blob, offset: nat, size: nat): Blob {
    if offset >= |s| then [] else s[offset..Min(offset + size, |s|)]
  }

  lemma WindowIsByteAt(f: File, offset: nat, size: nat, out: Blob)
    requires offset < f.size && |out| == Min(size, f.size - offset)
    requires forall k :: 0 <= k < |out| ==> out[k] == ByteAt(f.rows, offset + k)
    ensures out == Window(Contents(f), offset, size)
  {
  }

  lemma SpliceIsPrefixSuffix(s: Blob, at: nat, d: Blob, k: nat)
    requires k <= |d|
    ensures Splice(Splice(s, at, d[..k]), at + k, d[k..]) == Splice(s, at, d)
  {
    var a := Splice(Splice(s, at, d[..k]), at + k, d[k..]);
    var b := Splice(s, at, d);
    assert |a| == |b|;
    assert forall p :: 0 <= p < |b| ==> a[p] == b[p];
  }

  lemma SpliceMore(s: Blob, at: nat, data: Blob, k: nat, m: nat)
    requires k <= m <= |data|
    ensures Splice(Splice(s, at, data[..k]), at + k, data[k..m]) == Splice(s, at, data[..m])
  {
    SpliceIsPrefixSuffix(s, at, data[..m], k);
    assert data[..m][..k] == data[..k] && data[..m][k..] == data[k..m];
  }

  /** Resizing a buffer with zeros and copying over it is splicing. */
  lemma ResizeAndCopyIsSplice(row: Blob, start: nat, d: Blob)
    requires d != []
    ensures var long := if |row| < start + |d| then row + Zeros(start + |d| - |row|) else row;
            Overwrite(long, start, d) == Splice(row, start, d)
  {
    var long := if |row| < start + |d| then row + Zeros(start + |d| - |row|) else row;
    LongReads(row, start + |d|, long);
    hide Zeros;
    var a, b := Overwrite(long, start, d), Splice(row, start, d);
    assert |a| == |b|;
    assert forall k :: 0 <= k < |a| ==> a[k] == b[k];
  }

  lemma LongReads(row: Blob, n: nat, long: Blob)
    requires long == if |row| < n then row + Zeros(n - |row|) else row
    ensures |long| == Max(|row|, n) && forall k :: 0 <= k < |long| ==> long[k] == ByteIn(row, k)
  {
  }

  /** A whole chunk over a row no longer than one chunk replaces it. */
  lemma FullChunkReplaces(row: Blob, d: Blob)
    requires |row| <= |d|
    ensures d == [] || Splice(row, 0, d) == d
  {
    if d != [] {
      assert Splice(row, 0, d) == d;
    }
  }

  /* ----- Writing ----- */

  /** One piece written into row `c`, by read-modify-write. */
  function WritePiece(f: File, c: nat, start: nat, d: Blob): File {
    File(Max(f.size, c * CHUNK_SIZE + start + |d|), f.rows[c := Splice(RowOf(f.rows, c), start, d)])
  }

  ghost predicate PieceFits(c: nat, start: nat, d: Blob) {
    d != [] && start + |d| <= CHUNK_SIZE && c * CHUNK_SIZE + start + |d| <= MAX_FILE_SIZE
  }

  lemma WritePieceContents(f: File, c: nat, start: nat, d: Blob)
    requires WellFormed(f) && PieceFits(c, start, d)
    ensures WellFormed(WritePiece(f, c, start, d))
    ensures Contents(WritePiece(f, c, start, d)) == Splice(Contents(f), c * CHUNK_SIZE + start, d)
  {
    hide WellFormed, PieceFits, ByteAt, Contents, Splice, WritePiece;
    WritePieceIsWellFormed(f, c, start, d);
    var g, at := WritePiece(f, c, start, d), c * CHUNK_SIZE + start;
    ContentsLength(f);
    ContentsLength(g);
    var a, b := Contents(g), Splice(Contents(f), at, d);
    forall p: nat | p < |a| ensures a[p] == b[p] {
      WritePieceByte(f, c, start, d, p);
      ContentsAt(g, p);
      SpliceAt(Contents(f), at, d, p);
      if p >= f.size {
        NothingPastTheSize(f, p);
      } else {
        ContentsAt(f, p);
      }
    }
    assert a == b;
  }

  lemma ContentsLength(f: File)
    ensures |Contents(f)| == f.size
  {
  }

  lemma ContentsAt(f: File, p: nat)
    requires p < f.size
    ensures |Contents(f)| == f.size && Contents(f)[p] == ByteAt(f.rows, p)
  {
    hide ByteAt;
  }

  lemma SpliceAt(s: Blob, at: nat, d: Blob, p: nat)
    requires d != [] && p < Max(|s|, at + |d|)
    ensures Splice(s, at, d)[p] == if at <= p < at + |d| then d[p - at] else ByteIn(s, p)
  {
  }

  lemma WritePieceIsWellFormed(f: File, c: nat, start: nat, d: Blob)
    requires WellFormed(f) && PieceFits(c, start, d)
    ensures WellFormed(WritePiece(f, c, start, d))
    ensures d != [] && WritePiece(f, c, start, d).size == Max(f.size, c * CHUNK_SIZE + start + |d|)
  {
    assert |RowOf(f.rows, c)| <= CHUNK_SIZE
           && (RowOf(f.rows, c) != [] ==> c * CHUNK_SIZE + |RowOf(f.rows, c)| <= f.size);
  }

  lemma WritePieceByte(f: File, c: nat, start: nat, d: Blob, p: nat)
    requires PieceFits(c, start, d)
    ensures var at := c * CHUNK_SIZE + start;
            ByteAt(WritePiece(f, c, start, d).rows, p) == if at <= p < at + |d| then d[p - at] else ByteAt(f.rows, p)
  {
    hide Splice;
    assert p == p / CHUNK_SIZE * CHUNK_SIZE + p % CHUNK_SIZE;
    if p / CHUNK_SIZE == c {
      SpliceByte(RowOf(f.rows, c), start, d, p % CHUNK_SIZE);
    }
  }

  lemma SpliceByte(s: Blob, at: nat, d: Blob, k: nat)
    requires d != []
    ensures ByteIn(Splice(s, at, d), k) == if at <= k < at + |d| then d[k - at] else ByteIn(s, k)
  {
  }

  lemma NothingPastTheSize(f: File, p: nat)
    requires WellFormed(f) && p >= f.size
    ensures ByteAt(f.rows, p) == 0
  {
    assert p == p / CHUNK_SIZE * CHUNK_SIZE + p % CHUNK_SIZE;
  }

  /** How many bytes of the buffer chunks `first..n` of the span take. */
  function Taken(span: ChunkSpan, n: nat): (k: nat)
    requires span.Valid() && span.first <= n <= span.last + 1
    ensures k <= span.end - span.start
    ensures n == span.first ==> k == 0
    ensures n == span.last + 1 ==> k == span.end - span.start
    ensures n <= span.last ==> k == span.Piece(n).bufStart
  {
    if n == span.first then
      PiecesTile(span, n);
      0
    else
      PiecesTile(span, n - 1);
      span.Piece(n - 1).bufEnd
  }

  /** The data of one piece of a write. */
  function PieceData(span: ChunkSpan, data: Blob, c: nat): (d: Blob)
    requires span.Valid() && |data| == span.end - span.start
    requires span.first <= c <= span.last
    ensures |d| == span.Piece(c).chunkEnd - span.Piece(c).chunkStart
  {
    PiecesTile(span, c);
    data[span.Piece(c).bufStart..span.Piece(c).bufEnd]
  }

  /** Chunks `first..n` of a write applied, in order. */
  function WriteChunks(f: File, span: ChunkSpan, data: Blob, n: nat): File
    requires span.Valid() && |data| == span.end - span.start
    requires span.first <= n <= span.last + 1
    decreases n
  {
    if n == span.first then f
    else WritePiece(WriteChunks(f, span, data, n - 1), n - 1, span.Piece(n - 1).chunkStart,
        PieceData(span, data, n - 1))
  }

  /** One more chunk of a write changes one row. */
  lemma NextRow(f: File, span: ChunkSpan, data: Blob, c: nat)
    requires span.Valid() && |data| == span.end - span.start && span.first <= c <= span.last
    ensures var p, rows := span.Piece(c), WriteChunks(f, span, data, c).rows;
            && p.chunkStart < p.chunkEnd <= CHUNK_SIZE
            && p.bufStart < p.bufEnd <= |data| && p.bufEnd - p.bufStart == p.chunkEnd - p.chunkStart
            && WriteChunks(f, span, data, c + 1).rows ==
               rows[c := Splice(RowOf(rows, c), p.chunkStart, data[p.bufStart..p.bufEnd])]
    ensures WriteChunks(f, span, data, span.first) == f
  {
    hide Splice, RowOf;
    PiecesTile(span, c);
  }

  /** A write as the unbuffered path performs it. */
  function WriteFile(f: File, offset: nat, data: Blob): File
    requires offset + |data| <= U64_MAX
  {
    match NewSpan(offset, |data|)
    case None => f
    case Some(span) => WriteChunks(f, span, data, span.last + 1)
  }

  /** Writing the first chunks of a span puts exactly the bytes they take into the plain array. */
  lemma {:induction false} WriteChunksContents(f: File, span: ChunkSpan, data: Blob, n: nat)
    requires WellFormed(f)
    requires span.Valid() && |data| == span.end - span.start && span.end <= MAX_FILE_SIZE
    requires span.first <= n <= span.last + 1
    ensures WellFormed(WriteChunks(f, span, data, n))
    ensures Contents(WriteChunks(f, span, data, n)) == Splice(Contents(f), span.start, data[..Taken(span, n)])
    ensures WriteChunks(f, span, data, n).size == if n == span.first then f.size
            else Max(f.size, span.start + Taken(span, n))
    decreases n
  {
    hide Contents, Splice, WellFormed, WritePiece, Taken, PieceData;
    if n == span.first {
      assert data[..0] == [];
      assert Contents(f) == Splice(Contents(f), span.start, []);
    } else {
      WriteChunksContents(f, span, data, n - 1);
      PieceFacts(span, data, n - 1);
      var p := span.Piece(n - 1);
      WriteOneMore(Contents(f), WriteChunks(f, span, data, n - 1), span.start, data, p.bufStart, p.bufEnd,
                   n - 1, p.chunkStart);
    }
  }

  lemma PieceFacts(span: ChunkSpan, data: Blob, c: nat)
    requires span.Valid() && |data| == span.end - span.start && span.end <= MAX_FILE_SIZE
    requires span.first <= c <= span.last
    ensures var p := span.Piece(c);
            && p.bufStart < p.bufEnd <= |data| && PieceData(span, data, c) == data[p.bufStart..p.bufEnd]
            && span.start + p.bufStart == c * CHUNK_SIZE + p.chunkStart
            && PieceFits(c, p.chunkStart, data[p.bufStart..p.bufEnd])
            && Taken(span, c) == p.bufStart && Taken(span, c + 1) == p.bufEnd
  {
    PiecesTile(span, c);
  }

  lemma WriteOneMore(s: Blob, g: File, at: nat, data: Blob, k: nat, m: nat, c: nat, start: nat)
    requires k < m <= |data| && at + k == c * CHUNK_SIZE + start
    requires PieceFits(c, start, data[k..m])
    requires WellFormed(g) && Contents(g) == Splice(s, at, data[..k])
    ensures WellFormed(WritePiece(g, c, start, data[k..m]))
    ensures Contents(WritePiece(g, c, start, data[k..m])) == Splice(s, at, data[..m])
    ensures WritePiece(g, c, start, data[k..m]).size == Max(g.size, at + m)
  {
    hide Contents, Splice, WellFormed;
    WritePieceContents(g, c, start, data[k..m]);
    SpliceMore(s, at, data, k, m);
  }

  lemma {:induction false} WriteChunksSize(f: File, span: ChunkSpan, data: Blob, n: nat)
    requires span.Valid() && |data| == span.end - span.start
    requires span.first <= n <= span.last + 1
    ensures WriteChunks(f, span, data, n).size == if n == span.first then f.size
            else Max(f.size, span.start + Taken(span, n))
    decreases n
  {
    hide Splice;
    if n > span.first {
      WriteChunksSize(f, span, data, n - 1);
      PiecesTile(span, n - 1);
    }
  }

  /** The unbuffered path refines the plain array: holes, short rows and chunk borders vanish. */
  lemma WriteFileContents(f: File, offset: nat, data: Blob)
    requires WellFormed(f) && offset + |data| <= MAX_FILE_SIZE
    ensures WellFormed(WriteFile(f, offset, data))
    ensures Contents(WriteFile(f, offset, data)) == Splice(Contents(f), offset, data)
  {
    if data != [] {
      var span := NewSpan(offset, |data|).value;
      WriteChunksContents(f, span, data, span.last + 1);
      assert data[..|data|] == data;
    }
  }

  /** A sequence of writes, as one batch stores them. */
  function WriteBatch(f: File, writes: seq<(nat, Blob)>): File
    requires forall w :: w in writes ==> w.0 + |w.1| <= U64_MAX
  {
    if writes == [] then f
    else var w := writes[|writes| - 1]; WriteFile(WriteBatch(f, writes[..|writes| - 1]), w.0, w.1)
  }

  /** How many bytes a sequence of writes carries. */
  function TotalBytes(writes: seq<(nat, Blob)>): nat {
    if writes == [] then 0 else TotalBytes(writes[..|writes| - 1]) + |writes[|writes| - 1].1|
  }

  lemma NextWrite(f: File, writes: seq<(nat, Blob)>, i: nat)
    requires i < |writes| && forall w :: w in writes ==> w.0 + |w.1| <= U64_MAX
    ensures writes[i] in writes
    ensures WriteBatch(f, writes[..i + 1]) == WriteFile(WriteBatch(f, writes[..i]), writes[i].0, writes[i].1)
    ensures TotalBytes(writes[..i + 1]) == TotalBytes(writes[..i]) + |writes[i].1|
  {
    hide WriteFile;
    assert writes[..i + 1][..i] == writes[..i];
  }

  lemma WriteFileIsChunks(f: File, offset: nat, data: Blob)
    requires offset + |data| <= U64_MAX
    ensures match NewSpan(offset, |data|)
            case None => data == [] && WriteFile(f, offset, data) == f
            case Some(span) => |data| == span.end - span.start && span.end == offset + |data|
                               && WriteFile(f, offset, data) == WriteChunks(f, span, data, span.last + 1)
  {
  }

  /* ----- Truncating ----- */

  /** Drops the rows past the new end and cuts the final one; growing changes only the size. */
  function TruncateRows(rows: Rows, n: nat): Rows {
    if n == 0 then map[]
    else
      var finalChunk := (n - 1) / CHUNK_SIZE;
      var finalLen := (n - 1) % CHUNK_SIZE + 1;
      map c | c in rows && c <= finalChunk ::
        if c == finalChunk && |rows[c]| > finalLen then rows[c][..finalLen] else rows[c]
  }

  function TruncateFile(f: File, n: nat): File {
    File(n, TruncateRows(f.rows, n))
  }

  /** Shrinking leaves the exact prefix; growing, also after a shrink inside a chunk, adds only
      zeros. */
  lemma TruncateContents(f: File, n: nat)
    requires WellFormed(f) && n <= MAX_FILE_SIZE
    ensures WellFormed(TruncateFile(f, n))
    ensures Contents(TruncateFile(f, n)) == Resize(Contents(f), n)
  {
    var g := TruncateFile(f, n);
    if n > 0 {
      var last := (n - 1) / CHUNK_SIZE;
      assert n == last * CHUNK_SIZE + (n - 1) % CHUNK_SIZE + 1;
      forall c | c in g.rows ensures 1 <= |g.rows[c]| <= CHUNK_SIZE && c * CHUNK_SIZE + |g.rows[c]| <= n {
        if c < last {
          assert (c + 1) * CHUNK_SIZE <= last * CHUNK_SIZE;
        }
      }
    }
    var a, b := Contents(g), Resize(Contents(f), n);
    forall p | 0 <= p < n ensures a[p] == b[p] {
      assert p == p / CHUNK_SIZE * CHUNK_SIZE + p % CHUNK_SIZE;
      assert p / CHUNK_SIZE <= (n - 1) / CHUNK_SIZE;
      if p >= f.size {
        NothingPastTheSize(f, p);
      }
    }
  }

  /** Resizing is the exact prefix, or the old bytes followed only by zeros. */
  lemma ResizeIsPrefixOrZeros(s: Blob, n: nat)
    ensures n <= |s| ==> Resize(s, n) == s[..n]
    ensures n >= |s| ==> Resize(s, n) == s + Zeros(n - |s|)
  {
  }
}
