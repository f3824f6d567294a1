/** The store: transactions over the tables that either commit or change nothing. */
module Database {
  import opened Basics
  import opened Chunking
  import opened Files
  import opened Model
  import opened Namespace
  import opened Tables
  import CacheModel
  import opened Timestamps

  const NAME_MAX: nat := 255

  class Db {
    /** Whether the store never fails. If it may, any operation on it can at any time. */
    const healthy: bool
    var tables: Tables
    /** Every commit of buffered chunks so far. */
    ghost var attempts: seq<Attempt>

    ghost predicate Valid()
      reads this
    {
      TablesOk(tables)
    }

    lemma TablesAreOk()
      requires Valid()
      ensures TablesOk(tables)
    {
    }

    /** Startup. An empty database gets its root. Otherwise the directories' link counts are
        recomputed and the inodes without names, left by a crash while they were open, deleted. */
    constructor Open(stored: Tables, now: Time, healthy: bool)
      requires stored == Tables(map[], map[], map[]) || Repairable(stored)
      ensures Valid() && tables.dirents == stored.dirents
      ensures NodesOf(tables) == map i | i in NodesOf(stored) && NodesOf(stored)[i].nlink != 0 :: NodesOf(stored)[i]
      ensures forall i :: i in tables.inodes && tables.inodes[i].kind == Directory && i != ROOT ==>
                            i in stored.inodes && stored.inodes[i].kind == Directory
      ensures forall i :: i in stored.inodes && stored.inodes[i].kind == Directory ==>
                            i in tables.inodes && (LinksOk(NsOf(stored)) ==> tables.inodes[i] == stored.inodes[i])
      ensures stored.inodes == map[] ==> forall i :: i in tables.inodes ==> i == ROOT
      ensures this.healthy == healthy && DirsDated(stored, tables, if stored.inodes == map[] then {ROOT} else {}, now)
    {
      hide TablesOk, NodesOf, NsOf, RecomputeDirectoryNlink, Repairable, LinksOk;
      var t := EnsureRoot(stored, now);
      ghost var rooted := t;
      RecomputeRepairs(t);
      RecomputeKeepsFiles(t);
      t := RecomputeDirectoryNlink(t);
      t := Sweep(t);
      StartupDates(stored, rooted, t, now);
      this.healthy, tables, attempts := healthy, t, [];
    }

    /** An empty database gets its root. */
    static method EnsureRoot(stored: Tables, now: Time) returns (t: Tables)
      requires stored == Tables(map[], map[], map[]) || Repairable(stored)
      ensures Repairable(t) && t.dirents == stored.dirents && NodesOf(t) == NodesOf(stored)
      ensures t == stored || (stored.inodes == map[] && t.inodes.Keys == {ROOT})
      ensures stored.inodes == map[] ==> t.inodes.Keys == {ROOT} && t.inodes[ROOT] == InodeRow(Directory, 2, 0, now)
    {
      hide NodesOf, NsOf;
      t := stored;
      if ROOT !in t.inodes {
        EmptyIsRepairable(t, now);
        t := t.(inodes := t.inodes[ROOT := InodeRow(Directory, 2, 0, now)]);
      } else {
        RootExists(t);
      }
    }

    /** Deletes every inode without names. */
    static method Sweep(repaired: Tables) returns (t: Tables)
      requires TablesOk(repaired)
      ensures TablesOk(t) && t.dirents == repaired.dirents
      ensures forall i :: i in t.inodes
                <==> i in repaired.inodes && (repaired.inodes[i].kind != Directory ==> repaired.inodes[i].nlink != 0)
      ensures forall i :: i in t.inodes ==> t.inodes[i] == repaired.inodes[i]
      ensures NodesOf(t) == map i | i in NodesOf(repaired) && NodesOf(repaired)[i].nlink != 0 :: NodesOf(repaired)[i]
    {
      hide TablesOk, NodesOf, NsOf;
      t := repaired;
      NamelessAreFiles(t);
      var orphans := set i | i in t.inodes && t.inodes[i].nlink == 0 && i != ROOT;
      ghost var all := orphans;
      assert NodesOf(t) == NodesOf(repaired) - (all - orphans);
      while orphans != {}
        invariant orphans <= all
        invariant TablesOk(t) && t.dirents == repaired.dirents
        invariant forall i :: i in t.inodes <==> i in repaired.inodes && i !in all - orphans
        invariant forall i :: i in t.inodes ==> t.inodes[i] == repaired.inodes[i]
        invariant NodesOf(t) == NodesOf(repaired) - (all - orphans)
        decreases |orphans|
      {
        var i :| i in orphans;
        NamelessViews(t, i);
        DeleteInodeRowsTables(t, i);
        t := DeleteInodeRows(t, i);
        orphans := orphans - {i};
      }
      SweptNodes(repaired, all);
    }

    function Nodes(): map<nat, Node>
      reads this
    {
      NodesOf(tables)
    }

    predicate MayFail(e: DbError) {
      !healthy && IsStorageFailure(e)
    }

    /** Whether the store fails at this point is not for the model to say, unless it never does. */
    method StorageOutcome() returns (failure: Option<DbError>)
      ensures failure.Some? ==> MayFail(failure.value)
    {
      if healthy {
        failure := None;
      } else if * {
        failure := None;
      } else if * {
        failure := Some(NoSpace);
      } else {
        failure := Some(Sqlite);
      }
    }

    /* ----- Files ----- */

    /** Kind and size of an inode. */
    method InodeHead(ino: nat) returns (r: Result<(FileKind, nat)>)
      ensures r.Ok? ==> ino in tables.inodes && r.value == (tables.inodes[ino].kind, tables.inodes[ino].size)
      ensures r.Err? ==> MayFail(r.error) || (r.error == NotFound && ino !in tables.inodes)
    {
      var failure := StorageOutcome();
      if failure.Some? {
        return Err(failure.value);
      }
      if ino !in tables.inodes {
        return Err(NotFound);
      }
      return Ok((tables.inodes[ino].kind, tables.inodes[ino].size));
    }

    /** The attributes of an inode. */
    method GetInode(ino: nat) returns (r: Result<InodeRow>)
      ensures r.Ok? ==> ino in tables.inodes && r.value == tables.inodes[ino]
      ensures r.Err? ==> MayFail(r.error) || (r.error == NotFound && ino !in tables.inodes)
    {
      var failure := StorageOutcome();
      if failure.Some? {
        return Err(failure.value);
      }
      if ino !in tables.inodes {
        return Err(NotFound);
      }
      return Ok(tables.inodes[ino]);
    }

    /** Copies the stored bytes at `offset..` into `out`, row by row. Holes are left as they are. */
    method ReadInto(ino: nat, offset: nat, out: array<byte>) returns (r: Result<()>)
      requires ino <= MAX_INO && offset + out.Length <= U64_MAX
      modifies out
      ensures r.Err? ==> MayFail(r.error)
      ensures r.Ok? ==>
                forall k :: 0 <= k < out.Length ==>
                              var row := RowOf(RowsOf(tables.chunks, ino), ChunkOf(offset, k));
                              out[k] == if OffsetIn(offset, k) < |row| then row[OffsetIn(offset, k)] else old(out[k])
    {
      var failure := StorageOutcome();
      if failure.Some? {
        return Err(failure.value);
      }
      var maybeSpan := NewSpan(offset, out.Length);
      if maybeSpan.None? {
        return Ok(());
      }
      var span := maybeSpan.value;
      ghost var rows := RowsOf(tables.chunks, ino);
      forall k | 0 <= k < out.Length
        ensures span.first <= ChunkOf(offset, k) <= span.last
      {
        EveryByteInOnePiece(span, k, span.first);
      }
      if span.first >= MAX_CHUNKS {
        return Ok(());
      }
      var last := Min(span.last, MAX_CHUNKS - 1);
      var c := span.first;
      while c <= last
        invariant span.first <= c <= last + 1
        invariant forall k :: 0 <= k < out.Length ==>
                                var row := RowOf(rows, ChunkOf(offset, k));
                                out[k] == if ChunkOf(offset, k) < c && OffsetIn(offset, k) < |row|
                                then row[OffsetIn(offset, k)] else old(out[k])
      {
        if ChunkKey(ino, c) in tables.chunks {
          CopyOut(span, c, tables.chunks[ChunkKey(ino, c)], out);
        }
        c := c + 1;
      }
      return Ok(());
    }

    /** `n` bytes of the stored rows of an inode, in a zeroed buffer of its own. */
    method ReadBytes(ino: nat, offset: nat, n: nat) returns (r: Result<Blob>)
      requires ino <= MAX_INO && offset + n <= U64_MAX
      ensures r.Err? ==> MayFail(r.error)
      ensures r.Ok? ==> |r.value| == n && forall k :: 0 <= k < n ==>
                r.value[k] == ByteAt(RowsOf(tables.chunks, ino), offset + k)
    {
      hide RowsOf;
      var output := new byte[n](_ => 0);
      var read := ReadInto(ino, offset, output);
      if read.Err? {
        return Err(read.error);
      }
      r := Ok(output[..]);
    }

    /** Reads the file from the store alone. */
    method ReadFile(ino: nat, offset: nat, size: nat) returns (r: Result<Blob>)
      requires Valid() && (ino in tables.inodes && tables.inodes[ino].kind == RegularFile ==>
                 tables.inodes[ino].size <= MAX_FILE_SIZE)
      ensures r.Ok? ==>
                && ino in tables.inodes && tables.inodes[ino].kind == RegularFile
                && r.value == Window(Contents(FileOf(tables, ino)), offset, size)
      ensures r.Err? ==>
                || MayFail(r.error) || (r.error == NotFound && ino !in tables.inodes)
                || (ino in tables.inodes && Some(r.error) == RegularFileError(tables.inodes[ino].kind))
    {
      hide RowsOf, NsOk;
      var head := InodeHead(ino);
      if head.Err? {
        return Err(head.error);
      }
      var (kind, fileSize) := head.value;
      if RegularFileError(kind).Some? {
        return Err(RegularFileError(kind).value);
      }
      if offset >= fileSize || size == 0 {
        return Ok([]);
      }
      r := ReadBytes(ino, offset, Min(size, fileSize - offset));
      if r.Ok? {
        WindowIsByteAt(FileOf(tables, ino), offset, size, r.value);
      }
    }

    /** The stored bytes of one chunk; nothing for a hole. */
    method ReadChunk(ino: nat, c: nat) returns (r: Result<Blob>)
      requires Valid() && c < MAX_CHUNKS
      ensures r.Err? ==> MayFail(r.error)
      ensures r.Ok? ==> r.value == RowOf(RowsOf(tables.chunks, ino), c) && |r.value| <= CHUNK_SIZE
    {
      var failure := StorageOutcome();
      if failure.Some? {
        return Err(failure.value);
      }
      return Ok(if ChunkKey(ino, c) in tables.chunks then tables.chunks[ChunkKey(ino, c)] else []);
    }

    /** One inode gets new rows, size and mtime, or the tables are as before; either way one attempt
        is recorded. Required of callers is an inode that is a regular file: with any other number
        the rows would have no owner. */
    method ReplaceChunks(ino: nat, size: nat, chunks: seq<(nat, Blob)>, modified: Time) returns (r: Result<()>)
      requires Valid() && ino in tables.inodes && tables.inodes[ino].kind == RegularFile
      requires forall k :: 0 <= k < |chunks| ==> chunks[k].0 < MAX_CHUNKS && |chunks[k].1| <= CHUNK_SIZE
      modifies this
      ensures Valid() && NsOf(tables) == old(NsOf(tables)) && SameTree(old(tables), tables)
      ensures r.Err? ==> MayFail(r.error) && tables == old(tables)
      ensures attempts == old(attempts) + [Attempt(ino, if r.Err? then Some(r.error) else None)]
      ensures r.Ok? ==>
                var file := File(size, UpsertAll(RowsOf(old(tables).chunks, ino), chunks));
                Nodes()
                == old(Nodes())[ino := CacheModel.Node(RegularFile, old(tables).inodes[ino].nlink, modified, file)]
    {
      hide NsOk, RowsOf, NsOf, ChunksOk;
      var tx := tables;
      var k := 0;
      while k < |chunks|
        invariant 0 <= k <= |chunks| && tables == old(tables) && attempts == old(attempts)
        invariant ChunksOk(tx) && tx.inodes == tables.inodes && tx.dirents == tables.dirents
        invariant RowsOf(tx.chunks, ino) == UpsertAll(RowsOf(tables.chunks, ino), chunks[..k])
        invariant forall j :: j in tables.inodes && j != ino ==> RowsOf(tx.chunks, j) == RowsOf(tables.chunks, j)
      {
        UpsertViews(tx, ino, chunks[k].0, chunks[k].1);
        tx := UpsertChunk(tx, ino, chunks[k].0, chunks[k].1);
        assert chunks[..k + 1][..k] == chunks[..k];
        k := k + 1;
      }
      assert chunks[..k] == chunks;
      FileCommitViews(tables, tx, ino, size, modified);
      SetSizeKeepsChunksOk(tx, ino, size, modified);
      FileCommitKeepsTree(tables, tx, ino, size, modified);
      tx := SetSize(tx, ino, size, modified);
      var failure := StorageOutcome();
      attempts := attempts + [Attempt(ino, failure)];
      if failure.Some? {
        return Err(failure.value);
      }
      tables := tx;
      return Ok(());
    }

    /** A short buffer is zero filled, then the input copied over it. */
    static method Patched(row: Blob, start: nat, input: Blob) returns (scratch: Blob)
      requires input != []
      ensures scratch == Splice(row, start, input)
    {
      ResizeAndCopyIsSplice(row, start, input);
      hide Splice;
      scratch := row;
      if |scratch| < start + |input| {
        scratch := scratch + Zeros(start + |input| - |scratch|);
      }
      scratch := Overwrite(scratch, start, input);
    }

    /** One piece of an unbuffered write: a full chunk replaces the row, a partial one is read,
        zero filled, patched and stored. */
    method StorePiece(tx: Tables, ino: nat, c: nat, piece: ChunkPiece, input: Blob) returns (after: Tables)
      requires ChunksOk(tx) && ino in tx.inodes && tx.inodes[ino].kind == RegularFile
      requires c < MAX_CHUNKS && piece.chunkStart < piece.chunkEnd <= CHUNK_SIZE
      requires |input| == piece.chunkEnd - piece.chunkStart
      ensures ChunksOk(after) && after.inodes == tx.inodes && after.dirents == tx.dirents
      ensures RowsOf(after.chunks, ino) ==
              RowsOf(tx.chunks, ino)[c := Splice(RowOf(RowsOf(tx.chunks, ino), c), piece.chunkStart, input)]
      ensures forall j :: j in tx.inodes && j != ino ==> RowsOf(after.chunks, j) == RowsOf(tx.chunks, j)
    {
      var key := ChunkKey(ino, c);
      var scratch := if key in tx.chunks then tx.chunks[key] else [];
      RowBehindKey(tx, ino, c);
      hide RowsOf, ChunksOk, Splice, RowOf, UpsertChunk;
      if piece.IsFullChunk() {
        FullChunkReplaces(scratch, input);
        UpsertViews(tx, ino, c, input);
        return UpsertChunk(tx, ino, c, input);
      }
      scratch := Patched(scratch, piece.chunkStart, input);
      UpsertViews(tx, ino, c, scratch);
      return UpsertChunk(tx, ino, c, scratch);
    }

    /** Writes a batch straight to the store, in one transaction: the path without a buffer. */
    method WriteFileBatch(ino: nat, writes: seq<(nat, Blob)>, modified: Time) returns (r: Result<nat>)
      requires Valid() && forall w :: w in writes ==> w.0 <= U64_MAX
      modifies this`tables
      ensures Valid() && NsOf(tables) == old(NsOf(tables)) && SameTree(old(tables), tables)
      ensures r.Err? ==> tables == old(tables)
      ensures r.Err? && !MayFail(r.error) ==>
                || (r.error == NotFound && ino !in tables.inodes)
                || (ino in tables.inodes && Some(r.error) == RegularFileError(tables.inodes[ino].kind))
                || (r.error == FileTooLarge && exists w :: w in writes && w.0 + |w.1| > MAX_FILE_SIZE)
      ensures r.Ok? ==> ino in tables.inodes && tables.inodes[ino].kind == RegularFile
      ensures r.Ok? && (forall w :: w in writes ==> w.1 == []) ==> r.value == 0 && tables == old(tables)
      ensures r.Ok? && (exists w :: w in writes && w.1 != []) ==>
                && (forall w :: w in writes ==> w.0 + |w.1| <= MAX_FILE_SIZE)
                && ino in old(tables).inodes && r.value == TotalBytes(writes)
                && Nodes() == old(Nodes())[ino := CacheModel.Node(RegularFile, old(tables).inodes[ino].nlink, modified,
                                                                  WriteBatch(FileOf(old(tables), ino), writes))]
    {
      hide NsOk, RowsOf, NsOf, ChunksOk, Splice;
      var head := InodeHead(ino);
      if head.Err? {
        return Err(head.error);
      }
      var kind, newSize: nat := head.value.0, head.value.1;
      if RegularFileError(kind).Some? {
        return Err(RegularFileError(kind).value);
      }
      if forall w | w in writes :: w.1 == [] {
        return Ok(0);
      }
      if exists w | w in writes :: w.0 + |w.1| > MAX_FILE_SIZE {
        return Err(FileTooLarge);
      }
      var tx, written;
      tx, newSize, written := StoreWrites(tables, ino, writes, newSize);
      FileCommitViews(tables, tx, ino, newSize, modified);
      SetSizeKeepsChunksOk(tx, ino, newSize, modified);
      FileCommitKeepsTree(tables, tx, ino, newSize, modified);
      tx := SetSize(tx, ino, newSize, modified);
      var failure := StorageOutcome();
      if failure.Some? {
        return Err(failure.value);
      }
      tables := tx;
      return Ok(written);
    }

    /** The write loop of a batch. */
    method StoreWrites(before: Tables, ino: nat, writes: seq<(nat, Blob)>, size: nat)
        returns (tx: Tables, newSize: nat, written: nat)
      requires ChunksOk(before) && ino in before.inodes && before.inodes[ino].kind == RegularFile
      requires forall w :: w in writes ==> w.0 + |w.1| <= MAX_FILE_SIZE || (w.1 == [] && w.0 <= U64_MAX)
      ensures ChunksOk(tx) && tx.inodes == before.inodes && tx.dirents == before.dirents
      ensures forall w :: w in writes ==> w.0 + |w.1| <= U64_MAX
      ensures File(newSize, RowsOf(tx.chunks, ino)) == WriteBatch(File(size, RowsOf(before.chunks, ino)), writes)
      ensures written == TotalBytes(writes)
      ensures forall j :: j in before.inodes && j != ino ==> RowsOf(tx.chunks, j) == RowsOf(before.chunks, j)
    {
      hide RowsOf, ChunksOk, Splice, WriteBatch, WriteFile, WriteChunks, TotalBytes;
      tx, newSize, written := before, size, 0;
      ghost var f := File(size, RowsOf(before.chunks, ino));
      NoWrites(f);
      assert writes[..0] == [];
      var i := 0;
      while i < |writes|
        invariant 0 <= i <= |writes|
        invariant ChunksOk(tx) && tx.inodes == before.inodes && tx.dirents == before.dirents
        invariant File(newSize, RowsOf(tx.chunks, ino)) == WriteBatch(f, writes[..i])
                  && written == TotalBytes(writes[..i])
        invariant forall j :: j in before.inodes && j != ino ==> RowsOf(tx.chunks, j) == RowsOf(before.chunks, j)
      {
        var (offset, data) := writes[i];
        NextWrite(f, writes, i);
        WriteFileIsChunks(WriteBatch(f, writes[..i]), offset, data);
        var maybeSpan := NewSpan(offset, |data|);
        if maybeSpan.Some? {
          tx := StoreSpan(tx, ino, maybeSpan.value, data, newSize);
          newSize := Max(newSize, offset + |data|);
          written := written + |data|;
        }
        i := i + 1;
      }
      assert writes[..i] == writes;
    }

    /** The chunk loop of one unbuffered write. */
    method StoreSpan(before: Tables, ino: nat, span: ChunkSpan, data: Blob, ghost size: nat) returns (tx: Tables)
      requires ChunksOk(before) && ino in before.inodes && before.inodes[ino].kind == RegularFile
      requires span.Valid() && |data| == span.end - span.start && span.end <= MAX_FILE_SIZE
      ensures ChunksOk(tx) && tx.inodes == before.inodes && tx.dirents == before.dirents
      ensures File(Max(size, span.end), RowsOf(tx.chunks, ino)) ==
              WriteChunks(File(size, RowsOf(before.chunks, ino)), span, data, span.last + 1)
      ensures forall j :: j in before.inodes && j != ino ==> RowsOf(tx.chunks, j) == RowsOf(before.chunks, j)
    {
      hide RowsOf, ChunksOk, Splice, RowOf, WriteChunks, WritePiece;
      NextRow(File(size, RowsOf(before.chunks, ino)), span, data, span.first);
      tx := before;
      ghost var f := File(size, RowsOf(before.chunks, ino));
      var c := span.first;
      while c <= span.last
        invariant span.first <= c <= span.last + 1
        invariant ChunksOk(tx) && tx.inodes == before.inodes && tx.dirents == before.dirents
        invariant RowsOf(tx.chunks, ino) == WriteChunks(f, span, data, c).rows
        invariant forall j :: j in before.inodes && j != ino ==> RowsOf(tx.chunks, j) == RowsOf(before.chunks, j)
      {
        NextRow(f, span, data, c);
        ChunkIsInRange(span, c);
        var piece := span.Piece(c);
        tx := StorePiece(tx, ino, c, piece, data[piece.bufStart..piece.bufEnd]);
        c := c + 1;
      }
      WriteChunksSize(f, span, data, c);
    }

    method TruncateFile(ino: nat, size: nat, now: Time) returns (r: Result<()>)
      requires Valid()
      modifies this`tables
      ensures Valid() && NsOf(tables) == old(NsOf(tables)) && SameTree(old(tables), tables)
      ensures r.Err? ==> tables == old(tables)
      ensures r.Err? && !MayFail(r.error) ==>
                || (r.error == NotFound && ino !in tables.inodes)
                || (ino in tables.inodes && Some(r.error) == RegularFileError(tables.inodes[ino].kind))
                || (r.error == FileTooLarge && size > MAX_FILE_SIZE)
      ensures r.Ok? ==>
                && size <= MAX_FILE_SIZE && ino in old(Nodes()) && old(Nodes())[ino].kind == RegularFile
                && Nodes() == old(Nodes())[ino := old(Nodes())[ino].(
                                file := Files.TruncateFile(old(Nodes())[ino].file, size), mtime := now)]
    {
      hide NsOk, RowsOf, NsOf, ChunksOk, TruncateTable;
      var head := InodeHead(ino);
      if head.Err? {
        return Err(head.error);
      }
      if RegularFileError(head.value.0).Some? {
        return Err(RegularFileError(head.value.0).value);
      }
      if size > MAX_FILE_SIZE {
        return Err(FileTooLarge);
      }
      var tx := tables;
      if size == 0 {
        var (from, to) := (ChunkKey(ino, 0), ChunkKey(ino, MAX_CHUNKS - 1));
        DeleteRangeKeepsChunksOk(tx, from, to);
        DeleteAllRows(tables, ino);
        tx := tx.(chunks := DeleteChunkRange(tx.chunks, from, to));
      } else {
        TruncateKeepsChunksOk(tx, ino, size);
        TruncateAllRows(tables, ino, size);
        tx := tx.(chunks := TruncateTable(tx.chunks, ino, size));
      }
      FileCommitViews(tables, tx, ino, size, now);
      SetSizeKeepsChunksOk(tx, ino, size, now);
      FileCommitKeepsTree(tables, tx, ino, size, now);
      tx := SetSize(tx, ino, size, now);
      var failure := StorageOutcome();
      if failure.Some? {
        return Err(failure.value);
      }
      tables := tx;
      return Ok(());
    }

    /* ----- Entries ----- */

    /** The number SQLite gives a new row: one past the largest in use. */
    static method NextRowid(used: set<nat>) returns (n: nat)
      ensures n >= 1 && forall k :: k in used ==> k < n
      ensures n == 1 || n - 1 in used
    {
      n := 1;
      var todo := used;
      while todo != {}
        invariant todo <= used && n >= 1
        invariant forall k :: k in used ==> k in todo || k < n
        invariant n == 1 || n - 1 in used
        decreases |todo|
      {
        var k :| k in todo;
        todo := todo - {k};
        n := Max(n, k + 1);
      }
    }

    /** Resolves a name. */
    method Lookup(parent: nat, name: Name) returns (r: Result<Found>, ghost id: nat)
      requires Valid()
      ensures r.Ok? ==>
                && IsEntry(tables.dirents, id, parent, name) && r.value.ino == tables.dirents[id].child
                && IsCurrent(tables, r.value) && |name| <= NAME_MAX
      ensures r.Err? && !MayFail(r.error) ==>
                || (r.error == NameTooLong && |name| > NAME_MAX)
                || (r.error == NotFound && NameFree(tables.dirents, parent, name))
    {
      hide TreeOk, LinksOk;
      id := 0;
      if |name| > NAME_MAX {
        return Err(NameTooLong), id;
      }
      var failure := StorageOutcome();
      if failure.Some? {
        return Err(failure.value), id;
      }
      if found :| IsEntry(tables.dirents, found, parent, name) && found in tables.dirents {
        var child := tables.dirents[found].child;
        assert child in NsOf(tables).nodes;
        return Ok(Found(child, tables.inodes[child].kind, tables.inodes[child].nlink)), found;
      }
      return Err(NotFound), id;
    }

    /** Walks up from directory `ino`; decides exactly whether it lies in the subtree of
        `possibleAncestor`, and always terminates. */
    method IsDescendant(ino: nat, possibleAncestor: nat) returns (r: Result<bool>)
      requires Valid() && IsDir(NsOf(tables), ino)
      ensures r.Ok? ==> (r.value <==> IsAncestor(tables.dirents, possibleAncestor, ino))
      ensures r.Err? ==> MayFail(r.error)
    {
      hide LinksOk, EntriesOk;
      if ino == possibleAncestor {
        assert Above(tables.dirents, possibleAncestor, ino, 0);
        return Ok(true);
      }
      var current := ino;
      assert IsAncestor(tables.dirents, ROOT, ino);
      ghost var depth: nat :| Above(tables.dirents, ROOT, current, depth);
      while current != ROOT
        invariant IsDir(NsOf(tables), current) && Above(tables.dirents, ROOT, current, depth)
        invariant current != possibleAncestor
        invariant IsAncestor(tables.dirents, possibleAncestor, ino) <==>
                  IsAncestor(tables.dirents, possibleAncestor, current)
        decreases depth
      {
        var failure := StorageOutcome();
        if failure.Some? {
          return Err(failure.value);
        }
        if id :| id in tables.dirents && tables.dirents[id].child == current {
          var parent := tables.dirents[id].parent;
          StepUp(NsOf(tables), current, id, depth);
          AncestorThroughParent(NsOf(tables), possibleAncestor, current, id);
          if parent == possibleAncestor {
            assert Above(tables.dirents, possibleAncestor, parent, 0);
            return Ok(true);
          }
          current := parent;
          depth := depth - 1;
        } else {
          ghost var e := DirHasAnEntry(NsOf(tables), current);
          assert false;
        }
      }
      if IsAncestor(tables.dirents, possibleAncestor, ROOT) {
        ghost var n: nat :| Above(tables.dirents, possibleAncestor, ROOT, n);
        NothingAboveRoot(NsOf(tables), possibleAncestor, n);
      }
      return Ok(false);
    }

    /** Why a new node is refused, if it is, apart from the store failing. */
    ghost predicate CreateRefused(e: DbError, parent: nat, name: Name)
      reads this
    {
      || (e == NameTooLong && |name| > NAME_MAX)
      || (e == NotFound && parent !in tables.inodes)
      || (e == NotDirectory && parent in tables.inodes && !IsDir(NsOf(tables), parent))
      || (e == NoSpace && MAX_INO in tables.inodes)
      || (e == AlreadyExists && !NameFree(tables.dirents, parent, name))
    }

    /** Makes a node with a new inode number and its first entry. */
    method CreateNode(parent: nat, name: Name, kind: FileKind, size: nat, now: Time)
        returns (r: Result<nat>, ghost id: nat)
      requires Valid()
      modifies this`tables
      ensures Valid()
      ensures r.Err? ==> tables == old(tables)
      ensures r.Err? && !MayFail(r.error) ==> old(CreateRefused(r.error, parent, name))
      ensures r.Ok? ==>
                && |name| <= NAME_MAX && IsDir(old(NsOf(tables)), parent) && NameFree(old(tables.dirents), parent, name)
                && r.value !in old(tables).inodes && (forall j :: j in old(tables).inodes ==> j < r.value)
                && id !in old(tables.dirents) && (forall e :: e in old(tables.dirents) ==> e < id)
                && NsOf(tables) == AddNode(old(NsOf(tables)), parent, name, kind, r.value, id)
                && Nodes() == if kind == Directory then old(Nodes())
                              else old(Nodes())[r.value := CacheModel.Node(kind, 1, now, File(size, map[]))]
      ensures r.Ok? ==>
                && DirsDated(old(tables), tables, {parent, r.value}, now)
                && r.value in tables.inodes && tables.inodes[r.value].(nlink := 0) == InodeRow(kind, 0, size, now)
    {
      hide NsOk, ChunksOk, RowsOf, DirsDated;
      id := 0;
      if |name| > NAME_MAX {
        return Err(NameTooLong), id;
      }
      var head := InodeHead(parent);
      if head.Err? {
        return Err(head.error), id;
      }
      if head.value.0 != Directory {
        return Err(NotDirectory), id;
      }
      var tx := tables;
      var ino := NextRowid(tx.inodes.Keys);
      if ino > MAX_INO {
        NumbersFit(tables);
        return Err(NoSpace), id;
      }
      var row := InodeRow(kind, if kind == Directory then 2 else 1, size, now);
      NewRowViews(tx, ino, row);
      NothingDated(tx, now);
      RowDates(tx, tx, {}, now, ino, row);
      tx := SetRow(tx, ino, row);
      if exists e | e in tx.dirents :: tx.dirents[e].parent == parent && tx.dirents[e].name == name {
        return Err(AlreadyExists), id;
      }
      var entry := NextRowid(tx.dirents.Keys);
      id := entry;
      SetDirentsViews(tx, tx.dirents[entry := Dirent(parent, name, ino)]);
      ghost var made := tx;
      tx := InsertDirent(tx, entry, parent, name, ino);
      OthersDateNothing(tables, made, tx, {} + {ino}, now);
      assert IsDir(NsOf(tx), parent);
      TouchDirViews(tx, parent, now);
      TouchDates(tables, tx, {} + {ino}, now, parent);
      assert {} + {ino} + {parent} == {parent, ino};
      tx := TouchDir(tx, parent, now);
      if kind == Directory {
        AddDirectoryNlinkViews(tx, parent, 1);
        LinksDate(tables, tx, parent, 1, {parent, ino}, now);
        tx := AddDirectoryNlink(tx, parent, 1);
      }
      AddNodeKeepsOk(NsOf(tables), parent, name, kind, ino, entry);
      var failure := StorageOutcome();
      if failure.Some? {
        return Err(failure.value), id;
      }
      tables := tx;
      return Ok(ino), id;
    }

    /** Why a link is refused, if it is, apart from the store failing. */
    ghost predicate LinkRefused(e: DbError, ino: nat, parent: nat, name: Name)
      reads this
    {
      || (e == NameTooLong && |name| > NAME_MAX)
      || (e == NotFound && (ino !in tables.inodes || parent !in tables.inodes))
      || (e == IsDirectory && IsDir(NsOf(tables), ino))
      || (e == NotDirectory && parent in tables.inodes && !IsDir(NsOf(tables), parent))
      || (e == AlreadyExists && !NameFree(tables.dirents, parent, name))
    }

    /** Gives a file another name. */
    method Link(ino: nat, parent: nat, name: Name, now: Time) returns (r: Result<()>, ghost id: nat)
      requires Valid()
      modifies this`tables
      ensures Valid()
      ensures r.Err? ==> tables == old(tables)
      ensures r.Err? && !MayFail(r.error) ==> old(LinkRefused(r.error, ino, parent, name))
      ensures r.Ok? ==>
                && |name| <= NAME_MAX && IsDir(old(NsOf(tables)), parent) && NameFree(old(tables.dirents), parent, name)
                && ino in old(tables).inodes && !IsDir(old(NsOf(tables)), ino)
                && id !in old(tables.dirents) && (forall e :: e in old(tables.dirents) ==> e < id)
                && NsOf(tables) == AddName(old(NsOf(tables)), parent, name, ino, id)
                && Nodes() == SetNodeLinks(old(Nodes()), ino, old(tables).inodes[ino].nlink + 1)
                && DirsDated(old(tables), tables, {parent}, now)
    {
      hide NsOk, ChunksOk, RowsOf, DirsDated;
      id := 0;
      if |name| > NAME_MAX {
        return Err(NameTooLong), id;
      }
      var head := InodeHead(ino);
      if head.Err? {
        return Err(head.error), id;
      }
      if head.value.0 == Directory {
        return Err(IsDirectory), id;
      }
      var parentHead := InodeHead(parent);
      if parentHead.Err? {
        return Err(parentHead.error), id;
      }
      if parentHead.value.0 != Directory {
        return Err(NotDirectory), id;
      }
      var tx := tables;
      if exists e | e in tx.dirents :: tx.dirents[e].parent == parent && tx.dirents[e].name == name {
        return Err(AlreadyExists), id;
      }
      var entry := NextRowid(tx.dirents.Keys);
      id := entry;
      SetDirentsViews(tx, tx.dirents[entry := Dirent(parent, name, ino)]);
      tx := InsertDirent(tx, entry, parent, name, ino);
      var row := tx.inodes[ino].(nlink := tx.inodes[ino].nlink + 1);
      SetRowViews(tx, ino, row);
      tx := SetNlink(tx, ino, tx.inodes[ino].nlink + 1);
      assert IsDir(NsOf(tx), parent);
      TouchDirViews(tx, parent, now);
      CountKeepsRows(tables, tx, ino);
      OnlyTouches(tables, tx, parent, now);
      tx := TouchDir(tx, parent, now);
      AddNameKeepsOk(NsOf(tables), parent, name, ino, entry);
      var failure := StorageOutcome();
      if failure.Some? {
        return Err(failure.value), id;
      }
      tables := tx;
      return Ok(()), id;
    }

    /** Why removing a name is refused, if it is, apart from the store failing. */
    ghost predicate UnlinkRefused(e: DbError, parent: nat, name: Name)
      reads this
    {
      || (e == NameTooLong && |name| > NAME_MAX)
      || (e == NotFound && NameFree(tables.dirents, parent, name))
      || (e == IsDirectory && exists s :: IsEntry(tables.dirents, s, parent, name)
                                          && IsDir(NsOf(tables), tables.dirents[s].child))
    }

    /** Removes an entry of an already resolved file. */
    method UnlinkEntry(parent: nat, name: Name, target: Found, isOpen: bool, now: Time, ghost id: nat)
        returns (r: Result<()>)
      requires Valid() && IsEntry(tables.dirents, id, parent, name)
      requires tables.dirents[id].child == target.ino && IsCurrent(tables, target)
      modifies this`tables
      ensures Valid()
      ensures r.Err? ==> tables == old(tables)
      ensures r.Err? ==> MayFail(r.error) || (r.error == IsDirectory && target.kind == Directory)
      ensures r.Ok? ==>
                && target.kind != Directory && 1 <= target.nlink
                && NsOf(tables) == DropName(old(NsOf(tables)), id, isOpen)
                && Nodes() == DropNodeName(old(Nodes()), target, isOpen)
                && DirsDated(old(tables), tables, {parent}, now)
    {
      hide EntriesOk, TreeOk, LinksOk, ChunksOk, RowsOf, DropUnlinkedInode, DirsDated;
      if target.kind == Directory {
        return Err(IsDirectory);
      }
      DropFileViews(tables, id, target, isOpen);
      DropNameKeepsOk(NsOf(tables), id, isOpen);
      ParentIsDir(NsOf(tables), id);
      DeleteDirentIsOne(tables, id, parent, name);
      var tx := tables;
      tx := DeleteDirent(tx, parent, name);
      DropKeepsRows(tx, target, isOpen);
      tx := DropUnlinkedInode(tx, target, isOpen);
      assert IsDir(NsOf(tx), parent);
      TouchDirViews(tx, parent, now);
      OnlyTouches(tables, tx, parent, now);
      tx := TouchDir(tx, parent, now);
      var failure := StorageOutcome();
      if failure.Some? {
        return Err(failure.value);
      }
      tables := tx;
      return Ok(());
    }

    /** Sets the mtime, if one is given, and reads the attributes back. The read can fail when the
        update has already been committed. */
    method UpdateMetadata(ino: nat, mtime: Option<Timestamp>) returns (r: Result<(nat, Time)>, updated: bool)
      requires Valid() && (mtime.Some? ==> mtime.value.IsMachine())
      modifies this`tables
      ensures Valid() && NsOf(tables) == old(NsOf(tables))
      ensures r.Ok? ==>
                && updated && ino in tables.inodes
                && r.value == (tables.inodes[ino].size, tables.inodes[ino].mtime)
      ensures r.Ok? && mtime.Some? ==> r.value.1 == mtime.value.ToNs()
      ensures r.Err? ==> MayFail(r.error) || (r.error == NotFound && !updated && ino !in tables.inodes)
      ensures !updated ==> tables == old(tables)
      ensures updated ==>
                && ino in old(tables).inodes
                && Nodes() == (if mtime.Some? && ino in old(Nodes())
                               then old(Nodes())[ino := old(Nodes())[ino].(mtime := mtime.value.ToNs())]
                               else old(Nodes()))
                && tables.dirents == old(tables.dirents)
                && DirsOf(tables) == WithTime(old(DirsOf(tables)), ino,
                                              if mtime.Some? then Some(mtime.value.ToNs()) else None)
    {
      hide NsOk, ChunksOk, RowsOf, DirsOf, WithTime;
      updated := false;
      var inode := GetInode(ino);
      if inode.Err? {
        return Err(inode.error), updated;
      }
      var row := inode.value.(mtime := if mtime.Some? then mtime.value.ToNs() else inode.value.mtime);
      var failure := StorageOutcome();
      if failure.Some? {
        return Err(failure.value), updated;
      }
      SetRowViews(tables, ino, row);
      SetRowSameLinks(tables, ino, row);
      SetRowDirs(tables, ino, if mtime.Some? then Some(mtime.value.ToNs()) else None);
      tables := SetRow(tables, ino, row);
      updated := true;
      inode := GetInode(ino);
      if inode.Err? {
        return Err(inode.error), updated;
      }
      return Ok((inode.value.size, inode.value.mtime)), updated;
    }

    /** Deletes an inode whose last handle went, with its chunks. */
    method DeleteInode(ino: nat) returns (r: Result<()>)
      requires Valid() && ino in tables.inodes && tables.inodes[ino].kind != Directory && tables.inodes[ino].nlink == 0
      modifies this`tables
      ensures Valid() && SameTree(old(tables), tables)
      ensures r.Err? ==> MayFail(r.error) && tables == old(tables)
      ensures r.Ok? ==>
                && NsOf(tables) == Ns(old(NsOf(tables)).nodes - {ino}, old(tables.dirents))
                && Nodes() == old(Nodes()) - {ino} && RowsOf(tables.chunks, ino) == map[]
    {
      hide NodesOf, NsOf, TablesOk, DirsOf, DeleteInodeRows;
      NamelessViews(tables, ino);
      DeletedRows(tables, ino);
      var tx := DeleteInodeRows(tables, ino);
      DeleteKeepsTree(tables, ino);
      var failure := StorageOutcome();
      if failure.Some? {
        return Err(failure.value);
      }
      tables := tx;
      return Ok(());
    }

    /** Why removing a directory is refused, if it is, apart from the store failing. */
    ghost predicate RemoveDirRefused(e: DbError, parent: nat, name: Name)
      reads this
    {
      || (e == NameTooLong && |name| > NAME_MAX)
      || (e == NotFound && NameFree(tables.dirents, parent, name))
      || exists s :: IsEntry(tables.dirents, s, parent, name) &&
           if !IsDir(NsOf(tables), tables.dirents[s].child) then e == NotDirectory
           else
             && e == DirectoryNotEmpty
             && exists x :: x in tables.dirents && tables.dirents[x].parent == tables.dirents[s].child
    }

    method RemoveDir(parent: nat, name: Name, now: Time) returns (r: Result<()>, ghost id: nat)
      requires Valid()
      modifies this`tables
      ensures Valid() && Nodes() == old(Nodes())
      ensures r.Err? ==> tables == old(tables)
      ensures r.Err? && !MayFail(r.error) ==> old(RemoveDirRefused(r.error, parent, name))
      ensures r.Ok? ==>
                && IsEntry(old(tables.dirents), id, parent, name)
                && IsDir(old(NsOf(tables)), old(tables.dirents)[id].child)
                && (forall e :: e in old(tables.dirents) ==>
                      old(tables.dirents)[e].parent != old(tables.dirents)[id].child)
                && NsOf(tables) == DropDir(old(NsOf(tables)), id)
                && DirsDated(old(tables), tables, {parent}, now)
    {
      hide EntriesOk, TreeOk, LinksOk, ChunksOk, RowsOf, DropUnlinkedInode, DeleteInodeRows, DirsDated;
      var found;
      found, id := Lookup(parent, name);
      if found.Err? {
        return Err(found.error), id;
      }
      var target := found.value;
      if target.kind != Directory {
        return Err(NotDirectory), id;
      }
      var tx := tables;
      if exists e | e in tx.dirents :: tx.dirents[e].parent == target.ino {
        return Err(DirectoryNotEmpty), id;
      }
      DropDirViews(tables, id, target, false);
      DropDirKeepsOk(NsOf(tables), id);
      DropDirKinds(NsOf(tables), id);
      DeleteDirentIsOne(tables, id, parent, name);
      tx := DeleteDirent(tx, parent, name);
      DropKeepsRows(tx, target, false);
      tx := DropUnlinkedInode(tx, target, false);
      assert IsDir(NsOf(tx), parent);
      TouchDirViews(tx, parent, now);
      OnlyTouches(tables, tx, parent, now);
      tx := TouchDir(tx, parent, now);
      AddDirectoryNlinkViews(tx, parent, -1);
      LinksDate(tables, tx, parent, -1, {parent}, now);
      tx := AddDirectoryNlink(tx, parent, -1);
      var failure := StorageOutcome();
      if failure.Some? {
        return Err(failure.value), id;
      }
      tables := tx;
      return Ok(()), id;
    }

    /** Why a rename is refused, if it is, apart from the store failing. */
    ghost predicate RenameRefused(e: DbError, parent: nat, name: Name, newParent: nat, newName: Name, noreplace: bool)
      reads this
    {
      var ns := NsOf(tables);
      || (e == NameTooLong && (|newName| > NAME_MAX || |name| > NAME_MAX))
      || (e == NotFound && (NameFree(ns.dirents, parent, name) || newParent !in ns.nodes))
      || (e == NotDirectory && newParent in ns.nodes && !IsDir(ns, newParent))
      || exists s :: IsEntry(ns.dirents, s, parent, name) &&
           ((e == InvalidInput && IsDir(ns, ns.dirents[s].child)
               && IsAncestor(ns.dirents, ns.dirents[s].child, newParent))
            || exists o :: IsEntry(ns.dirents, o, newParent, newName) && o != s &&
                 ((e == AlreadyExists && noreplace)
                  || (e == IsDirectory && !IsDir(ns, ns.dirents[s].child) && IsDir(ns, ns.dirents[o].child))
                  || (e == NotDirectory && IsDir(ns, ns.dirents[s].child) && !IsDir(ns, ns.dirents[o].child))
                  || (e == DirectoryNotEmpty && IsDir(ns, ns.dirents[s].child) && IsDir(ns, ns.dirents[o].child)
                      && exists x :: x in ns.dirents && ns.dirents[x].parent == ns.dirents[o].child)))
    }

    /** Moves entry `source` to a new parent and name, dropping entry `over` if that name was taken;
        the answer is what `over` named. */
    method RenameEntry(parent: nat, name: Name, newParent: nat, newName: Name, noreplace: bool, isOpen: nat -> bool,
        now: Time)
        returns (r: Result<Option<Found>>, ghost source: nat, ghost over: Option<nat>)
      requires Valid()
      modifies this`tables
      ensures Valid()
      ensures r.Err? ==> tables == old(tables)
      ensures r.Err? && !MayFail(r.error) ==>
                old(RenameRefused(r.error, parent, name, newParent, newName, noreplace))
      ensures r.Ok? ==> Renamed(old(tables), tables, parent, name, newParent, newName, noreplace,
                                r.value.Some? && isOpen(r.value.value.ino), now, r.value, source, over)
    {
      hide EntriesOk, TreeOk, LinksOk, ChunksOk, RowsOf, NsOf;
      source, over := 0, None;
      InodeViews(tables, newParent);
      if |newName| > NAME_MAX {
        return Err(NameTooLong), source, over;
      }
      var found;
      found, source := Lookup(parent, name);
      if found.Err? {
        return Err(found.error), source, over;
      }
      var head := InodeHead(newParent);
      if head.Err? {
        return Err(head.error), source, over;
      }
      if head.value.0 != Directory {
        return Err(NotDirectory), source, over;
      }
      InodeViews(tables, found.value.ino);
      if found.value.kind == Directory {
        var below := IsDescendant(newParent, found.value.ino);
        if below.Err? {
          return Err(below.error), source, over;
        }
        if below.value {
          return Err(InvalidInput), source, over;
        }
      }
      if parent == newParent && name == newName {
        return Ok(None), source, over;
      }
      var target;
      target, over := RenameTarget(newParent, newName, noreplace, found.value, parent, name, source);
      if target.Err? {
        return Err(target.error), source, over;
      }
      var replaced := target.value;
      var done := CommitRename(parent, name, newParent, newName, found.value, replaced,
                               replaced.Some? && isOpen(replaced.value.ino), now, source, over);
      if done.Err? {
        return Err(done.error), source, over;
      }
      return Ok(replaced), source, over;
    }

    /** What a rename would replace, once that is allowed. */
    method RenameTarget(newParent: nat, newName: Name, noreplace: bool, moved: Found, ghost parent: nat,
        ghost name: Name, ghost source: nat)
        returns (r: Result<Option<Found>>, ghost over: Option<nat>)
      requires Valid() && IsEntry(tables.dirents, source, parent, name) && tables.dirents[source].child == moved.ino
      requires IsCurrent(tables, moved) && !(parent == newParent && name == newName)
      ensures r.Err? && !MayFail(r.error) ==>
                RenameRefused(r.error, parent, name, newParent, newName, noreplace)
      ensures r.Ok? ==> (over.Some? <==> r.value.Some?) && (noreplace ==> over.None?)
      ensures r.Ok? && over.None? ==> NameFree(tables.dirents, newParent, newName)
      ensures r.Ok? && over.Some? ==>
                && over.value != source && IsEntry(tables.dirents, over.value, newParent, newName)
                && tables.dirents[over.value].child == r.value.value.ino && IsCurrent(tables, r.value.value)
                && (moved.kind == Directory <==> r.value.value.kind == Directory)
                && (r.value.value.kind == Directory ==> forall e :: e in tables.dirents ==>
                      tables.dirents[e].parent != r.value.value.ino)
    {
      hide EntriesOk, TreeOk, LinksOk, ChunksOk, RowsOf, NsOf, IsAncestor;
      over := None;
      InodeViews(tables, moved.ino);
      var existing;
      ghost var existingId;
      existing, existingId := Lookup(newParent, newName);
      if existing.Err? && existing.error != NotFound {
        return Err(existing.error), over;
      }
      if noreplace && existing.Ok? {
        return Err(AlreadyExists), over;
      }
      if existing.Err? {
        return Ok(None), over;
      }
      InodeViews(tables, existing.value.ino);
      if moved.kind != Directory && existing.value.kind == Directory {
        return Err(IsDirectory), over;
      }
      if moved.kind == Directory && existing.value.kind != Directory {
        return Err(NotDirectory), over;
      }
      if moved.kind == Directory && exists e | e in tables.dirents :: tables.dirents[e].parent == existing.value.ino {
        return Err(DirectoryNotEmpty), over;
      }
      return Ok(Some(existing.value)), Some(existingId);
    }

    /** The transaction of a rename whose checks have passed. */
    method CommitRename(parent: nat, name: Name, newParent: nat, newName: Name, moved: Found, replaced: Option<Found>,
                        isOpen: bool, now: Time, ghost source: nat, ghost over: Option<nat>) returns (r: Result<()>)
      requires Valid() && RenameReady(tables, parent, name, newParent, newName, moved, replaced, source, over)
      modifies this`tables
      ensures Valid()
      ensures r.Err? ==> tables == old(tables) && MayFail(r.error)
      ensures r.Ok? ==>
                && NsOf(tables) == MoveEntry(Cleared(old(NsOf(tables)), over, isOpen), source, newParent, newName)
                && DirsDated(old(tables), tables, {parent, newParent}, now)
                && Nodes() == if replaced.Some? && replaced.value.kind != Directory
                   then DropNodeName(old(Nodes()), replaced.value, isOpen)
                              else old(Nodes())
    {
      hide NsOk, ChunksOk, RowsOf, NsOf, NodesOf, DropUnlinkedInode, DeleteDirent, UpdateDirent, RenameReady,
           IsAncestor, TouchDir, AddDirectoryNlink, Cleared, MoveEntry, DropNodeName, DropName, Movable, DirsDated;
      ClearTarget(tables, parent, name, newParent, newName, moved, replaced, isOpen, source, over);
      var tx := tables;
      if replaced.Some? {
        tx := DeleteDirent(tx, newParent, newName);
        tx := DropUnlinkedInode(tx, replaced.value, isOpen);
      }
      ClearedRows(tables, newParent, newName, replaced, isOpen);
      RenameCommits(tables, tx, parent, name, newParent, newName, moved, replaced, isOpen, source, over);
      MoveDirent(tx, source, parent, name, newParent, newName, moved.ino);
      UpdatedRows(tx, parent, name, newParent, newName);
      InodeViews(UpdateDirent(tx, parent, name, newParent, newName), parent);
      tx := UpdateDirent(tx, parent, name, newParent, newName);
      TouchDirViews(tx, parent, now);
      OnlyTouches(tables, tx, parent, now);
      tx := TouchDir(tx, parent, now);
      if newParent != parent {
        TouchDirViews(tx, newParent, now);
        InodeViews(tx, newParent);
        TouchTwo(tables, tx, parent, newParent, now);
        tx := TouchDir(tx, newParent, now);
      }
      assert newParent == parent ==> {parent} == {parent, newParent};
      if moved.kind == Directory && parent != newParent {
        AddDirectoryNlinkViews(tx, parent, -1);
        LinksDate(tables, tx, parent, -1, {parent, newParent}, now);
        tx := AddDirectoryNlink(tx, parent, -1);
        AddDirectoryNlinkViews(tx, newParent, 1);
        LinksDate(tables, tx, newParent, 1, {parent, newParent}, now);
        tx := AddDirectoryNlink(tx, newParent, 1);
      }
      if replaced.Some? && replaced.value.kind == Directory {
        AddDirectoryNlinkViews(tx, newParent, -1);
        LinksDate(tables, tx, newParent, -1, {parent, newParent}, now);
        tx := AddDirectoryNlink(tx, newParent, -1);
      }
      var failure := StorageOutcome();
      if failure.Some? {
        return Err(failure.value);
      }
      tables := tx;
      return Ok(());
    }
  }

  /* ----- What transactions do to the directories ----- */

  lemma FileCommitKeepsTree(t: Tables, g: Tables, i: nat, size: nat, modified: Time)
    requires i in t.inodes && t.inodes[i].kind != Directory && g.inodes == t.inodes && g.dirents == t.dirents
    ensures SameTree(t, SetSize(g, i, size, modified))
  {
    var h := SetSize(g, i, size, modified);
    assert h.inodes - {i} == t.inodes - {i};
    FileRowsKeepTree(t, h, i);
  }

  lemma DeleteKeepsTree(t: Tables, i: nat)
    requires TablesOk(t) && i in t.inodes && t.inodes[i].kind != Directory && t.inodes[i].nlink == 0
    ensures SameTree(t, DeleteInodeRows(t, i))
  {
    hide TablesOk, DeleteInodeRows, DirsOf;
    DeleteInodeRowsTables(t, i);
    FileRowsKeepTree(t, DeleteInodeRows(t, i), i);
  }

  lemma DeletedRows(t: Tables, i: nat)
    requires TablesOk(t) && i in t.inodes
    ensures RowsOf(DeleteInodeRows(t, i).chunks, i) == map[]
  {
    RangeDeleteIsLocal(t.chunks, i, 0, MAX_CHUNKS - 1, i);
  }

  lemma CountKeepsRows(t: Tables, g: Tables, i: nat)
    requires i in t.inodes && g.inodes == t.inodes[i := t.inodes[i].(nlink := t.inodes[i].nlink + 1)]
    ensures forall d :: d in g.inodes ==> d in t.inodes && g.inodes[d].(nlink := 0) == t.inodes[d].(nlink := 0)
  {
  }

  lemma DropKeepsRows(t: Tables, target: Found, isOpen: bool)
    ensures var g := DropUnlinkedInode(t, target, isOpen);
            forall d :: d in g.inodes ==> d in t.inodes && g.inodes[d].(nlink := 0) == t.inodes[d].(nlink := 0)
  {
    hide DeleteChunkRange;
  }

  lemma NumbersFit(t: Tables)
    requires ChunksOk(t)
    ensures forall i :: i in t.inodes ==> i <= MAX_INO
  {
  }

  lemma ClearedRows(t: Tables, newParent: nat, newName: Name, replaced: Option<Found>, isOpen: bool)
    ensures var g := ClearedTables(t, newParent, newName, replaced, isOpen);
            forall d :: d in g.inodes ==> d in t.inodes && g.inodes[d].(nlink := 0) == t.inodes[d].(nlink := 0)
  {
    hide DropUnlinkedInode;
    if replaced.Some? {
      DropKeepsRows(DeleteDirent(t, newParent, newName), replaced.value, isOpen);
    }
  }

  lemma UpdatedRows(t: Tables, parent: nat, name: Name, newParent: nat, newName: Name)
    ensures UpdateDirent(t, parent, name, newParent, newName).inodes == t.inodes
  {
  }

  lemma TouchTwo(t: Tables, g: Tables, parent: nat, newParent: nat, now: Time)
    requires DirsDated(t, g, {parent}, now) && newParent in g.inodes
    ensures DirsDated(t, TouchDir(g, newParent, now), {parent, newParent}, now)
  {
    hide DirsDated;
    TouchDates(t, g, {parent}, now, newParent);
    assert {parent} + {newParent} == {parent, newParent};
  }

  lemma LinksDate(t: Tables, g: Tables, dir: nat, delta: int, dated: set<nat>, now: Time)
    requires DirsDated(t, g, dated, now)
    ensures DirsDated(t, AddDirectoryNlink(g, dir, delta), dated, now)
  {
    hide DirsDated;
    OthersDateNothing(t, g, AddDirectoryNlink(g, dir, delta), dated, now);
  }

  /** A transaction that changes entries, link counts and what is gone, then touches one directory. */
  lemma OnlyTouches(t: Tables, g: Tables, dir: nat, now: Time)
    requires dir in g.inodes
    requires forall d :: d in g.inodes ==> d in t.inodes && g.inodes[d].(nlink := 0) == t.inodes[d].(nlink := 0)
    ensures DirsDated(t, TouchDir(g, dir, now), {dir}, now)
  {
    hide DirsDated;
    NothingDated(t, now);
    OthersDateNothing(t, t, g, {}, now);
    TouchDates(t, g, {}, now, dir);
    assert {} + {dir} == {dir};
  }

  /* ----- Startup, in values ----- */

  lemma RepairableHasRoot(t: Tables)
    requires Repairable(t)
    ensures ROOT in t.inodes && t.inodes[ROOT].kind == Directory
  {
    assert IsDir(NsOf(t), ROOT);
  }

  lemma EmptyIsRepairable(t: Tables, now: Time)
    requires ROOT !in t.inodes && (t == Tables(map[], map[], map[]) || Repairable(t))
    ensures t == Tables(map[], map[], map[])
    ensures Repairable(t.(inodes := t.inodes[ROOT := InodeRow(Directory, 2, 0, now)]))
    ensures NodesOf(t.(inodes := t.inodes[ROOT := InodeRow(Directory, 2, 0, now)])) == map[] == NodesOf(t)
  {
    var g := t.(inodes := t.inodes[ROOT := InodeRow(Directory, 2, 0, now)]);
    assert !Repairable(t) by {
      if Repairable(t) {
        RepairableHasRoot(t);
      }
    }
    assert NsOf(g) == FreshNs();
    FreshIsOk();
  }

  lemma RootExists(t: Tables)
    requires ROOT in t.inodes && (t == Tables(map[], map[], map[]) || Repairable(t))
    ensures Repairable(t) && t.inodes[ROOT].kind == Directory
  {
    assert t.inodes != map[];
    RepairableHasRoot(t);
  }

  lemma RecomputeKeepsFiles(t: Tables)
    ensures var g := RecomputeDirectoryNlink(t);
            && g.dirents == t.dirents
            && (forall i :: i in g.inodes <==> i in t.inodes)
            && (forall i :: i in t.inodes ==> g.inodes[i].kind == t.inodes[i].kind)
            && (forall i :: i in t.inodes && t.inodes[i].kind != Directory ==> g.inodes[i] == t.inodes[i])
            && (forall i :: i in t.inodes ==> g.inodes[i].(nlink := 0) == t.inodes[i].(nlink := 0))
  {
  }

  lemma StartupDates(stored: Tables, rooted: Tables, t: Tables, now: Time)
    requires rooted == stored || (stored.inodes == map[] && rooted.inodes.Keys == {ROOT})
    requires stored.inodes == map[] ==>
               rooted.inodes.Keys == {ROOT} && rooted.inodes[ROOT] == InodeRow(Directory, 2, 0, now)
    requires forall i :: i in t.inodes ==>
                           i in rooted.inodes && t.inodes[i].(nlink := 0) == rooted.inodes[i].(nlink := 0)
    ensures DirsDated(stored, t, if stored.inodes == map[] then {ROOT} else {}, now)
  {
    assert forall d :: d in DirsOf(t) ==> d in DirsOf(rooted) && DirsOf(t)[d].mtime == DirsOf(rooted)[d].mtime;
  }

  lemma NamelessAreFiles(t: Tables)
    requires TablesOk(t)
    ensures forall i :: i in t.inodes && t.inodes[i].nlink == 0 ==> t.inodes[i].kind != Directory && i != ROOT
  {
    assert IsDir(NsOf(t), ROOT);
    forall i | i in t.inodes && t.inodes[i].nlink == 0 ensures t.inodes[i].kind != Directory && i != ROOT {
      assert NsOf(t).nodes[i].nlink == Links(NsOf(t), i);
    }
  }

  lemma DeleteInodeRowsTables(t: Tables, i: nat)
    requires TablesOk(t) && i in t.inodes && t.inodes[i].kind != Directory && t.inodes[i].nlink == 0
    ensures DeleteInodeRows(t, i).inodes == t.inodes - {i} && DeleteInodeRows(t, i).dirents == t.dirents
  {
    NamelessNotMentioned(NsOf(t), i);
    hide ChunksOk, NsOk, DeleteChunkRange;
    assert DeleteInodeRows(t, i).dirents == t.dirents;
  }

  lemma SweptNodes(t: Tables, gone: set<nat>)
    requires TablesOk(t) && gone == set i | i in t.inodes && t.inodes[i].nlink == 0 && i != ROOT
    ensures NodesOf(t) - gone == map i | i in NodesOf(t) && NodesOf(t)[i].nlink != 0 :: NodesOf(t)[i]
  {
    hide TablesOk, NodesOf;
    NamelessAreFiles(t);
    forall i: nat ensures i in NodesOf(t) && i in gone <==> i in NodesOf(t) && NodesOf(t)[i].nlink == 0 {
      NodeLinks(t, i);
    }
  }

  lemma NodeLinks(t: Tables, i: nat)
    ensures i in NodesOf(t) ==> i in t.inodes && NodesOf(t)[i].nlink == t.inodes[i].nlink
  {
    hide RowsOf;
  }

  /** The checks a rename has passed when its transaction begins. */
  ghost predicate RenameReady(t: Tables, parent: nat, name: Name, newParent: nat, newName: Name, moved: Found,
                              replaced: Option<Found>, source: nat, over: Option<nat>) {
    && IsEntry(t.dirents, source, parent, name) && t.dirents[source].child == moved.ino && IsCurrent(t, moved)
    && IsDir(NsOf(t), newParent)
    && (moved.kind == Directory ==> !IsAncestor(t.dirents, moved.ino, newParent))
    && (over.Some? <==> replaced.Some?)
    && (over.None? ==> NameFree(t.dirents, newParent, newName))
    && (over.Some? ==>
          && over.value != source && IsEntry(t.dirents, over.value, newParent, newName)
          && t.dirents[over.value].child == replaced.value.ino && IsCurrent(t, replaced.value)
          && (moved.kind == Directory <==> replaced.value.kind == Directory)
          && (replaced.value.kind == Directory ==> forall e :: e in t.dirents ==>
                t.dirents[e].parent != replaced.value.ino))
  }

  /** The tables a rename moves the entry in, after dropping what it replaces. */
  ghost predicate Movable(t: Tables, parent: nat, name: Name, newParent: nat, moved: nat, source: nat) {
    && (forall a, b :: a in t.dirents && b in t.dirents && SameName(t.dirents[a], t.dirents[b]) ==> a == b)
    && IsEntry(t.dirents, source, parent, name) && t.dirents[source].child == moved
    && IsDir(NsOf(t), parent) && IsDir(NsOf(t), newParent)
  }

  function ClearedTables(t: Tables, newParent: nat, newName: Name, replaced: Option<Found>, isOpen: bool): Tables {
    if replaced.Some? then DropUnlinkedInode(DeleteDirent(t, newParent, newName), replaced.value, isOpen) else t
  }

  /** What is left of the namespace before the parents' link counts are adjusted. */
  function ClearedNs(ns: Ns, replaced: Option<Found>, isOpen: bool, over: Option<nat>): Ns {
    if replaced.None? || over.None? || over.value !in ns.dirents || ns.dirents[over.value].child !in ns.nodes then ns
    else if replaced.value.kind == Directory then Ns(ns.nodes - {replaced.value.ino}, ns.dirents - {over.value})
    else DropName(ns, over.value, isOpen)
  }

  lemma ClearTarget(t: Tables, parent: nat, name: Name, newParent: nat, newName: Name, moved: Found,
                    replaced: Option<Found>, isOpen: bool, source: nat, over: Option<nat>)
    requires TablesOk(t) && RenameReady(t, parent, name, newParent, newName, moved, replaced, source, over)
    ensures var g := ClearedTables(t, newParent, newName, replaced, isOpen);
            && ChunksOk(g)
            && NsOf(g) == ClearedNs(NsOf(t), replaced, isOpen, over)
            && NodesOf(g) == (if replaced.Some? && replaced.value.kind != Directory
               then DropNodeName(NodesOf(t), replaced.value, isOpen)
                              else NodesOf(t))
            && Movable(g, parent, name, newParent, moved.ino, source)
  {
    hide TreeOk, LinksOk, IsAncestor, RowsOf, NsOf, NodesOf, ChunksOk, DropUnlinkedInode, DeleteDirent, DropNodeName;
    InodeViews(t, newParent);
    InodeViews(t, moved.ino);
    ParentIsDir(NsOf(t), source);
    if replaced.Some? {
      InodeViews(t, replaced.value.ino);
      DeleteDirentIsOne(t, over.value, newParent, newName);
      var g := ClearedTables(t, newParent, newName, replaced, isOpen);
      InodeViews(g, parent);
      if replaced.value.kind == Directory {
        DropDirViews(t, over.value, replaced.value, isOpen);
      } else {
        DropFileViews(t, over.value, replaced.value, isOpen);
      }
    }
  }

  lemma RenameCommits(t: Tables, g: Tables, parent: nat, name: Name, newParent: nat, newName: Name, moved: Found,
                      replaced: Option<Found>, isOpen: bool, source: nat, over: Option<nat>)
    requires TablesOk(t) && RenameReady(t, parent, name, newParent, newName, moved, replaced, source, over)
    requires NsOf(g) == ClearedNs(NsOf(t), replaced, isOpen, over)
    requires Movable(g, parent, name, newParent, moved.ino, source)
    ensures var n1 := NsOf(g).nodes;
            var n2 := if moved.kind == Directory && parent != newParent
                then AddLinks(AddLinks(n1, parent, -1), newParent, 1) else n1;
            var n3 := if replaced.Some? && replaced.value.kind == Directory then AddLinks(n2, newParent, -1) else n2;
            var final := Ns(n3, g.dirents[source := Dirent(newParent, newName, moved.ino)]);
            && source in Cleared(NsOf(t), over, isOpen).dirents
            && final == MoveEntry(Cleared(NsOf(t), over, isOpen), source, newParent, newName)
            && NsOk(final)
  {
    hide TreeOk, LinksOk, IsAncestor, EntriesOk, RowsOf, NsOf, ChunksOk;
    InodeViews(t, moved.ino);
    InodeViews(g, moved.ino);
    if replaced.Some? {
      InodeViews(t, replaced.value.ino);
    }
    var ns := NsOf(t);
    if replaced.Some? && replaced.value.kind == Directory {
      var n1 := ns.nodes - {replaced.value.ino};
      AddLinksCommute(n1, parent, -1, newParent, -1);
      AddLinksCommute(AddLinks(n1, parent, -1), newParent, 1, newParent, -1);
    }
    assert over.Some? ==> (IsDir(ns, ns.dirents[over.value].child) <==> replaced.value.kind == Directory);
    RenameKeepsOk(ns, source, newParent, newName, over, isOpen);
    ParentIsDir(Cleared(ns, over, isOpen), source);
  }

  lemma MoveDirent(t: Tables, source: nat, parent: nat, name: Name, newParent: nat, newName: Name, moved: nat)
    requires ChunksOk(t) && Movable(t, parent, name, newParent, moved, source)
    ensures var g := UpdateDirent(t, parent, name, newParent, newName);
            && ChunksOk(g) && NodesOf(g) == NodesOf(t)
            && g.dirents == t.dirents[source := Dirent(newParent, newName, moved)]
            && NsOf(g) == Ns(NsOf(t).nodes, g.dirents)
            && IsDir(NsOf(g), parent) && IsDir(NsOf(g), newParent)
  {
    hide ChunksOk, NodesOf, NsOf;
    UpdateDirentIsOne(t, source, parent, name, newParent, newName);
    SetDirentsViews(t, t.dirents[source := Dirent(newParent, newName, moved)]);
  }

  /** The namespace with the entry a rename replaces taken out. */
  function Cleared(ns: Ns, over: Option<nat>, isOpen: bool): Ns {
    if over.Some? && over.value in ns.dirents && ns.dirents[over.value].child in ns.nodes
        then DropEntry(ns, over.value, isOpen) else ns
  }

  /** What a successful rename did. */
  ghost predicate Renamed(before: Tables, after: Tables, parent: nat, name: Name, newParent: nat, newName: Name,
                          noreplace: bool, isOpen: bool, now: Time, replaced: Option<Found>, source: nat,
                          over: Option<nat>) {
    && IsEntry(before.dirents, source, parent, name)
    && IsDir(NsOf(before), newParent) && |name| <= NAME_MAX && |newName| <= NAME_MAX
    && if parent == newParent && name == newName then replaced.None? && after == before
       else
         && (replaced.Some? ==> !noreplace)
         && (exists moved :: RenameReady(before, parent, name, newParent, newName, moved, replaced, source, over))
         && NsOf(after) == MoveEntry(Cleared(NsOf(before), over, isOpen), source, newParent, newName)
         && DirsDated(before, after, {parent, newParent}, now)
         && NodesOf(after) == if replaced.Some? && replaced.value.kind != Directory
            then DropNodeName(NodesOf(before), replaced.value, isOpen)
                              else NodesOf(before)
  }

  /** What a rename replaced had a name, so its link count was at least one. */
  lemma ReplacedHadAName(before: Tables, after: Tables, parent: nat, name: Name, newParent: nat, newName: Name,
                         noreplace: bool, isOpen: bool, now: Time, replaced: Option<Found>, source: nat,
                         over: Option<nat>)
    requires TablesOk(before) && Renamed(before, after, parent, name, newParent, newName, noreplace, isOpen, now,
                                         replaced, source, over)
    ensures replaced.Some? && replaced.value.kind != Directory ==>
              && replaced.value.ino in NodesOf(before)
              && NodesOf(before)[replaced.value.ino].nlink == replaced.value.nlink >= 1
    ensures NodesOf(after) == if replaced.Some? && replaced.value.kind != Directory
            then DropNodeName(NodesOf(before), replaced.value, isOpen)
                              else NodesOf(before)
  {
    hide TreeOk, LinksOk, RowsOf, ChunksOk, Cleared, MoveEntry, IsAncestor, DropNodeName;
    if replaced.Some? && replaced.value.kind != Directory {
      EntryHasAName(before, over.value, replaced.value);
    }
  }

  lemma EntryHasAName(t: Tables, id: nat, found: Found)
    requires TablesOk(t) && id in t.dirents && t.dirents[id].child == found.ino && IsCurrent(t, found)
             && found.kind != Directory
    ensures found.ino in NodesOf(t) && NodesOf(t)[found.ino].nlink == found.nlink >= 1
  {
    hide TreeOk, EntriesOk, RowsOf, ChunksOk;
    DropNameLinks(NsOf(t), id, false);
  }

  lemma InodeViews(t: Tables, i: nat)
    ensures i in NsOf(t).nodes <==> i in t.inodes
    ensures i in t.inodes ==> NsOf(t).nodes[i] == Inode(t.inodes[i].kind, t.inodes[i].nlink)
    ensures NsOf(t).dirents == t.dirents
  {
  }

  lemma NoWrites(f: File)
    ensures WriteBatch(f, []) == f && TotalBytes([]) == 0
  {
  }

  lemma ChunkIsInRange(span: ChunkSpan, c: nat)
    requires span.Valid() && span.end <= MAX_FILE_SIZE && c <= span.last
    ensures c < MAX_CHUNKS
  {
  }

  lemma RowBehindKey(t: Tables, ino: nat, c: nat)
    requires ChunksOk(t) && c < MAX_CHUNKS
    ensures RowOf(RowsOf(t.chunks, ino), c) == if ChunkKey(ino, c) in t.chunks then t.chunks[ChunkKey(ino, c)] else []
    ensures |RowOf(RowsOf(t.chunks, ino), c)| <= CHUNK_SIZE
  {
  }

  lemma DeleteAllRows(t: Tables, ino: nat)
    requires ChunksOk(t) && ino in t.inodes
    ensures var g := DeleteChunkRange(t.chunks, ChunkKey(ino, 0), ChunkKey(ino, MAX_CHUNKS - 1));
            && RowsOf(g, ino) == TruncateRows(RowsOf(t.chunks, ino), 0)
            && forall j :: j in t.inodes && j != ino ==> RowsOf(g, j) == RowsOf(t.chunks, j)
  {
    var g := DeleteChunkRange(t.chunks, ChunkKey(ino, 0), ChunkKey(ino, MAX_CHUNKS - 1));
    RangeDeleteIsLocal(t.chunks, ino, 0, MAX_CHUNKS - 1, ino);
    assert forall c :: c in RowsOf(t.chunks, ino) ==> 0 <= c <= MAX_CHUNKS - 1;
    hide RowsOf;
    forall j | j in t.inodes && j != ino ensures RowsOf(g, j) == RowsOf(t.chunks, j) {
      RangeDeleteIsLocal(t.chunks, ino, 0, MAX_CHUNKS - 1, j);
      var rows := RowsOf(t.chunks, j);
      assert rows == map c | c in rows && !(j == ino && 0 <= c <= MAX_CHUNKS - 1) :: rows[c];
    }
  }

  lemma TruncateAllRows(t: Tables, ino: nat, n: nat)
    requires ChunksOk(t) && ino in t.inodes && 0 < n <= MAX_FILE_SIZE
    ensures RowsOf(TruncateTable(t.chunks, ino, n), ino) == TruncateRows(RowsOf(t.chunks, ino), n)
    ensures forall j :: j in t.inodes && j != ino ==> RowsOf(TruncateTable(t.chunks, ino, n), j) == RowsOf(t.chunks, j)
  {
    hide RowsOf, TruncateTable, TruncateRows;
    TruncateTableIsTruncateRows(t.chunks, ino, n, ino);
    forall j | j in t.inodes && j != ino ensures RowsOf(TruncateTable(t.chunks, ino, n), j) == RowsOf(t.chunks, j) {
      TruncateTableIsTruncateRows(t.chunks, ino, n, j);
    }
  }
}
