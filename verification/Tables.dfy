/** The SQL tables as maps, the statements of the transactions, and the two views of them: the
    directory tree, and the files. */
module Tables {
  import opened Basics
  import opened Chunking
  import opened Files
  import opened Model
  import opened Namespace
  import CacheModel

  type Time = CacheModel.Time

  type Node = CacheModel.Node

  datatype InodeRow = InodeRow(kind: FileKind, nlink: int, size: nat, mtime: Time)

  /** `chunks` is keyed by `ChunkKey`. */
  datatype Tables = Tables(inodes: map<nat, InodeRow>, dirents: Dirents, chunks: map<nat, Blob>)

  /* ----- Views ----- */

  function NsOf(t: Tables): Ns {
    Ns(map i | i in t.inodes :: Inode(t.inodes[i].kind, t.inodes[i].nlink), t.dirents)
  }

  /** The chunk rows of one inode, by chunk index. */
  function RowsOf(chunks: map<nat, Blob>, ino: nat): Rows {
    map c: nat | c < MAX_CHUNKS && ChunkKey(ino, c) in chunks :: chunks[ChunkKey(ino, c)]
  }

  function FileOf(t: Tables, ino: nat): File
    requires ino in t.inodes
  {
    File(t.inodes[ino].size, RowsOf(t.chunks, ino))
  }

  function NodeOf(t: Tables, ino: nat): Node
    requires ino in t.inodes
  {
    CacheModel.Node(t.inodes[ino].kind, t.inodes[ino].nlink, t.inodes[ino].mtime, FileOf(t, ino))
  }

  /** Everything that is not a directory. */
  function NodesOf(t: Tables): map<nat, Node> {
    map i | i in t.inodes && t.inodes[i].kind != Directory :: NodeOf(t, i)
  }

  /** Chunk rows belong to regular files that exist; inode numbers leave room for chunk keys. */
  ghost predicate ChunksOk(t: Tables) {
    && (forall i :: i in t.inodes ==> i <= MAX_INO)
    && (forall k :: k in t.chunks ==>
          InoOf(k) in t.inodes && t.inodes[InoOf(k)].kind == RegularFile && |t.chunks[k]| <= CHUNK_SIZE)
  }

  ghost predicate TablesOk(t: Tables) {
    ChunksOk(t) && NsOk(NsOf(t))
  }

  /** The rows of the directories. */
  function DirsOf(t: Tables): map<nat, InodeRow> {
    map i | i in t.inodes && t.inodes[i].kind == Directory :: t.inodes[i]
  }

  /** The entries are the same, and the directories with their link counts, sizes and times. */
  ghost predicate SameTree(a: Tables, b: Tables) {
    a.dirents == b.dirents && DirsOf(a) == DirsOf(b)
  }

  /** The same directories, one of them with another time if one is given. */
  function WithTime(dirs: map<nat, InodeRow>, i: nat, t: Option<Time>): map<nat, InodeRow> {
    if t.Some? && i in dirs then dirs[i := dirs[i].(mtime := t.value)] else dirs
  }

  /** Of the directories there are, those in `touched` have the time `now` and all others the time
      they had; no size has changed. */
  ghost predicate DirsDated(before: Tables, after: Tables, touched: set<nat>, now: Time) {
    forall d :: d in DirsOf(after) ==>
                  && (d in touched || d in DirsOf(before))
                  && DirsOf(after)[d].mtime == (if d in touched then now else DirsOf(before)[d].mtime)
                  && (d in DirsOf(before) ==> DirsOf(after)[d].size == DirsOf(before)[d].size)
  }

  /* ----- Chunk rows through their keys ----- */

  function DeleteChunkRange(chunks: map<nat, Blob>, from: int, to: int): map<nat, Blob> {
    map k | k in chunks && !(from <= k <= to) :: chunks[k]
  }

  lemma UpsertChangesOneRow(chunks: map<nat, Blob>, ino: nat, c: nat, d: Blob, j: nat)
    requires ino <= MAX_INO && j <= MAX_INO && c < MAX_CHUNKS
    ensures RowsOf(chunks[ChunkKey(ino, c) := d], j) == if j == ino then RowsOf(chunks, j)[c := d]
            else RowsOf(chunks, j)
  {
    forall e: nat | e < MAX_CHUNKS ensures ChunkKey(j, e) == ChunkKey(ino, c) <==> j == ino && e == c {
      KeysDecodeAndRangesAreDisjoint(ino, c, j, e);
    }
  }

  /** Deleting a key range between two chunks of one inode deletes those chunks of that inode and
      nothing of any other. */
  lemma RangeDeleteIsLocal(chunks: map<nat, Blob>, ino: nat, from: nat, to: nat, j: nat)
    requires ino <= MAX_INO && j <= MAX_INO && from < MAX_CHUNKS && to < MAX_CHUNKS
    ensures RowsOf(DeleteChunkRange(chunks, ChunkKey(ino, from), ChunkKey(ino, to)), j)
         == map c | c in RowsOf(chunks, j) && !(j == ino && from <= c <= to) :: RowsOf(chunks, j)[c]
  {
    forall e: nat | e < MAX_CHUNKS
      ensures ChunkKey(ino, from) <= ChunkKey(j, e) <= ChunkKey(ino, to) <==> j == ino && from <= e <= to
    {
      KeysDecodeAndRangesAreDisjoint(ino, from, j, e);
      KeysDecodeAndRangesAreDisjoint(ino, to, j, e);
    }
  }

  /** A number nobody owns has no rows. */
  lemma NoRowsForNewInode(t: Tables, ino: nat)
    requires ChunksOk(t) && ino !in t.inodes && ino <= MAX_INO
    ensures RowsOf(t.chunks, ino) == map[]
  {
    forall c: nat | c < MAX_CHUNKS ensures ChunkKey(ino, c) !in t.chunks {
      KeysDecodeAndRangesAreDisjoint(ino, c, ino, c);
    }
  }

  lemma OnlyRegularFilesHaveRows(t: Tables, ino: nat)
    requires ChunksOk(t) && ino in t.inodes && t.inodes[ino].kind != RegularFile
    ensures RowsOf(t.chunks, ino) == map[]
  {
    forall c: nat | c < MAX_CHUNKS ensures ChunkKey(ino, c) !in t.chunks {
      KeysDecodeAndRangesAreDisjoint(ino, c, ino, c);
    }
  }

  /* ----- Statements ----- */

  function UpsertChunk(t: Tables, ino: nat, c: nat, d: Blob): Tables
  {
    t.(chunks := t.chunks[ChunkKey(ino, c) := d])
  }

  /** Deletes the chunk range and the inode row; the foreign keys take the entries along. */
  function DeleteInodeRows(t: Tables, ino: nat): Tables {
    Tables(t.inodes - {ino},
           map id | id in t.dirents && t.dirents[id].parent != ino && t.dirents[id].child != ino :: t.dirents[id],
           DeleteChunkRange(t.chunks, ChunkKey(ino, 0), ChunkKey(ino, MAX_CHUNKS - 1)))
  }

  function SetSize(t: Tables, ino: nat, size: nat, modified: Time): Tables {
    if ino in t.inodes then t.(inodes := t.inodes[ino := t.inodes[ino].(size := size, mtime := modified)]) else t
  }

  function TouchDir(t: Tables, ino: nat, now: Time): Tables {
    if ino in t.inodes then t.(inodes := t.inodes[ino := t.inodes[ino].(mtime := now)]) else t
  }

  function SetNlink(t: Tables, ino: nat, nlink: int): Tables {
    if ino in t.inodes then t.(inodes := t.inodes[ino := t.inodes[ino].(nlink := nlink)]) else t
  }

  function AddDirectoryNlink(t: Tables, ino: nat, delta: int): Tables {
    if ino in t.inodes then SetNlink(t, ino, t.inodes[ino].nlink + delta) else t
  }

  function DeleteDirent(t: Tables, parent: nat, name: Name): Tables {
    t.(dirents := map id | id in t.dirents
        && !(t.dirents[id].parent == parent && t.dirents[id].name == name) :: t.dirents[id])
  }

  function InsertDirent(t: Tables, id: nat, parent: nat, name: Name, child: nat): Tables {
    t.(dirents := t.dirents[id := Dirent(parent, name, child)])
  }

  lemma DeleteKeepsChunksOk(t: Tables, ino: nat)
    requires ChunksOk(t) && ino <= MAX_INO
    ensures ChunksOk(DeleteInodeRows(t, ino))
  {
    var g := DeleteInodeRows(t, ino);
    forall k | k in g.chunks ensures InoOf(k) != ino {
      KeyOfParts(k);
      KeysDecodeAndRangesAreDisjoint(ino, 0, InoOf(k), ChunkIndexOf(k));
    }
  }

  function UpdateDirent(t: Tables, parent: nat, name: Name, newParent: nat, newName: Name): Tables {
    t.(dirents := map id | id in t.dirents ::
      if t.dirents[id].parent == parent && t.dirents[id].name == name
          then Dirent(newParent, newName, t.dirents[id].child)
      else t.dirents[id])
  }

  /** What deleting an inode does to the two views, when no entry mentions it any more. */
  lemma DeleteInodeRowsViews(t: Tables, ino: nat)
    requires ChunksOk(t) && ino <= MAX_INO
    requires forall id :: id in t.dirents ==> t.dirents[id].parent != ino && t.dirents[id].child != ino
    ensures ChunksOk(DeleteInodeRows(t, ino))
    ensures NsOf(DeleteInodeRows(t, ino)) == Ns(NsOf(t).nodes - {ino}, t.dirents)
    ensures NodesOf(DeleteInodeRows(t, ino)) == NodesOf(t) - {ino}
  {
    hide RowsOf, DeleteChunkRange;
    var g := DeleteInodeRows(t, ino);
    DeleteKeepsChunksOk(t, ino);
    forall j | j in g.inodes ensures NodeOf(g, j) == NodeOf(t, j) {
      RangeDeleteIsLocal(t.chunks, ino, 0, MAX_CHUNKS - 1, j);
      var rows := RowsOf(t.chunks, j);
      assert rows == map c | c in rows && !(j == ino && 0 <= c <= MAX_CHUNKS - 1) :: rows[c];
    }
    hide NodeOf, ChunksOk;
    assert g.dirents == t.dirents;
  }

  /* ----- What each statement does to the views ----- */

  function SetRow(t: Tables, i: nat, row: InodeRow): Tables {
    t.(inodes := t.inodes[i := row])
  }

  /** Rewriting one inode row, keeping its kind. */
  lemma SetRowViews(t: Tables, i: nat, row: InodeRow)
    requires ChunksOk(t) && i in t.inodes && row.kind == t.inodes[i].kind
    ensures ChunksOk(SetRow(t, i, row))
    ensures NsOf(SetRow(t, i, row)) == Ns(NsOf(t).nodes[i := Inode(row.kind, row.nlink)], t.dirents)
    ensures row.kind == Directory ==> NodesOf(SetRow(t, i, row)) == NodesOf(t)
    ensures row.kind != Directory ==>
              NodesOf(SetRow(t, i, row)) ==
              NodesOf(t)[i := CacheModel.Node(row.kind, row.nlink, row.mtime, File(row.size, RowsOf(t.chunks, i)))]
  {
    hide RowsOf;
  }

  lemma SetRowSameLinks(t: Tables, i: nat, row: InodeRow)
    requires ChunksOk(t) && i in t.inodes && row.kind == t.inodes[i].kind && row.nlink == t.inodes[i].nlink
    ensures NsOf(SetRow(t, i, row)) == NsOf(t)
  {
    hide RowsOf;
  }

  lemma UpsertKeepsChunksOk(t: Tables, i: nat, c: nat, d: Blob)
    requires ChunksOk(t) && i in t.inodes && t.inodes[i].kind == RegularFile
    requires c < MAX_CHUNKS && |d| <= CHUNK_SIZE
    ensures ChunksOk(UpsertChunk(t, i, c, d))
  {
    KeysDecodeAndRangesAreDisjoint(i, c, i, c);
  }

  lemma UpsertViews(t: Tables, i: nat, c: nat, d: Blob)
    requires ChunksOk(t) && i in t.inodes && t.inodes[i].kind == RegularFile
    requires c < MAX_CHUNKS && |d| <= CHUNK_SIZE
    ensures ChunksOk(UpsertChunk(t, i, c, d))
    ensures UpsertChunk(t, i, c, d).inodes == t.inodes && UpsertChunk(t, i, c, d).dirents == t.dirents
    ensures RowsOf(UpsertChunk(t, i, c, d).chunks, i) == RowsOf(t.chunks, i)[c := d]
    ensures forall j :: j in t.inodes && j != i ==> RowsOf(UpsertChunk(t, i, c, d).chunks, j) == RowsOf(t.chunks, j)
  {
    UpsertKeepsChunksOk(t, i, c, d);
    hide RowsOf;
    UpsertChangesOneRow(t.chunks, i, c, d, i);
    forall j | j in t.inodes && j != i ensures RowsOf(UpsertChunk(t, i, c, d).chunks, j) == RowsOf(t.chunks, j) {
      UpsertChangesOneRow(t.chunks, i, c, d, j);
    }
  }

  lemma NewRowNs(t: Tables, i: nat, row: InodeRow)
    requires i !in t.inodes
    ensures NsOf(SetRow(t, i, row)) == Ns(NsOf(t).nodes[i := Inode(row.kind, row.nlink)], t.dirents)
  {
  }

  lemma NewRowNodes(t: Tables, i: nat, row: InodeRow)
    requires i !in t.inodes && RowsOf(t.chunks, i) == map[]
    ensures row.kind == Directory ==> NodesOf(SetRow(t, i, row)) == NodesOf(t)
    ensures row.kind != Directory ==>
              NodesOf(SetRow(t, i, row)) ==
              NodesOf(t)[i := CacheModel.Node(row.kind, row.nlink, row.mtime, File(row.size, map[]))]
  {
    hide RowsOf;
    var g := SetRow(t, i, row);
    assert forall j :: j in t.inodes ==> NodeOf(g, j) == NodeOf(t, j);
    if row.kind == Directory {
      assert NodesOf(g) == NodesOf(t);
    } else {
      var more := CacheModel.Node(row.kind, row.nlink, row.mtime, File(row.size, map[]));
      assert NodeOf(g, i) == more;
      assert NodesOf(g) == NodesOf(t)[i := more];
    }
  }

  /** The tables after adding an inode row with a new number. */
  lemma NewRowViews(t: Tables, i: nat, row: InodeRow)
    requires ChunksOk(t) && i !in t.inodes && i <= MAX_INO
    ensures ChunksOk(SetRow(t, i, row))
    ensures NsOf(SetRow(t, i, row)) == Ns(NsOf(t).nodes[i := Inode(row.kind, row.nlink)], t.dirents)
    ensures row.kind == Directory ==> NodesOf(SetRow(t, i, row)) == NodesOf(t)
    ensures row.kind != Directory ==>
              NodesOf(SetRow(t, i, row)) ==
              NodesOf(t)[i := CacheModel.Node(row.kind, row.nlink, row.mtime, File(row.size, map[]))]
  {
    NewRowKeepsChunksOk(t, i, row);
    NewRowNs(t, i, row);
    NoRowsForNewInode(t, i);
    NewRowNodes(t, i, row);
    hide *;
  }

  lemma NewRowKeepsChunksOk(t: Tables, i: nat, row: InodeRow)
    requires ChunksOk(t) && i !in t.inodes && i <= MAX_INO
    ensures ChunksOk(SetRow(t, i, row))
  {
  }

  /** Changing entries changes nothing about files. */
  lemma SetDirentsViews(t: Tables, dirents: Dirents)
    requires ChunksOk(t)
    ensures ChunksOk(t.(dirents := dirents))
    ensures NsOf(t.(dirents := dirents)) == Ns(NsOf(t).nodes, dirents)
    ensures NodesOf(t.(dirents := dirents)) == NodesOf(t)
  {
    hide RowsOf;
  }

  /* ----- What each statement does to the directories ----- */

  /** Rows of files may come, go and change. */
  lemma FileRowsKeepTree(t: Tables, g: Tables, i: nat)
    requires i in t.inodes ==> t.inodes[i].kind != Directory
    requires i in g.inodes ==> g.inodes[i].kind != Directory
    requires g.inodes - {i} == t.inodes - {i} && g.dirents == t.dirents
    ensures SameTree(t, g)
  {
    forall d: nat ensures d in DirsOf(g) <==> d in DirsOf(t)
      ensures d in DirsOf(g) ==> DirsOf(g)[d] == DirsOf(t)[d]
    {
      assert d in g.inodes - {i} <==> d in t.inodes - {i};
      assert d in g.inodes - {i} ==> (g.inodes - {i})[d] == (t.inodes - {i})[d];
    }
  }

  lemma SetRowDirs(t: Tables, i: nat, time: Option<Time>)
    requires i in t.inodes
    ensures var row := t.inodes[i].(mtime := if time.Some? then time.value else t.inodes[i].mtime);
            DirsOf(SetRow(t, i, row)) == WithTime(DirsOf(t), i, time)
  {
  }

  lemma NothingDated(t: Tables, now: Time)
    ensures DirsDated(t, t, {}, now)
  {
  }

  lemma RowDates(t: Tables, g: Tables, dated: set<nat>, now: Time, i: nat, row: InodeRow)
    requires DirsDated(t, g, dated, now) && row.mtime == now
    requires if i in g.inodes then row.size == g.inodes[i].size && row.kind == g.inodes[i].kind
             else i !in t.inodes
    ensures DirsDated(t, SetRow(g, i, row), dated + {i}, now)
    ensures row.kind != Directory ==> DirsDated(t, SetRow(g, i, row), dated, now)
  {
    var h := SetRow(g, i, row);
    assert forall d :: d in DirsOf(h) && d != i ==> d in DirsOf(g) && DirsOf(h)[d] == DirsOf(g)[d];
  }

  lemma TouchDates(t: Tables, g: Tables, dated: set<nat>, now: Time, dir: nat)
    requires DirsDated(t, g, dated, now) && dir in g.inodes
    ensures DirsDated(t, TouchDir(g, dir, now), dated + {dir}, now)
  {
    hide DirsDated;
    RowDates(t, g, dated, now, dir, g.inodes[dir].(mtime := now));
  }

  /** Link counts, entries and chunks are no matter of dates, and rows may go. */
  lemma OthersDateNothing(t: Tables, g: Tables, h: Tables, dated: set<nat>, now: Time)
    requires DirsDated(t, g, dated, now)
    requires forall d :: d in h.inodes ==> d in g.inodes && h.inodes[d].(nlink := 0) == g.inodes[d].(nlink := 0)
    ensures DirsDated(t, h, dated, now)
  {
    assert forall d :: d in DirsOf(h) ==> d in DirsOf(g) && DirsOf(h)[d].(nlink := 0) == DirsOf(g)[d].(nlink := 0);
  }

  /* ----- Chunk lists ----- */

  /** A list of chunks stored over rows, in order. */
  function UpsertAll(rows: Rows, chunks: seq<(nat, Blob)>): Rows {
    if chunks == [] then rows
    else
      var last := chunks[|chunks| - 1];
      UpsertAll(rows, chunks[..|chunks| - 1])[last.0 := last.1]
  }

  ghost predicate InList(chunks: seq<(nat, Blob)>, c: nat) {
    exists k :: 0 <= k < |chunks| && chunks[k].0 == c
  }

  lemma {:induction false} UpsertPartial(rows: Rows, chunks: seq<(nat, Blob)>, d: Rows)
    requires forall k :: 0 <= k < |chunks| ==> chunks[k].0 in d && d[chunks[k].0] == chunks[k].1
    ensures var r := UpsertAll(rows, chunks);
            && (forall c :: c in r <==> c in rows || InList(chunks, c))
            && (forall c :: c in r ==>
                  if InList(chunks, c) then c in d && r[c] == d[c] else c in rows && r[c] == rows[c])
    decreases |chunks|
  {
    if chunks != [] {
      var before := chunks[..|chunks| - 1];
      UpsertPartial(rows, before, d);
      var last := chunks[|chunks| - 1];
      forall c ensures InList(chunks, c) <==> c == last.0 || InList(before, c) {
        if k :| 0 <= k < |before| && before[k].0 == c {
          assert chunks[k].0 == c;
        }
        if k :| 0 <= k < |chunks| && chunks[k].0 == c {
          assert k < |before| ==> before[k].0 == c;
        }
      }
    }
  }

  /** Storing chunks that list `d` exactly lays `d` over the rows. */
  lemma UpsertListed(rows: Rows, chunks: seq<(nat, Blob)>, d: Rows)
    requires forall k :: 0 <= k < |chunks| ==> chunks[k].0 in d && d[chunks[k].0] == chunks[k].1
    requires forall c :: c in d ==> InList(chunks, c)
    ensures UpsertAll(rows, chunks) == rows + d
  {
    UpsertPartial(rows, chunks, d);
    forall c | InList(chunks, c) ensures c in d {
    }
  }

  /** The table a truncation leaves: rows after the final one deleted, the final one cut. */
  function TruncateTable(chunks: map<nat, Blob>, ino: nat, n: nat): map<nat, Blob>
    requires 0 < n <= MAX_FILE_SIZE
  {
    var key := ChunkKey(ino, (n - 1) / CHUNK_SIZE);
    var len := (n - 1) % CHUNK_SIZE + 1;
    var cut := DeleteChunkRange(chunks, key + 1, ChunkKey(ino, MAX_CHUNKS - 1));
    if key in cut && |cut[key]| > len then cut[key := cut[key][..len]] else cut
  }

  lemma TruncateTableAt(chunks: map<nat, Blob>, ino: nat, n: nat, j: nat, e: nat)
    requires ino <= MAX_INO && j <= MAX_INO && e < MAX_CHUNKS && 0 < n <= MAX_FILE_SIZE
    ensures var final, len, key := (n - 1) / CHUNK_SIZE, (n - 1) % CHUNK_SIZE + 1, ChunkKey(j, e);
            var g := TruncateTable(chunks, ino, n);
            && (key in g <==> key in chunks && (j == ino ==> e <= final))
            && (key in g ==> g[key] == if j == ino && e == final && |chunks[key]| > len then chunks[key][..len]
               else chunks[key])
  {
    var final := (n - 1) / CHUNK_SIZE;
    KeysDecodeAndRangesAreDisjoint(ino, final, j, e);
    KeysDecodeAndRangesAreDisjoint(ino, MAX_CHUNKS - 1, j, e);
  }

  /** Truncating the table truncates the rows of one inode and leaves every other alone. */
  lemma TruncateTableIsTruncateRows(chunks: map<nat, Blob>, ino: nat, n: nat, j: nat)
    requires ino <= MAX_INO && j <= MAX_INO && 0 < n <= MAX_FILE_SIZE
    ensures RowsOf(TruncateTable(chunks, ino, n), j) == if j == ino then TruncateRows(RowsOf(chunks, j), n)
            else RowsOf(chunks, j)
  {
    hide TruncateTable;
    var g := TruncateTable(chunks, ino, n);
    forall e: nat | e < MAX_CHUNKS
      ensures var final, len, key := (n - 1) / CHUNK_SIZE, (n - 1) % CHUNK_SIZE + 1, ChunkKey(j, e);
              && (key in g <==> key in chunks && (j == ino ==> e <= final))
              && (key in g ==> g[key] == if j == ino && e == final && |chunks[key]| > len then chunks[key][..len]
                 else chunks[key])
    {
      TruncateTableAt(chunks, ino, n, j, e);
    }
    hide ChunkKey;
  }

  /** A data transaction: rows of one regular file, its size and its mtime. */
  lemma FileCommitViews(t: Tables, g: Tables, i: nat, size: nat, modified: Time)
    requires i in t.inodes && t.inodes[i].kind != Directory
    requires g.inodes == t.inodes && g.dirents == t.dirents
    requires forall j :: j in t.inodes && j != i ==> RowsOf(g.chunks, j) == RowsOf(t.chunks, j)
    ensures NsOf(SetSize(g, i, size, modified)) == NsOf(t)
    ensures NodesOf(SetSize(g, i, size, modified)) ==
            NodesOf(t)[i := CacheModel.Node(t.inodes[i].kind, t.inodes[i].nlink, modified,
                File(size, RowsOf(g.chunks, i)))]
  {
    hide RowsOf, NsOf, NodesOf, SetSize;
    FileCommitNs(g, t, i, size, modified);
    FileCommitNodes(t, g, i, size, modified);
  }

  lemma FileCommitNs(g: Tables, t: Tables, i: nat, size: nat, modified: Time)
    requires i in t.inodes && g.inodes == t.inodes && g.dirents == t.dirents
    ensures NsOf(SetSize(g, i, size, modified)) == NsOf(t)
  {
    assert NsOf(SetSize(g, i, size, modified)) == NsOf(t);
  }

  lemma FileCommitNodes(t: Tables, g: Tables, i: nat, size: nat, modified: Time)
    requires i in t.inodes && t.inodes[i].kind != Directory && g.inodes == t.inodes
    requires forall j :: j in t.inodes && j != i ==> RowsOf(g.chunks, j) == RowsOf(t.chunks, j)
    ensures NodesOf(SetSize(g, i, size, modified)) ==
            NodesOf(t)[i := CacheModel.Node(t.inodes[i].kind, t.inodes[i].nlink, modified,
                File(size, RowsOf(g.chunks, i)))]
  {
    hide RowsOf;
    var h := SetSize(g, i, size, modified);
    assert forall j :: j in t.inodes && j != i ==> NodeOf(h, j) == NodeOf(t, j);
  }

  lemma SetSizeKeepsChunksOk(t: Tables, i: nat, size: nat, modified: Time)
    requires ChunksOk(t)
    ensures ChunksOk(SetSize(t, i, size, modified))
  {
  }

  lemma DeleteRangeKeepsChunksOk(t: Tables, from: int, to: int)
    requires ChunksOk(t)
    ensures ChunksOk(t.(chunks := DeleteChunkRange(t.chunks, from, to)))
  {
  }

  lemma TruncateKeepsChunksOk(t: Tables, ino: nat, n: nat)
    requires ChunksOk(t) && 0 < n <= MAX_FILE_SIZE
    ensures ChunksOk(t.(chunks := TruncateTable(t.chunks, ino, n)))
  {
  }

  /* ----- Transactions on entries ----- */

  /** An inode as a lookup resolves it. */
  datatype Found = Found(ino: nat, kind: FileKind, nlink: int)

  predicate IsCurrent(t: Tables, f: Found) {
    f.ino in t.inodes && t.inodes[f.ino].kind == f.kind && t.inodes[f.ino].nlink == f.nlink
  }

  predicate IsEntry(dirents: Dirents, id: nat, parent: nat, name: Name) {
    id in dirents && dirents[id].parent == parent && dirents[id].name == name
  }

  /** What becomes of `target` when one of its entries is gone: the row goes for a directory and for a
      closed inode with one link, any other row has one link less. */
  function DropUnlinkedInode(t: Tables, target: Found, isOpen: bool): Tables {
    if target.kind == Directory then DeleteInodeRows(t, target.ino)
    else if target.nlink > 1 || isOpen then SetNlink(t, target.ino, Max(target.nlink - 1, 0))
    else DeleteInodeRows(t, target.ino)
  }

  function SetNodeLinks(nodes: map<nat, Node>, i: nat, nlink: int): map<nat, Node> {
    if i in nodes then nodes[i := nodes[i].(nlink := nlink)] else nodes
  }

  /** What dropping a name of an inode that is not a directory does to the files. */
  function DropNodeName(nodes: map<nat, Node>, target: Found, isOpen: bool): map<nat, Node> {
    if target.nlink > 1 || isOpen then SetNodeLinks(nodes, target.ino, target.nlink - 1) else nodes - {target.ino}
  }

  lemma DeleteDirentIsOne(t: Tables, id: nat, parent: nat, name: Name)
    requires EntriesOk(NsOf(t)) && IsEntry(t.dirents, id, parent, name)
    ensures DeleteDirent(t, parent, name) == t.(dirents := t.dirents - {id})
  {
    hide IsDir;
    assert forall a :: a in t.dirents && IsEntry(t.dirents, a, parent, name) ==> SameName(t.dirents[a], t.dirents[id]);
    assert DeleteDirent(t, parent, name).dirents == t.dirents - {id};
  }

  lemma TouchDirViews(t: Tables, dir: nat, now: Time)
    requires ChunksOk(t) && IsDir(NsOf(t), dir)
    ensures ChunksOk(TouchDir(t, dir, now)) && TouchDir(t, dir, now).dirents == t.dirents
    ensures NsOf(TouchDir(t, dir, now)) == NsOf(t)
    ensures NodesOf(TouchDir(t, dir, now)) == NodesOf(t)
  {
    var row := t.inodes[dir].(mtime := now);
    SetRowViews(t, dir, row);
    SetRowSameLinks(t, dir, row);
    hide *;
    assert TouchDir(t, dir, now) == SetRow(t, dir, row) by { TouchDirIsSetRow(t, dir, now); }
  }

  lemma TouchDirIsSetRow(t: Tables, dir: nat, now: Time)
    requires dir in t.inodes
    ensures TouchDir(t, dir, now) == SetRow(t, dir, t.inodes[dir].(mtime := now))
  {
  }

  lemma AddDirectoryNlinkViews(t: Tables, dir: nat, delta: int)
    requires ChunksOk(t) && IsDir(NsOf(t), dir)
    ensures ChunksOk(AddDirectoryNlink(t, dir, delta)) && AddDirectoryNlink(t, dir, delta).dirents == t.dirents
    ensures NsOf(AddDirectoryNlink(t, dir, delta)) == Ns(AddLinks(NsOf(t).nodes, dir, delta), t.dirents)
    ensures NodesOf(AddDirectoryNlink(t, dir, delta)) == NodesOf(t)
  {
    var row := t.inodes[dir].(nlink := t.inodes[dir].nlink + delta);
    SetRowViews(t, dir, row);
    assert AddDirectoryNlink(t, dir, delta) == SetRow(t, dir, row);
    hide NodesOf, ChunksOk;
  }

  lemma KeepFileViews(t: Tables, id: nat, target: Found)
    requires ChunksOk(t) && id in t.dirents && t.dirents[id].child == target.ino
    requires IsCurrent(t, target) && target.kind != Directory
    ensures var g := SetNlink(t.(dirents := t.dirents - {id}), target.ino, target.nlink - 1);
            && ChunksOk(g)
            && NsOf(g) == Ns(AddLinks(NsOf(t).nodes, target.ino, -1), t.dirents - {id})
            && NodesOf(g) == SetNodeLinks(NodesOf(t), target.ino, target.nlink - 1)
  {
    hide RowsOf;
    var t1 := t.(dirents := t.dirents - {id});
    SetDirentsViews(t, t.dirents - {id});
    var row := t1.inodes[target.ino].(nlink := target.nlink - 1);
    SetRowViews(t1, target.ino, row);
    hide ChunksOk;
  }

  /** Deleting an entry of a file and dropping the inode behind it. */
  lemma DropFileViews(t: Tables, id: nat, target: Found, isOpen: bool)
    requires TablesOk(t) && id in t.dirents && t.dirents[id].child == target.ino
    requires IsCurrent(t, target) && target.kind != Directory
    ensures var g := DropUnlinkedInode(t.(dirents := t.dirents - {id}), target, isOpen);
            && ChunksOk(g)
            && NsOf(g) == DropName(NsOf(t), id, isOpen)
            && NodesOf(g) == DropNodeName(NodesOf(t), target, isOpen)
  {
    DropNameLinks(NsOf(t), id, isOpen);
    assert target.nlink >= 1 && target.ino <= MAX_INO && target.ino in NsOf(t).nodes;
    if target.nlink > 1 || isOpen {
      hide NsOk, ChunksOk, RowsOf, NodesOf, IsCurrent;
      KeepFileViews(t, id, target);
    } else {
      var t1 := t.(dirents := t.dirents - {id});
      SetDirentsViews(t, t.dirents - {id});
      DropLastName(t, id, target);
      hide NsOk, ChunksOk, RowsOf, NodesOf, IsCurrent;
      DeleteInodeRowsViews(t1, target.ino);
    }
  }

  /** Without its last name no entry mentions a file any more. */
  lemma DropLastName(t: Tables, id: nat, target: Found)
    requires TablesOk(t) && id in t.dirents && t.dirents[id].child == target.ino
    requires IsCurrent(t, target) && target.kind != Directory && target.nlink <= 1
    ensures forall e :: e in t.dirents && e != id ==>
              t.dirents[e].parent != target.ino && t.dirents[e].child != target.ino
  {
    forall e | e in t.dirents && e != id ensures t.dirents[e].child != target.ino {
      if t.dirents[e].child == target.ino {
        assert e in NamesOf(t.dirents, target.ino) && id in NamesOf(t.dirents, target.ino);
        TwoNames(NamesOf(t.dirents, target.ino), e, id);
      }
    }
  }

  /** Deleting the entry of an empty directory, and the directory. */
  lemma DropDirViews(t: Tables, id: nat, target: Found, isOpen: bool)
    requires TablesOk(t) && id in t.dirents && t.dirents[id].child == target.ino
    requires IsCurrent(t, target) && target.kind == Directory
    requires forall e :: e in t.dirents ==> t.dirents[e].parent != target.ino
    ensures var g := DropUnlinkedInode(t.(dirents := t.dirents - {id}), target, isOpen);
            && ChunksOk(g)
            && NsOf(g) == Ns(NsOf(t).nodes - {target.ino}, t.dirents - {id})
            && NodesOf(g) == NodesOf(t)
  {
    var t1 := t.(dirents := t.dirents - {id});
    hide NsOk, NsOf, RowsOf, DeleteInodeRows;
    OnlyEntry(t, id, target);
    assert target.ino !in NodesOf(t) && target.ino <= MAX_INO && ChunksOk(t);
    hide TablesOk, ChunksOk, NodesOf, IsCurrent;
    SetDirentsViews(t, t.dirents - {id});
    DeleteInodeRowsViews(t1, target.ino);
    assert NodesOf(t) - {target.ino} == NodesOf(t);
  }

  lemma OnlyEntry(t: Tables, id: nat, target: Found)
    requires TablesOk(t) && id in t.dirents && t.dirents[id].child == target.ino
    requires IsCurrent(t, target) && target.kind == Directory
    ensures forall e :: e in t.dirents && e != id ==> t.dirents[e].child != target.ino
  {
    hide LinksOk, IsAncestor;
    assert IsDir(NsOf(t), target.ino);
  }

  lemma UpdateDirentIsOne(t: Tables, id: nat, parent: nat, name: Name, newParent: nat, newName: Name)
    requires forall a, b :: a in t.dirents && b in t.dirents && SameName(t.dirents[a], t.dirents[b]) ==> a == b
    requires IsEntry(t.dirents, id, parent, name)
    ensures UpdateDirent(t, parent, name, newParent, newName) ==
            t.(dirents := t.dirents[id := Dirent(newParent, newName, t.dirents[id].child)])
  {
    assert forall a :: a in t.dirents && IsEntry(t.dirents, a, parent, name) ==> SameName(t.dirents[a], t.dirents[id]);
    assert UpdateDirent(t, parent, name, newParent, newName).dirents ==
           t.dirents[id := Dirent(newParent, newName, t.dirents[id].child)];
  }

  /* ----- Startup ----- */

  /** What startup accepts: everything but the directories' link counts is right. */
  ghost predicate Repairable(t: Tables) {
    && ChunksOk(t) && EntriesOk(NsOf(t)) && TreeOk(NsOf(t))
    && forall i :: i in t.inodes && t.inodes[i].kind != Directory ==> t.inodes[i].nlink == |NamesOf(t.dirents, i)|
  }

  function RecomputeDirectoryNlink(t: Tables): Tables {
    t.(inodes := map i | i in t.inodes ::
      if t.inodes[i].kind == Directory then t.inodes[i].(nlink := 2 + |SubDirs(NsOf(t), i)|) else t.inodes[i])
  }

  lemma RecomputeSameKinds(t: Tables, i: nat)
    ensures SubDirs(NsOf(RecomputeDirectoryNlink(t)), i) == SubDirs(NsOf(t), i)
  {
  }

  lemma RecomputeLinks(t: Tables)
    requires Repairable(t)
    ensures LinksOk(NsOf(RecomputeDirectoryNlink(t)))
  {
    hide EntriesOk, TreeOk, ChunksOk;
    var g := RecomputeDirectoryNlink(t);
    forall i | i in t.inodes ensures NsOf(g).nodes[i].nlink == Links(NsOf(g), i) {
      RecomputeSameKinds(t, i);
    }
  }

  lemma SameKindsKeepTree(a: Ns, b: Ns)
    requires a.dirents == b.dirents
    requires forall i: nat :: (i in a.nodes <==> i in b.nodes) && (IsDir(a, i) <==> IsDir(b, i))
    requires EntriesOk(a) && TreeOk(a)
    ensures EntriesOk(b) && TreeOk(b)
  {
    hide IsAncestor;
  }

  /** Recomputing repairs the link counts of directories and changes no file; where they were
      right it changes nothing at all. */
  lemma RecomputeRepairs(t: Tables)
    requires Repairable(t)
    ensures TablesOk(RecomputeDirectoryNlink(t))
    ensures NodesOf(RecomputeDirectoryNlink(t)) == NodesOf(t)
    ensures LinksOk(NsOf(t)) ==> RecomputeDirectoryNlink(t) == t
  {
    hide IsAncestor, EntriesOk, TreeOk, LinksOk, ChunksOk, NsOf, NodesOf, RecomputeDirectoryNlink;
    RepairableFacts(t);
    RecomputeLinks(t);
    RecomputeNodes(t);
    RecomputeKeepsTree(t);
    if LinksOk(NsOf(t)) {
      RecomputeIsIdentity(t);
    }
  }

  lemma RepairableFacts(t: Tables)
    requires Repairable(t)
    ensures ChunksOk(t) && EntriesOk(NsOf(t)) && TreeOk(NsOf(t))
  {
    hide EntriesOk, TreeOk, ChunksOk;
  }

  lemma RecomputeKeepsTree(t: Tables)
    requires ChunksOk(t) && EntriesOk(NsOf(t)) && TreeOk(NsOf(t))
    ensures var g := RecomputeDirectoryNlink(t); ChunksOk(g) && EntriesOk(NsOf(g)) && TreeOk(NsOf(g))
  {
    hide IsAncestor, EntriesOk, TreeOk;
    SameKindsKeepTree(NsOf(t), NsOf(RecomputeDirectoryNlink(t)));
  }

  lemma RecomputeNodes(t: Tables)
    ensures NodesOf(RecomputeDirectoryNlink(t)) == NodesOf(t)
  {
    hide RowsOf;
  }

  lemma RecomputeIsIdentity(t: Tables)
    requires LinksOk(NsOf(t))
    ensures RecomputeDirectoryNlink(t) == t
  {
    forall i | i in t.inodes && t.inodes[i].kind == Directory ensures t.inodes[i].nlink == 2 + |SubDirs(NsOf(t), i)| {
      assert NsOf(t).nodes[i].nlink == Links(NsOf(t), i);
    }
    assert RecomputeDirectoryNlink(t).inodes == t.inodes;
  }

  /** Deleting a file that has no names. */
  lemma NamelessViews(t: Tables, ino: nat)
    requires TablesOk(t) && ino in t.inodes && t.inodes[ino].kind != Directory && t.inodes[ino].nlink == 0
    ensures TablesOk(DeleteInodeRows(t, ino))
    ensures NsOf(DeleteInodeRows(t, ino)) == Ns(NsOf(t).nodes - {ino}, t.dirents)
    ensures NodesOf(DeleteInodeRows(t, ino)) == NodesOf(t) - {ino}
  {
    var ns := NsOf(t);
    NamelessNotMentioned(ns, ino);
    DeleteInodeRowsViews(t, ino);
    hide NodesOf, NsOf, ChunksOk;
    DropNamelessKeepsOk(ns, ino);
  }

  /** A running mount's tables can be started from at any moment, with nothing to repair. */
  lemma ValidIsRepairable(t: Tables)
    requires TablesOk(t)
    ensures Repairable(t) && LinksOk(NsOf(t)) && ROOT in t.inodes
  {
    hide ChunksOk, TreeOk;
    assert IsDir(NsOf(t), ROOT);
    forall i | i in t.inodes && t.inodes[i].kind != Directory ensures t.inodes[i].nlink == |NamesOf(t.dirents, i)| {
      assert NsOf(t).nodes[i].nlink == Links(NsOf(t), i);
    }
  }

  /* ----- The upgrade of the chunk table ----- */

  /** The chunk table by integer key, made from one by inode and index. Chunks of inodes that no
      longer exist are dropped; data past the limits cannot be upgraded. */
  function Rekeyed(byPair: map<(nat, nat), Blob>, inodes: set<nat>): Option<map<nat, Blob>> {
    if exists k | k in byPair :: k.1 >= MAX_CHUNKS || k.0 > MAX_INO then None
    else
      Some(map key | key in NewKeys(byPair.Keys, inodes) && (InoOf(key), ChunkIndexOf(key)) in byPair ::
             byPair[(InoOf(key), ChunkIndexOf(key))])
  }

  function NewKeys(parts: set<(nat, nat)>, inodes: set<nat>): set<nat> {
    set k | k in parts && k.0 in inodes :: ChunkKey(k.0, k.1)
  }

  /** The upgrade goes through exactly when every chunk fits the new keys, even one without an owner. */
  lemma RekeyAccepts(byPair: map<(nat, nat), Blob>, inodes: set<nat>)
    ensures Rekeyed(byPair, inodes).Some? <==> forall k :: k in byPair ==> k.1 < MAX_CHUNKS && k.0 <= MAX_INO
  {
  }

  /** The upgrade keeps every file: the rows of an inode under the new keys are its old rows. */
  lemma RekeyKeepsRows(byPair: map<(nat, nat), Blob>, inodes: set<nat>, ino: nat)
    requires ino <= MAX_INO && Rekeyed(byPair, inodes).Some?
    ensures var rows := RowsOf(Rekeyed(byPair, inodes).value, ino);
            && (forall c :: c in rows <==> ino in inodes && (ino, c) in byPair)
            && (forall c :: c in rows ==> rows[c] == byPair[(ino, c)])
  {
    var now := Rekeyed(byPair, inodes).value;
    var rows := RowsOf(now, ino);
    forall c: nat
      ensures c in rows <==> ino in inodes && (ino, c) in byPair
      ensures c in rows ==> rows[c] == byPair[(ino, c)]
    {
      if c in rows {
        KeysDecodeAndRangesAreDisjoint(ino, c, ino, c);
        var k :| k in byPair.Keys && k.0 in inodes && ChunkKey(k.0, k.1) == ChunkKey(ino, c);
        KeysDecodeAndRangesAreDisjoint(ino, c, k.0, k.1);
      }
      if ino in inodes && (ino, c) in byPair {
        KeysDecodeAndRangesAreDisjoint(ino, c, ino, c);
        assert ChunkKey((ino, c).0, (ino, c).1) in NewKeys(byPair.Keys, inodes);
      }
    }
  }
}
