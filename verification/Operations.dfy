/** What the file system operations do to the cache, in values. */
module Operations {
  import opened Basics
  import opened Chunking
  import opened Files
  import opened Model
  import opened CacheModel
  import opened CacheTheorems
  import opened Arena
  import opened OpenTable
  import opened TableModel
  import Tables

  datatype Errno =
    | ENOENT | EEXIST | ENOTEMPTY | EINVAL | EISDIR | ENAMETOOLONG | ENOSPC | ENOTDIR | EFBIG | EIO
    | EBADF | ENODEV | EOPNOTSUPP

  datatype Reply<+T> = Done(value: T) | Fail(errno: Errno)

  function ErrnoOf(e: DbError): Errno {
    match e
    case NotFound => ENOENT
    case AlreadyExists => EEXIST
    case DirectoryNotEmpty => ENOTEMPTY
    case InvalidInput => EINVAL
    case IsDirectory => EISDIR
    case NameTooLong => ENAMETOOLONG
    case NoSpace => ENOSPC
    case NotDirectory => ENOTDIR
    case FileTooLarge => EFBIG
    case Sqlite => EIO
  }

  /** Every error of the store has an answer of its own. */
  lemma ErrnosTellErrorsApart(a: DbError, b: DbError)
    ensures ErrnoOf(a) == ErrnoOf(b) ==> a == b
    ensures ErrnoOf(NotFound) == ENOENT && ErrnoOf(AlreadyExists) == EEXIST
    ensures ErrnoOf(DirectoryNotEmpty) == ENOTEMPTY && ErrnoOf(InvalidInput) == EINVAL
    ensures ErrnoOf(IsDirectory) == EISDIR && ErrnoOf(NameTooLong) == ENAMETOOLONG
    ensures ErrnoOf(NoSpace) == ENOSPC && ErrnoOf(NotDirectory) == ENOTDIR
    ensures ErrnoOf(FileTooLarge) == EFBIG && ErrnoOf(Sqlite) == EIO
  {
  }

  /** The answers that tell of a failing store. */
  predicate IsStorageErrno(e: Errno) {
    e == ENOSPC || e == EIO
  }

  /** The reply to a commit that was tried. */
  predicate Answers(a: Attempt, r: Reply<()>) {
    match a.refusal
    case None => r.Done?
    case Some(e) => IsStorageFailure(e) && r == Fail(ErrnoOf(e))
  }

  /** Exactly one commit has been tried, that of inode `i`, and `r` is its outcome. */
  predicate TriedOne(before: seq<Attempt>, after: seq<Attempt>, i: nat, r: Reply<()>) {
    && |after| == |before| + 1 && after[..|before|] == before
    && after[|before|].ino == i && Answers(after[|before|], r)
  }

  /** What to do with dirty chunks of an inode that has no name: leave them, or commit them too. */
  datatype Unlinked = Skip | Persist

  /** An inode with a slot is stored, and is what its slot says. */
  lemma SlotFacts(fs: Fs, i: nat)
    requires Inv(fs) && i in fs.open
    ensures i in fs.nodes && fs.open[i].kind == fs.nodes[i].kind
    ensures fs.open[i].dirty == map[] ==> fs.open[i].size == fs.nodes[i].file.size
  {
  }

  /** Changes that leave every file alone can come before and after any other. */
  lemma OnlyChangesWithNone(a: Fs, b: Fs, c: Fs, w: set<nat>)
    ensures OnlyChanges(a, b, {}) && OnlyChanges(b, c, w) ==> OnlyChanges(a, c, w)
    ensures OnlyChanges(a, b, w) && OnlyChanges(b, c, {}) ==> OnlyChanges(a, c, w)
  {
    hide OnlyChanges;
    assert {} + w == w && w + {} == w;
    if OnlyChanges(a, b, {}) && OnlyChanges(b, c, w) {
      OnlyChangesTrans(a, b, c, {}, w);
    }
    if OnlyChanges(a, b, w) && OnlyChanges(b, c, {}) {
      OnlyChangesTrans(a, b, c, w, {});
    }
  }

  /* ----- Reading ----- */

  /** Stored bytes with the buffered chunks copied over them are the logical file: a buffered chunk
      is never shorter than the row it shadows. */
  lemma OverlaidIsLogical(n: Node, o: OpenFile, offset: nat, k: nat, below: byte, b: byte)
    requires NodeOk(n) && SlotOk(n, o)
    requires below == ByteAt(n.file.rows, offset + k)
    requires b == OverlaidByte(o.dirty, offset, k, below)
    ensures b == ByteAt(n.file.rows + o.dirty, offset + k)
  {
    hide WellFormed;
  }

  lemma NothingToRead(f: File, offset: nat, size: nat)
    requires offset >= f.size || size == 0
    ensures Window(Contents(f), offset, size) == []
  {
  }

  /** Rows copied over a zeroed buffer are the bytes they stand for. */
  lemma StoredBytes(rows: Rows, offset: nat, out: Blob)
    requires forall k :: 0 <= k < |out| ==>
                           var row := RowOf(rows, ChunkOf(offset, k));
                           out[k] == if OffsetIn(offset, k) < |row| then row[OffsetIn(offset, k)] else 0
    ensures forall k :: 0 <= k < |out| ==> out[k] == ByteAt(rows, offset + k)
  {
  }

  lemma OverlaidAll(n: Node, o: OpenFile, offset: nat, below: Blob, out: Blob)
    requires NodeOk(n) && SlotOk(n, o) && |out| == |below|
    requires forall k :: 0 <= k < |below| ==> below[k] == ByteAt(n.file.rows, offset + k)
    requires forall k :: 0 <= k < |out| ==> out[k] == OverlaidByte(o.dirty, offset, k, below[k])
    ensures forall k :: 0 <= k < |out| ==> out[k] == ByteAt(n.file.rows + o.dirty, offset + k)
  {
    hide NodeOk, SlotOk, ByteAt, OverlaidByte;
    forall k: nat | k < |out| ensures out[k] == ByteAt(n.file.rows + o.dirty, offset + k) {
      OverlaidIsLogical(n, o, offset, k, below[k], out[k]);
    }
  }

  /** Byte `k` of a buffer at `offset`, after the buffered chunks were copied over it. */
  function OverlaidByte(d: Rows, offset: nat, k: nat, below: byte): byte {
    var c, at := ChunkOf(offset, k), OffsetIn(offset, k);
    if c in d && at < |d[c]| then d[c][at] else below
  }

  /** The entries of an index in a range hold exactly the buffered chunks in that range. */
  lemma RangeCovers(d: Rows, entries: seq<DirtyEntry>, chunks: seq<Blob>, found: seq<DirtyEntry>, first: nat, last: nat)
    requires DirtyIs(d, entries, chunks)
    requires forall e :: e in found <==> e in entries && first <= e.0 <= last
    ensures forall k :: 0 <= k < |found| ==>
                          first <= found[k].0 <= last && found[k].0 in d && found[k].1 < |chunks|
                              && d[found[k].0] == chunks[found[k].1]
    ensures forall c :: c in d && first <= c <= last ==> exists k :: 0 <= k < |found| && found[k].0 == c
  {
    forall k | 0 <= k < |found|
      ensures first <= found[k].0 <= last && found[k].0 in d && found[k].1 < |chunks|
              && d[found[k].0] == chunks[found[k].1]
    {
      assert found[k] in found;
      var j :| 0 <= j < |entries| && entries[j] == found[k];
    }
    forall c | c in d && first <= c <= last ensures exists k :: 0 <= k < |found| && found[k].0 == c {
      var j :| 0 <= j < |entries| && entries[j].0 == c;
      assert entries[j] in found;
    }
  }

  /* ----- Making room ----- */

  /** What making room may do: nothing, or flush one inode and free its slot if that left it idle
      and it is not the one being written. */
  ghost predicate Evicts(fs: Fs, evicted: seq<Event>, writing: nat) {
    evicted == [] || (evicted[0].Flush? && EvictsOne(fs, evicted, evicted[0].ino, writing))
  }

  ghost predicate EvictsOne(fs: Fs, evicted: seq<Event>, v: nat, writing: nat) {
    && Enabled(fs, Flush(v))
    && evicted == if v != writing && IsIdle(Step(fs, Flush(v)), v) then [Flush(v), Free(v)] else [Flush(v)]
  }

  /** Making room is invisible: no file changes, the inode being written keeps its slot, and no
      other slot is left idle. */
  lemma EvictionIsInvisible(fs: Fs, evicted: seq<Event>, i: nat)
    requires Inv(fs) && Evicts(fs, evicted, i) && i in fs.open
    ensures var g := After(fs, evicted);
            && Inv(g) && OnlyChanges(fs, g, {}) && i in g.open
            && g.open[i] == fs.open[i].(dirty := g.open[i].dirty)
            && (g.open[i].dirty == fs.open[i].dirty || g.open[i].dirty == map[])
            && (OthersNeeded(fs, i) ==> OthersNeeded(g, i))
            && OnlyDates(fs, g, {})
    ensures forall j :: StoresTo(evicted, j) == []
  {
    hide Inv, Enabled, Step, OnlyChanges, Logical, OnlyDates;
    if evicted == [] {
      OnlyChangesRefl(fs, {});
      OnlyDatesRefl(fs);
    } else {
      var v := evicted[0].ino;
      AfterEviction(fs, v);
      var g := Step(fs, Flush(v));
      StepKeepsInv(fs, Flush(v));
      FlushOnlyMoves(fs, v);
      MovingDatesNothing(fs, Flush(v));
      forall j ensures StoresTo(evicted, j) == [] {
        NoStores(evicted, j);
      }
      if |evicted| == 2 {
        FreeIsEnabled(g, v);
        FreeOnlyForgets(g, v);
        MovingDatesNothing(g, Free(v));
        StepKeepsInv(g, Free(v));
        OnlyDatesTrans(fs, g, Step(g, Free(v)), {}, {});
        OnlyChangesTrans(fs, g, Step(g, Free(v)), {}, {});
        var none: set<nat> := {};
        assert none + none == none;
      }
    }
  }

  lemma OnlyDatesRefl(fs: Fs)
    ensures OnlyDates(fs, fs, {})
  {
  }

  lemma MovingDatesNothing(fs: Fs, e: Event)
    requires Inv(fs) && Enabled(fs, e) && (e.Flush? || e.Free? || e.Load?)
    ensures OnlyDates(fs, Step(fs, e), {})
  {
    hide OnlyDates;
    if e.Flush? {
      FlushOnlyMoves(fs, e.ino);
    } else if e.Free? {
      FreeOnlyForgets(fs, e.ino);
    } else {
      LoadOnlyRemembers(fs, e.ino);
    }
    hide Inv, Enabled, Step, Logical;
    StepDates(fs, e, {});
  }

  lemma FreeIsEnabled(fs: Fs, i: nat)
    ensures IsIdle(fs, i) <==> Enabled(fs, Free(i))
  {
  }

  lemma {:induction false} NoStores(log: seq<Event>, j: nat)
    requires forall e :: e in log ==> !e.Store?
    ensures StoresTo(log, j) == []
    decreases |log|
  {
    if log != [] {
      assert log[|log| - 1] in log;
      NoStores(log[..|log| - 1], j);
    }
  }

  lemma AfterEviction(fs: Fs, i: nat)
    ensures After(fs, [Flush(i)]) == Step(fs, Flush(i))
    ensures After(fs, [Flush(i), Free(i)]) == Step(Step(fs, Flush(i)), Free(i))
  {
    hide Step;
    assert [Flush(i)][..0] == [];
    assert [Flush(i), Free(i)][..1] == [Flush(i)];
  }

  lemma EvictionIs(fs: Fs, evicted: seq<Event>, v: nat, writing: nat)
    requires EvictsOne(fs, evicted, v, writing)
    ensures Evicts(fs, evicted, writing)
  {
  }

  lemma AfterNothing(fs: Fs)
    ensures After(fs, []) == fs
  {
  }

  lemma NoEviction(fs: Fs, i: nat)
    ensures Evicts(fs, [], i)
  {
  }

  lemma MissingFromIndex(d: Rows, es: seq<DirtyEntry>, chunks: seq<Blob>, c: nat)
    requires DirtyIs(d, es, chunks) && c !in d
    ensures forall k :: 0 <= k < |es| ==> es[k].0 != c
  {
  }

  function WithChunk(open: map<nat, OpenFile>, i: nat, c: nat, chunk: Blob): map<nat, OpenFile> {
    if i in open then open[i := open[i].(dirty := open[i].dirty[c := chunk])] else open
  }

  /** What an arena slot holds before a piece is written to it. */
  ghost predicate ChunkIs(fs: Fs, i: nat, c: nat, full: bool, chunk: Blob) {
    && i in fs.open && i in fs.nodes
    && if c in fs.open[i].dirty then chunk == fs.open[i].dirty[c]
       else chunk == if full then [] else RowOf(fs.nodes[i].file.rows, c)
  }

  lemma FoundChunk(fs: Fs, i: nat, es: seq<DirtyEntry>, chunks: seq<Blob>, k: nat, full: bool)
    requires i in fs.open && i in fs.nodes && DirtyIs(fs.open[i].dirty, es, chunks) && k < |es|
    ensures es[k].1 < |chunks|
    ensures ChunkIs(fs, i, es[k].0, full, chunks[es[k].1])
    ensures WithChunk(fs.open, i, es[k].0, chunks[es[k].1]) == fs.open
  {
    var d := fs.open[i].dirty;
    assert d[es[k].0 := d[es[k].0]] == d;
  }

  lemma NotFoundNotDirty(d: Rows, es: seq<DirtyEntry>, chunks: seq<Blob>, c: nat)
    requires DirtyIs(d, es, chunks) && forall k :: 0 <= k < |es| ==> es[k].0 != c
    ensures c !in d
  {
  }

  lemma StillNotDirty(fs: Fs, evicted: seq<Event>, i: nat, c: nat)
    requires Inv(fs) && Evicts(fs, evicted, i) && i in fs.open && c !in fs.open[i].dirty
    ensures i in After(fs, evicted).open && i in After(fs, evicted).nodes && c !in After(fs, evicted).open[i].dirty
  {
    EvictionIsInvisible(fs, evicted, i);
    hide Evicts, After, OnlyChanges, NodeOk, SlotOk;
  }

  lemma NewChunk(fs: Fs, i: nat, c: nat, full: bool, chunk: Blob)
    requires i in fs.open && i in fs.nodes && c !in fs.open[i].dirty
    requires chunk == if full then [] else RowOf(fs.nodes[i].file.rows, c)
    ensures ChunkIs(fs, i, c, full, chunk)
    ensures WithChunk(fs.open, i, c, chunk) == fs.open[i := fs.open[i].(dirty := fs.open[i].dirty[c := chunk])]
  {
  }

  predicate IsFull(start: nat, d: Blob) {
    start == 0 && |d| == CHUNK_SIZE
  }

  lemma WithChunkIs(open: map<nat, OpenFile>, i: nat, c: nat, chunk: Blob)
    requires i in open
    ensures WithChunk(open, i, c, chunk) == open[i := open[i].(dirty := open[i].dirty[c := chunk])]
    ensures i in WithChunk(open, i, c, chunk)
  {
  }

  /** Reading, patching and growing a slot amounts to the store event. */
  lemma StoreMatches(fs: Fs, i: nat, c: nat, start: nat, d: Blob, chunk: Blob)
    requires Inv(fs) && i in fs.open && fs.open[i].kind == RegularFile && !fs.closing && PieceFits(c, start, d)
    requires ChunkIs(fs, i, c, IsFull(start, d), chunk)
    ensures Enabled(fs, Store(i, c, start, d)) && Step(fs, Store(i, c, start, d)).nodes == fs.nodes
    ensures var open1 := WithChunk(fs.open, i, c, chunk);
            var open2 := WithChunk(open1, i, c, Splice(chunk, start, d));
            && i in open1 && c in open1[i].dirty && open1[i].dirty[c] == chunk
            && i in open2
            && open2[i := open2[i].(size := Max(open2[i].size, c * CHUNK_SIZE + start + |d|))] ==
               Step(fs, Store(i, c, start, d)).open
  {
    hide Inv, Step, Enabled, Splice, Seen, ChunkIs, PieceFits, WithChunk, Logical, WritePiece;
    SlotFacts(fs, i);
    SeenIsChunk(fs, i, c, start, d, chunk);
    StoreStep(fs, i, c, start, d);
    var x := Splice(chunk, start, d);
    var open1 := WithChunk(fs.open, i, c, chunk);
    WithChunkIs(fs.open, i, c, chunk);
    WithChunkIs(open1, i, c, x);
    var o := fs.open[i];
    assert o.dirty[c := chunk][c := x] == o.dirty[c := x];
  }

  lemma SeenIsChunk(fs: Fs, i: nat, c: nat, start: nat, d: Blob, chunk: Blob)
    requires Inv(fs) && i in fs.open && i in fs.nodes && fs.open[i].kind == RegularFile && PieceFits(c, start, d)
    requires ChunkIs(fs, i, c, IsFull(start, d), chunk)
    ensures Splice(chunk, start, d) == Splice(Seen(fs, i, c), start, d)
  {
    if IsFull(start, d) && c !in fs.open[i].dirty {
      assert |Seen(fs, i, c)| <= CHUNK_SIZE by {
        var f := File(fs.open[i].size, fs.nodes[i].file.rows + fs.open[i].dirty);
        assert WellFormed(f);
      }
      FullChunkReplaces(Seen(fs, i, c), d);
      FullChunkReplaces([], d);
    }
  }

  /** A piece that failed: room may have been made, but no file changed. */
  ghost predicate PieceRefused(before: Fs, after: Fs, i: nat) {
    && OnlyChanges(before, after, {}) && i in before.nodes && i in after.open && after.open[i].kind == RegularFile
    && Logical(after, i) == Logical(before, i)
    && (OthersNeeded(before, i) ==> OthersNeeded(after, i))
    && OnlyDates(before, after, {}) && i in before.open && after.open[i].mtime == before.open[i].mtime
  }

  /** A piece that was buffered: exactly this piece of exactly this file was written. */
  ghost predicate PieceBuffered(before: Fs, after: Fs, i: nat, c: nat, start: nat, d: Blob) {
    && OnlyChanges(before, after, {i}) && i in before.nodes && i in after.open && after.open[i].kind == RegularFile
    && Logical(after, i) == WritePiece(Logical(before, i), c, start, d)
    && (OthersNeeded(before, i) ==> OthersNeeded(after, i))
    && OnlyDates(before, after, {i}) && i in before.open && after.open[i].mtime == before.open[i].mtime
    && ReportedMtime(after, i) == before.open[i].mtime
  }

  lemma PieceCases(before: Fs, mid: Fs, evicted: seq<Event>, i: nat, c: nat, start: nat, d: Blob)
    requires Inv(before) && Evicts(before, evicted, i) && mid == After(before, evicted) && i in before.open
    requires before.open[i].kind == RegularFile && !before.closing && PieceFits(c, start, d)
    ensures Inv(mid) && i in mid.open && mid.open[i].kind == RegularFile && !mid.closing
    ensures PieceRefused(before, mid, i)
    ensures PieceBuffered(before, Step(mid, Store(i, c, start, d)), i, c, start, d)
    ensures forall j :: StoresTo(evicted, j) == []
    ensures forall j :: StoresTo(evicted + [Store(i, c, start, d)], j) == if j == i then [Store(i, c, start, d)] else []
  {
    hide Inv, Step, Enabled, WritePiece, PieceFits, Evicts, After, Logical, OthersNeeded, OnlyChanges, OnlyDates;
    EvictionIsInvisible(before, evicted, i);
    SlotFacts(before, i);
    SameFile(before, mid, i);
    StoreOnlyWrites(mid, i, c, start, d);
    StoreDates(mid, i, c, start, d);
    OnlyDatesTrans(before, mid, Step(mid, Store(i, c, start, d)), {}, {i});
    assert {} + {i} == {i};
    OnlyChangesWithNone(before, mid, Step(mid, Store(i, c, start, d)), {i});
    forall j ensures StoresTo(evicted + [Store(i, c, start, d)], j) == if j == i then [Store(i, c, start, d)] else [] {
      assert (evicted + [Store(i, c, start, d)])[..|evicted|] == evicted;
    }
  }

  lemma SameFile(fs: Fs, g: Fs, i: nat)
    requires OnlyChanges(fs, g, {}) && i in fs.nodes
    ensures i in g.nodes && Logical(g, i) == Logical(fs, i) && g.nodes[i].kind == fs.nodes[i].kind
            && g.closing == fs.closing
  {
    hide Logical;
  }

  /** Chunks `first..n` of a write have been buffered, and nothing else has changed. */
  ghost predicate Progress(before: Fs, now: Fs, events: seq<Event>, i: nat, span: ChunkSpan, data: Blob, n: nat)
    requires span.Valid() && |data| == span.end - span.start && span.first <= n <= span.last + 1
  {
    && OnlyChanges(before, now, {i}) && i in before.nodes && i in now.open && now.open[i].kind == RegularFile
    && Logical(now, i) == WriteChunks(Logical(before, i), span, data, n)
    && (OthersNeeded(before, i) ==> OthersNeeded(now, i))
    && forall j :: StoresTo(events, j) == if j == i then Pieces(i, span, data, n) else []
  }

  /** What a write does, case by case in the order the checks are made. */
  ghost predicate WriteOutcome(before: Fs, after: Fs, events: seq<Event>, i: nat, offset: nat, data: Blob,
      r: Reply<nat>)
    requires offset + |data| <= U64_MAX && i in before.open
  {
    var kind := before.open[i].kind;
    if kind != RegularFile then r == Fail(ErrnoOf(RegularFileError(kind).value)) && after == before && events == []
    else if before.closing then r == Fail(EIO) && after == before && events == []
    else if data == [] then r == Done(0) && after == before && events == []
    else if offset + |data| > MAX_FILE_SIZE then r == Fail(EFBIG) && after == before && events == []
    else
      var span := NewSpan(offset, |data|).value;
      if r.Done? then r.value == |data| && Progress(before, after, events, i, span, data, span.last + 1)
      else
        && IsStorageErrno(r.errno)
        && exists n :: span.first <= n <= span.last && Progress(before, after, events, i, span, data, n)
  }

  lemma ProgressStart(fs: Fs, i: nat, span: ChunkSpan, data: Blob, now: Time)
    requires Inv(fs) && i in fs.open && fs.open[i].kind == RegularFile && !fs.closing
    requires span.Valid() && |data| == span.end - span.start
    ensures Progress(fs, Step(fs, Touch(i, now)), [Touch(i, now)], i, span, data, span.first)
  {
    TouchOnlyMarks(fs, i, now);
    hide Inv, Step, Enabled, OnlyChanges, Logical, OthersNeeded;
    forall j ensures StoresTo([Touch(i, now)], j) == [] {
      NoStores([Touch(i, now)], j);
    }
    hide StoresTo;
  }

  /* ----- The time of a write ----- */

  lemma StoreDates(fs: Fs, i: nat, c: nat, start: nat, d: Blob)
    requires Inv(fs) && i in fs.open && fs.open[i].kind == RegularFile && !fs.closing && PieceFits(c, start, d)
    ensures var g := Step(fs, Store(i, c, start, d));
            && OnlyDates(fs, g, {i}) && i in fs.nodes && i in g.nodes && i in g.open
            && g.open[i].mtime == fs.open[i].mtime == ReportedMtime(g, i)
  {
    hide OnlyDates, Splice;
    SlotFacts(fs, i);
    StoreStep(fs, i, c, start, d);
    hide Inv, PieceFits, Enabled, Step;
    StepDates(fs, Store(i, c, start, d), {i});
  }

  /** The time reported of inode `i` is the time of the write once a piece of it has been buffered,
      or if earlier writes still were; a write that came to nothing before that dates nothing, and
      none dates another inode. */
  ghost predicate WriteDated(before: Fs, after: Fs, events: seq<Event>, i: nat, time: Time) {
    && OnlyDates(before, after, {i})
    && (i in before.nodes ==>
          ReportedMtime(after, i) ==
          if StoresTo(events, i) != [] || (Touch(i, time) in events && IsDirty(before, i)) then time
          else ReportedMtime(before, i))
  }

  predicate IsDirty(fs: Fs, i: nat) {
    i in fs.open && fs.open[i].dirty != map[]
  }

  lemma NothingWrittenDated(fs: Fs, i: nat, time: Time)
    ensures WriteDated(fs, fs, [], i, time)
  {
  }

  lemma DatesStart(fs: Fs, i: nat, time: Time)
    requires Inv(fs) && i in fs.open && fs.open[i].kind == RegularFile && !fs.closing
    ensures var g := Step(fs, Touch(i, time));
            && WriteDated(fs, g, [Touch(i, time)], i, time) && i in g.open && g.open[i].mtime == time
            && g.nodes.Keys == fs.nodes.Keys
  {
    hide OnlyDates, StoresTo;
    SlotFacts(fs, i);
    TouchStep(fs, i, time);
    hide Inv, Enabled, Step;
    StepDates(fs, Touch(i, time), {i});
    NoStores([Touch(i, time)], i);
  }

  lemma DatesMade(before: Fs, was: Fs, now: Fs, events: seq<Event>, more: seq<Event>, i: nat, c: nat, start: nat,
                  d: Blob, time: Time)
    requires WriteDated(before, was, events, i, time) && was.nodes.Keys == before.nodes.Keys
    requires PieceBuffered(was, now, i, c, start, d) && was.open[i].mtime == time
    requires StoresTo(more, i) == [Store(i, c, start, d)]
    ensures WriteDated(before, now, events + more, i, time) && i in now.open && now.open[i].mtime == time
  {
    hide OnlyChanges, Logical, WritePiece, OthersNeeded, OnlyDates, StoresTo;
    StoresToAppend(events, more, i);
    OnlyDatesTrans(before, was, now, {i}, {i});
    assert {i} + {i} == {i};
    assert StoresTo(events + more, i) != [];
  }

  lemma DatesKept(before: Fs, was: Fs, now: Fs, events: seq<Event>, more: seq<Event>, i: nat, time: Time)
    requires WriteDated(before, was, events, i, time)
    requires PieceRefused(was, now, i) && was.open[i].mtime == time && Touch(i, time) in events
    requires StoresTo(more, i) == []
    ensures WriteDated(before, now, events + more, i, time)
  {
    hide OnlyChanges, Logical, OthersNeeded, StoresTo, ReportedMtime, OnlyDates;
    StoresToAppend(events, more, i);
    OnlyDatesTrans(before, was, now, {i}, {});
    assert {i} + {} == {i};
    DatesHaveNodes(before, was, {i}, i);
    DatesOfOne(was, now, i);
    assert StoresTo(events + more, i) == StoresTo(events, i);
    assert Touch(i, time) in events + more;
  }

  lemma DatesThroughSlot(before: Fs, loaded: Fs, written: Fs, after: Fs, stores: seq<Event>, i: nat, time: Time)
    requires Inv(before) && Inv(written)
    requires loaded == if i in before.open then before else Step(before, Load(i))
    requires i !in before.open ==> Enabled(before, Load(i))
    requires WriteDated(loaded, written, stores, i, time)
    requires after == if IsIdle(written, i) then Step(written, Free(i)) else written
    ensures WriteDated(before, after, Around(before, written, i, stores), i, time)
  {
    hide Inv, Enabled, Step, IsIdle, OnlyDates, StoresTo, Around;
    OnlyDatesRefl(before);
    if i !in before.open {
      MovingDatesNothing(before, Load(i));
      LoadOnlyRemembers(before, i);
    }
    OnlyDatesRefl(written);
    if IsIdle(written, i) {
      FreeIsEnabled(written, i);
      MovingDatesNothing(written, Free(i));
    }
    OnlyDatesTrans(before, loaded, written, {}, {i});
    OnlyDatesTrans(before, written, after, {} + {i}, {});
    assert {} + {i} + {} == {i};
    StoresAround(before, written, i, stores, i);
    DatesOfOne(before, loaded, i);
    DatesOfOne(written, after, i);
    TouchAround(before, written, i, stores, time);
    DatesHaveNodes(loaded, written, {i}, i);
  }

  lemma DatesHaveNodes(fs: Fs, g: Fs, w: set<nat>, i: nat)
    requires OnlyDates(fs, g, w)
    ensures i in g.nodes <==> i in fs.nodes
  {
    assert i in g.nodes.Keys <==> i in fs.nodes.Keys;
  }

  lemma DatesOfOne(fs: Fs, g: Fs, i: nat)
    requires OnlyDates(fs, g, {})
    ensures i in g.nodes <==> i in fs.nodes
    ensures i in fs.nodes ==> ReportedMtime(g, i) == ReportedMtime(fs, i)
  {
    DatesHaveNodes(fs, g, {}, i);
  }

  lemma TouchAround(before: Fs, written: Fs, i: nat, stores: seq<Event>, time: Time)
    ensures Touch(i, time) in Around(before, written, i, stores) <==> Touch(i, time) in stores
  {
    hide IsIdle;
  }

  /** A write that succeeds is dated, and so is one that fails after its first piece. */
  lemma WritesAreDated(before: Fs, after: Fs, events: seq<Event>, i: nat, offset: nat, data: Blob, time: Time,
                       r: Reply<nat>)
    requires offset + |data| <= U64_MAX && Wrote(before, after, events, i, offset, data, r)
    requires WriteDated(before, after, events, i, time)
    ensures r.Done? && data != [] ==> i in after.nodes && ReportedMtime(after, i) == time
    ensures i in before.nodes && i in after.nodes && Logical(after, i) != Logical(before, i) ==>
              ReportedMtime(after, i) == time
  {
    hide OnlyChanges, Logical, WriteChunks, ReportedMtime, OnlyDates, StoresTo;
    if data != [] && (r.Done? || exists n: nat :: n < AllChunks(offset, data)
                                                  && WrotePieces(before, after, events, i, offset, data, n)) {
      var n: nat := AllChunks(offset, data);
      if r.Fail? {
        n :| n < AllChunks(offset, data) && WrotePieces(before, after, events, i, offset, data, n);
      }
      var span := NewSpan(offset, |data|).value;
      NothingYet(before, i, span, data);
      SameNodes(before, after, {i}, i);
      if n > span.first {
        SomePieces(i, span, data, n);
      }
    }
  }

  /** The same of a write through a handle. */
  lemma OutcomesAreDated(before: Fs, after: Fs, events: seq<Event>, i: nat, offset: nat, data: Blob, time: Time,
                         r: Reply<nat>)
    requires offset + |data| <= U64_MAX && i in before.open && i in before.nodes
    requires before.open[i].kind == before.nodes[i].kind && WriteOutcome(before, after, events, i, offset, data, r)
    requires WriteDated(before, after, events, i, time)
    ensures r.Done? && data != [] ==> i in after.nodes && ReportedMtime(after, i) == time
    ensures i in after.nodes && Logical(after, i) != Logical(before, i) ==> ReportedMtime(after, i) == time
  {
    hide OnlyChanges, Logical, WriteChunks, ReportedMtime, OnlyDates, StoresTo, WriteOutcome;
    if data == [] {
      NothingOfNothing(before, after, events, i, offset, data, r);
    } else {
      var n := OutcomeInPieces(before, after, events, i, offset, data, r);
      var span := NewSpan(offset, |data|).value;
      NothingYet(before, i, span, data);
      SameNodes(before, after, {i}, i);
      if n > span.first {
        SomePieces(i, span, data, n);
      }
    }
  }

  lemma SameInodes(was: Fs, now: Fs, i: nat, c: nat, start: nat, d: Blob)
    requires PieceBuffered(was, now, i, c, start, d)
    ensures now.nodes.Keys == was.nodes.Keys
  {
    hide Logical, WritePiece, OthersNeeded, ReportedMtime;
  }

  /** Making a slot for an inode does not decide whether it may be written. */
  lemma LoadedMayWrite(before: Fs, loaded: Fs, i: nat, offset: nat, data: Blob)
    requires Inv(before) && Inv(loaded) && i in loaded.open
    requires loaded == if i in before.open then before else Step(before, Load(i))
    requires i !in before.open ==> Enabled(before, Load(i))
    ensures MayWrite(before, i, offset, data) <==>
              loaded.open[i].kind == RegularFile && !loaded.closing && offset + |data| <= MAX_FILE_SIZE
  {
    hide Inv, Enabled, Step;
    SlotFacts(loaded, i);
    if i !in before.open {
      LoadOnlyRemembers(before, i);
    }
  }

  lemma SomePieces(i: nat, span: ChunkSpan, data: Blob, n: nat)
    requires span.Valid() && |data| == span.end - span.start && span.first < n <= span.last + 1
    ensures Pieces(i, span, data, n) != []
  {
  }

  /** What a write by inode number does, through a slot that may be made for it and freed again. */
  ghost predicate Wrote(before: Fs, after: Fs, events: seq<Event>, i: nat, offset: nat, data: Blob, r: Reply<nat>)
    requires offset + |data| <= U64_MAX
  {
    if data == [] then r == Done(0) && after == before && events == []
    else if r.Done? then r.value == |data|
        && WrotePieces(before, after, events, i, offset, data, AllChunks(offset, data))
    else
      && RefusesWrite(before, i, offset + |data|, r.errno)
      && ((after == before && events == [])
          || exists n: nat :: n < AllChunks(offset, data) && WrotePieces(before, after, events, i, offset, data, n))
  }

  /** Why a nonempty write up to `end` is refused at once, if it is. */
  function WriteRefusal(kind: FileKind, closing: bool, end: int): Option<Errno> {
    if kind != RegularFile then Some(ErrnoOf(RegularFileError(kind).value))
    else if closing then Some(EIO)
    else if end > MAX_FILE_SIZE then Some(EFBIG)
    else None
  }

  /** The answers a failing write by inode number may give: the refusal, or that the store failed. */
  predicate RefusesWrite(fs: Fs, i: nat, end: int, errno: Errno) {
    if i !in fs.nodes then errno == ENOENT || IsStorageErrno(errno)
    else
      match WriteRefusal(fs.nodes[i].kind, fs.closing, end)
      case Some(e) => errno == e || (i !in fs.open && IsStorageErrno(errno))
      case None => IsStorageErrno(errno)
  }

  /** One past the last chunk a write touches. */
  function AllChunks(offset: nat, data: Blob): nat
    requires offset + |data| <= U64_MAX
  {
    match NewSpan(offset, |data|)
    case None => 0
    case Some(span) => span.last + 1
  }

  /** The conditions on which a write is accepted. */
  predicate MayWrite(fs: Fs, i: nat, offset: nat, data: Blob) {
    i in fs.nodes && fs.nodes[i].kind == RegularFile && !fs.closing && offset + |data| <= MAX_FILE_SIZE
  }

  /** The pieces of a write before chunk `n` have been buffered; no other file has changed. */
  ghost predicate WrotePieces(before: Fs, after: Fs, events: seq<Event>, i: nat, offset: nat, data: Blob, n: nat)
    requires offset + |data| <= U64_MAX && data != []
  {
    var span := NewSpan(offset, |data|).value;
    && i in before.nodes && OnlyChanges(before, after, {i})
    && span.first <= n <= span.last + 1 && (n > span.first ==> MayWrite(before, i, offset, data))
    && Logical(after, i) == WriteChunks(Logical(before, i), span, data, n)
    && forall j :: StoresTo(events, j) == if j == i then Pieces(i, span, data, n) else []
  }

  lemma NothingWritten(fs: Fs, i: nat, offset: nat, data: Blob)
    requires offset + |data| <= U64_MAX
    ensures data == [] ==> Wrote(fs, fs, [], i, offset, data, Done(0))
    ensures forall e: Errno :: data != [] && RefusesWrite(fs, i, offset + |data|, e) ==>
              Wrote(fs, fs, [], i, offset, data, Fail(e))
  {
  }

  /** A write through a slot that came to be for it and went with it. */
  lemma WroteThroughSlot(before: Fs, loaded: Fs, written: Fs, after: Fs, stores: seq<Event>, i: nat, offset: nat,
      data: Blob, r: Reply<nat>)
    requires Inv(before) && Inv(loaded) && Inv(written) && data != [] && offset + |data| <= U64_MAX && i in loaded.open
    requires loaded == if i in before.open then before else Step(before, Load(i))
    requires i !in before.open ==> Enabled(before, Load(i))
    requires WriteOutcome(loaded, written, stores, i, offset, data, r)
    requires after == if IsIdle(written, i) then Step(written, Free(i)) else written
    ensures Wrote(before, after, Around(before, written, i, stores), i, offset, data, r)
    ensures NoIdleSlot(before) ==> NoIdleSlot(after)
  {
    hide Inv, Enabled, Step, WriteOutcome, WrotePieces, OnlyChanges, AllChunks, OthersNeeded, NoIdleSlot, Around,
         IsIdle, WriteRefusal;
    SlotFacts(loaded, i);
    OnlyChangesRefl(before, {});
    if i !in before.open {
      LoadOnlyRemembers(before, i);
    }
    OnlyChangesRefl(written, {});
    if IsIdle(written, i) {
      FreeIsEnabled(written, i);
      FreeOnlyForgets(written, i);
    }
    var n := OutcomeInPieces(loaded, written, stores, i, offset, data, r);
    SameNodes(before, loaded, {}, i);
    SlotFacts(loaded, i);
    PiecesHaveFile(loaded, written, stores, i, offset, data, n);
    SameFile(before, loaded, i);
    PiecesBetween(before, loaded, written, after, stores, i, offset, data, n);
    NeededThroughSlot(before, loaded, written, after, i);
  }

  lemma SameNodes(fs: Fs, g: Fs, w: set<nat>, i: nat)
    requires OnlyChanges(fs, g, w)
    ensures i in g.nodes <==> i in fs.nodes
  {
    hide Logical;
    assert i in g.nodes.Keys <==> i in fs.nodes.Keys;
  }

  lemma PiecesHaveFile(before: Fs, after: Fs, events: seq<Event>, i: nat, offset: nat, data: Blob, n: nat)
    requires data != [] && offset + |data| <= U64_MAX && WrotePieces(before, after, events, i, offset, data, n)
    ensures i in before.nodes && i in after.nodes
  {
    hide OnlyChanges, WriteChunks, Pieces, StoresTo, Logical;
    SameNodes(before, after, {i}, i);
  }

  lemma NeededThroughSlot(before: Fs, loaded: Fs, written: Fs, after: Fs, i: nat)
    requires OthersNeeded(before, i) ==> OthersNeeded(loaded, i)
    requires OthersNeeded(loaded, i) ==> OthersNeeded(written, i)
    requires if IsIdle(written, i) then after.open == written.open - {i} else after == written
    ensures NoIdleSlot(before) ==> NoIdleSlot(after)
  {
    if NoIdleSlot(before) {
      assert OthersNeeded(before, i);
    }
  }

  /** The events of a write, with the slot's coming and going. */
  function Around(before: Fs, written: Fs, i: nat, stores: seq<Event>): seq<Event> {
    (if i in before.open then [] else [Load(i)]) + stores + (if IsIdle(written, i) then [Free(i)] else [])
  }

  lemma AroundIs(before: Fs, written: Fs, i: nat, stores: seq<Event>)
    ensures Around(before, written, i, stores) ==
            ((if i in before.open then [] else [Load(i)]) + stores) + (if IsIdle(written, i) then [Free(i)] else [])
  {
    hide IsIdle;
  }

  lemma PiecesBetween(before: Fs, loaded: Fs, written: Fs, after: Fs, stores: seq<Event>, i: nat, offset: nat,
      data: Blob, n: nat)
    requires data != [] && offset + |data| <= U64_MAX
    requires OnlyChanges(before, loaded, {}) && OnlyChanges(written, after, {}) && i in before.nodes
             && i in written.nodes
    requires WrotePieces(loaded, written, stores, i, offset, data, n)
    ensures WrotePieces(before, after, Around(before, written, i, stores), i, offset, data, n)
  {
    hide WriteChunks, Pieces, StoresTo, Logical, IsIdle, OnlyChanges;
    SameFile(before, loaded, i);
    SameFile(written, after, i);
    OnlyChangesWithNone(before, loaded, written, {i});
    OnlyChangesWithNone(before, written, after, {i});
    forall j ensures StoresTo(Around(before, written, i, stores), j) == StoresTo(stores, j) {
      StoresAround(before, written, i, stores, j);
    }
  }

  lemma StoresAround(before: Fs, written: Fs, i: nat, stores: seq<Event>, j: nat)
    ensures StoresTo(Around(before, written, i, stores), j) == StoresTo(stores, j)
  {
    hide StoresTo, IsIdle;
    var opening := if i in before.open then [] else [Load(i)];
    var ending := if IsIdle(written, i) then [Free(i)] else [];
    StoresToAppend(opening + stores, ending, j);
    StoresToAppend(opening, stores, j);
    NoStores(opening, j);
    NoStores(ending, j);
  }

  /** A write's outcome counted in chunks: all of them, or a proper prefix if it failed. */
  lemma OutcomeInPieces(before: Fs, after: Fs, events: seq<Event>, i: nat, offset: nat, data: Blob, r: Reply<nat>)
      returns (n: nat)
    requires offset + |data| <= U64_MAX && data != [] && i in before.open && i in before.nodes
    requires before.open[i].kind == before.nodes[i].kind
    requires WriteOutcome(before, after, events, i, offset, data, r)
    ensures WrotePieces(before, after, events, i, offset, data, n)
    ensures r.Done? ==> n == AllChunks(offset, data) && r.value == |data|
    ensures r.Fail? ==> n < AllChunks(offset, data)
    ensures var refusal := WriteRefusal(before.nodes[i].kind, before.closing, offset + |data|);
            if refusal.Some? then r == Fail(refusal.value) else r.Fail? ==> IsStorageErrno(r.errno)
    ensures OthersNeeded(before, i) ==> OthersNeeded(after, i)
  {
    hide WriteChunks, OnlyChanges, Logical, OthersNeeded, Pieces;
    var span := NewSpan(offset, |data|).value;
    if after == before && events == [] && r.Fail? {
      n := span.first;
      OnlyChangesRefl(before, {i});
      NothingYet(before, i, span, data);
    } else if r.Done? {
      n := span.last + 1;
    } else {
      n :| span.first <= n <= span.last && Progress(before, after, events, i, span, data, n);
    }
  }

  /** A write that succeeds splices all its data into the byte array of its file. One that fails
      has spliced in a prefix that ends at a chunk boundary, or nothing. */
  lemma WriteAppliesAPrefix(before: Fs, after: Fs, events: seq<Event>, i: nat, offset: nat, data: Blob, r: Reply<nat>)
      returns (k: nat)
    requires Inv(before) && offset + |data| <= U64_MAX && Wrote(before, after, events, i, offset, data, r)
    requires i in before.nodes && before.nodes[i].kind == RegularFile
    ensures k <= |data| && i in after.nodes
    ensures Contents(Logical(after, i)) == Splice(Contents(Logical(before, i)), offset, data[..k])
    ensures r.Done? ==> k == |data|
    ensures r.Fail? && k > 0 ==> k < |data| && (offset + k) % CHUNK_SIZE == 0
    ensures data != [] && !MayWrite(before, i, offset, data) ==> r.Fail? && k == 0
  {
    hide Inv, Contents, Splice, WriteChunks, OnlyChanges, Logical;
    k := 0;
    if data != [] && (r.Done? || exists n: nat :: n < AllChunks(offset, data)
                                                  && WrotePieces(before, after, events, i, offset, data, n)) {
      var n: nat := AllChunks(offset, data);
      if r.Fail? {
        n :| n < AllChunks(offset, data) && WrotePieces(before, after, events, i, offset, data, n);
      }
      k := PrefixTaken(before, after, events, i, offset, data, n);
    }
  }

  /** The same of a write through a handle. */
  lemma OutcomeAppliesAPrefix(before: Fs, after: Fs, events: seq<Event>, i: nat, offset: nat, data: Blob, r: Reply<nat>)
      returns (k: nat)
    requires Inv(before) && offset + |data| <= U64_MAX && i in before.open && i in before.nodes
    requires before.nodes[i].kind == RegularFile && WriteOutcome(before, after, events, i, offset, data, r)
    ensures k <= |data| && i in after.nodes
    ensures Contents(Logical(after, i)) == Splice(Contents(Logical(before, i)), offset, data[..k])
    ensures r.Done? ==> k == |data|
    ensures r.Fail? && k > 0 ==> k < |data| && (offset + k) % CHUNK_SIZE == 0
    ensures data != [] && !MayWrite(before, i, offset, data) ==> r.Fail? && k == 0
  {
    hide Inv, Contents, Splice, WriteOutcome, WrotePieces, Logical, AllChunks;
    SlotFacts(before, i);
    k := 0;
    if data == [] {
      NothingOfNothing(before, after, events, i, offset, data, r);
    } else {
      var n := OutcomeInPieces(before, after, events, i, offset, data, r);
      k := PrefixTaken(before, after, events, i, offset, data, n);
    }
  }

  lemma PrefixTaken(before: Fs, after: Fs, events: seq<Event>, i: nat, offset: nat, data: Blob, n: nat) returns (k: nat)
    requires Inv(before) && offset + |data| <= U64_MAX && data != []
             && WrotePieces(before, after, events, i, offset, data, n)
    requires i in before.nodes && before.nodes[i].kind == RegularFile
    ensures k <= |data| && i in after.nodes
    ensures Contents(Logical(after, i)) == Splice(Contents(Logical(before, i)), offset, data[..k])
    ensures n == AllChunks(offset, data) ==> k == |data| && MayWrite(before, i, offset, data)
    ensures n < AllChunks(offset, data) && k > 0 ==> k < |data| && (offset + k) % CHUNK_SIZE == 0
    ensures k > 0 ==> MayWrite(before, i, offset, data)
  {
    LogicalIsWellFormed(before, i);
    hide Inv, Contents, Splice, Logical, WellFormed;
    var span := NewSpan(offset, |data|).value;
    NothingYet(before, i, span, data);
    k := Taken(span, n);
    if n > span.first {
      WriteChunksContents(Logical(before, i), span, data, n);
      if n <= span.last {
        PiecesTile(span, n);
      }
    }
    hide WriteChunks;
  }

  lemma NothingYet(fs: Fs, i: nat, span: ChunkSpan, data: Blob)
    requires span.Valid() && |data| == span.end - span.start && i in fs.nodes
    ensures WriteChunks(Logical(fs, i), span, data, span.first) == Logical(fs, i)
            && Pieces(i, span, data, span.first) == []
  {
  }

  lemma PieceIsFit(before: Fs, now: Fs, events: seq<Event>, i: nat, span: ChunkSpan, data: Blob, c: nat)
    requires span.Valid() && |data| == span.end - span.start && span.end <= MAX_FILE_SIZE
             && span.first <= c <= span.last
    requires Progress(before, now, events, i, span, data, c) && !before.closing
    ensures PieceFits(c, span.Piece(c).chunkStart, PieceData(span, data, c)) && c < MAX_CHUNKS
    ensures span.Piece(c).bufStart <= span.Piece(c).bufEnd <= |data|
    ensures i in now.open && now.open[i].kind == RegularFile && !now.closing
  {
    PiecesTile(span, c);
    hide Logical, WriteChunks, StoresTo, OthersNeeded;
  }

  lemma ProgressMade(before: Fs, was: Fs, now: Fs, events: seq<Event>, more: seq<Event>, i: nat, span: ChunkSpan,
      data: Blob, c: nat)
    requires span.Valid() && |data| == span.end - span.start && span.first <= c <= span.last
    requires Progress(before, was, events, i, span, data, c)
    requires PieceBuffered(was, now, i, c, span.Piece(c).chunkStart, PieceData(span, data, c))
    requires forall j :: StoresTo(more, j) == if j == i
             then [Store(i, c, span.Piece(c).chunkStart, PieceData(span, data, c))] else []
    ensures Progress(before, now, events + more, i, span, data, c + 1)
  {
    hide Logical, WritePiece, StoresTo, OthersNeeded;
    forall j ensures StoresTo(events + more, j) == StoresTo(events, j) + StoresTo(more, j) {
      StoresToAppend(events, more, j);
    }
    OnlyChangesTrans(before, was, now, {i}, {i});
    assert {i} + {i} == {i};
    hide OnlyChanges, PieceData;
  }

  lemma ProgressKept(before: Fs, was: Fs, now: Fs, events: seq<Event>, more: seq<Event>, i: nat, span: ChunkSpan,
      data: Blob, c: nat)
    requires span.Valid() && |data| == span.end - span.start && span.first <= c <= span.last
    requires Progress(before, was, events, i, span, data, c) && PieceRefused(was, now, i)
    requires forall j :: StoresTo(more, j) == []
    ensures Progress(before, now, events + more, i, span, data, c)
  {
    hide Logical, WriteChunks, StoresTo, OthersNeeded;
    forall j ensures StoresTo(events + more, j) == StoresTo(events, j) {
      StoresToAppend(events, more, j);
    }
    OnlyChangesTrans(before, was, now, {i}, {});
    assert {i} + {} == {i};
    hide OnlyChanges, Pieces;
  }

  lemma InLimbo(free: set<ArenaSlot>, a: ArenaSlot, list: seq<ArenaSlot>)
    requires a !in free && free == set k | 0 <= k < |list| :: list[k]
    ensures a !in list
  {
    forall k | 0 <= k < |list| ensures list[k] != a {
      assert list[k] in free;
    }
  }

  lemma NodeHead(t: Tables.Tables, i: nat)
    ensures i in Tables.NodesOf(t) ==>
              i in t.inodes && t.inodes[i].kind != Directory && Tables.NodesOf(t)[i].kind == t.inodes[i].kind
              && Tables.NodesOf(t)[i].file.size == t.inodes[i].size && Tables.NodesOf(t)[i].nlink == t.inodes[i].nlink
              && Tables.NodesOf(t)[i].mtime == t.inodes[i].mtime
              && Tables.NodesOf(t)[i].file.rows == Tables.RowsOf(t.chunks, i)
    ensures i in t.inodes && t.inodes[i].kind != Directory ==> i in Tables.NodesOf(t)
  {
    hide Tables.RowsOf;
  }

  /** There is nothing to flush, or nothing that should be. */
  predicate Nothing(entries: seq<DirtyEntry>, isUnlinked: bool, unlinked: Unlinked) {
    entries == [] || (isUnlinked && unlinked == Skip)
  }

  /** What a flush hands the store is the merged file. */
  lemma FlushStores(t: Tables.Tables, fs: Fs, i: nat, chunks: seq<(nat, Blob)>, entries: seq<DirtyEntry>,
      mem: seq<Blob>)
    requires Inv(fs) && fs.nodes == Tables.NodesOf(t) && i in fs.open && fs.open[i].dirty != map[]
    requires DirtyIs(fs.open[i].dirty, entries, mem) && SortedByChunk(entries)
    requires |chunks| == |entries|
    requires forall k :: 0 <= k < |chunks| ==> entries[k].1 < |mem| && chunks[k] == (entries[k].0, mem[entries[k].1])
    ensures i in t.inodes && t.inodes[i].kind == RegularFile && t.inodes[i].nlink == fs.nodes[i].nlink
    ensures forall k :: 0 <= k < |chunks| ==> chunks[k].0 < MAX_CHUNKS && |chunks[k].1| <= CHUNK_SIZE
    ensures Enabled(fs, Flush(i))
    ensures Step(fs, Flush(i)).open == fs.open[i := fs.open[i].(dirty := map[])]
    ensures Step(fs, Flush(i)).nodes ==
            fs.nodes[i := Node(RegularFile, fs.nodes[i].nlink, fs.open[i].mtime,
                               File(fs.open[i].size, Tables.UpsertAll(Tables.RowsOf(t.chunks, i), chunks)))]
  {
    hide WellFormed, Splice, TruncateRows, SlotOk, NodeOk, DirtyIs, Tables.RowsOf, Tables.UpsertAll;
    FlushFits(fs, i, chunks, entries, mem);
    assert i in Tables.NodesOf(t) && Tables.NodesOf(t)[i] == Tables.NodeOf(t, i);
    UpsertIsMerge(fs.nodes[i].file.rows, chunks, entries, mem, fs.open[i].dirty);
    hide Tables.NodesOf, Inv;
  }

  lemma FlushFits(fs: Fs, i: nat, chunks: seq<(nat, Blob)>, entries: seq<DirtyEntry>, mem: seq<Blob>)
    requires Inv(fs) && i in fs.open && fs.open[i].dirty != map[]
    requires DirtyIs(fs.open[i].dirty, entries, mem) && |chunks| == |entries|
    requires forall k :: 0 <= k < |chunks| ==> entries[k].1 < |mem| && chunks[k] == (entries[k].0, mem[entries[k].1])
    ensures fs.nodes[i].kind == RegularFile
    ensures forall k :: 0 <= k < |chunks| ==> chunks[k].0 < MAX_CHUNKS && |chunks[k].1| <= CHUNK_SIZE
  {
    hide WellFormed;
    var d, n := fs.open[i].dirty, fs.nodes[i];
    forall k | 0 <= k < |chunks| ensures chunks[k].0 < MAX_CHUNKS && |chunks[k].1| <= CHUNK_SIZE {
      assert entries[k].0 in d && d[entries[k].0] == chunks[k].1;
      DirtyChunkFits(n, fs.open[i], entries[k].0);
    }
  }

  lemma DirtyChunkFits(n: Node, o: OpenFile, c: nat)
    requires NodeOk(n) && SlotOk(n, o) && c in o.dirty
    ensures c < MAX_CHUNKS && 1 <= |o.dirty[c]| <= CHUNK_SIZE
  {
    var f := File(o.size, n.file.rows + o.dirty);
    assert c in f.rows;
  }

  lemma UpsertIsMerge(rows: Rows, chunks: seq<(nat, Blob)>, entries: seq<DirtyEntry>, mem: seq<Blob>, d: Rows)
    requires DirtyIs(d, entries, mem) && |chunks| == |entries|
    requires forall k :: 0 <= k < |chunks| ==> entries[k].1 < |mem| && chunks[k] == (entries[k].0, mem[entries[k].1])
    ensures Tables.UpsertAll(rows, chunks) == rows + d
  {
    forall c | c in d ensures Tables.InList(chunks, c) {
      var k :| 0 <= k < |entries| && entries[k].0 == c;
      assert chunks[k].0 == c;
    }
    Tables.UpsertListed(rows, chunks, d);
  }

  lemma StepKeepsClosing(fs: Fs, e: Event)
    requires !e.StopWrites?
    ensures Step(fs, e).closing == fs.closing
  {
    hide Inv, Enabled;
  }

  /* ----- Flushing one inode ----- */

  /** What flushing an inode and freeing its slot if that leaves it idle amounts to. */
  function Settling(fs: Fs, i: nat, unlinked: Unlinked): seq<Event> {
    if i !in fs.open then []
    else
      var o := fs.open[i];
      var flushed := o.dirty != map[] && !(o.unlinked && unlinked == Skip);
      (if flushed then [Flush(i)] else []) + (if o.refs == 0 && (flushed || o.dirty == map[]) then [Free(i)] else [])
  }

  /** Flushing and freeing the slot of one inode: no file changes, and no other inode or slot. */
  ghost predicate Settled(fs: Fs, g: Fs, i: nat) {
    && Inv(g) && OnlyChanges(fs, g, {})
    && (forall j :: j in g.open && j != i ==> j in fs.open)
    && (forall j :: j in fs.open && j != i ==> j in g.open && g.open[j] == fs.open[j])
    && (forall j :: j in fs.nodes && j != i ==> j in g.nodes && g.nodes[j] == fs.nodes[j])
    && (i in g.open ==> i in fs.open && g.open[i] == fs.open[i].(dirty := g.open[i].dirty))
  }

  lemma FlushSettles(fs: Fs, i: nat)
    requires Inv(fs) && i in fs.open && fs.open[i].dirty != map[]
    ensures Enabled(fs, Flush(i)) && Settled(fs, Step(fs, Flush(i)), i)
    ensures i in Step(fs, Flush(i)).open && Step(fs, Flush(i)).open[i] == fs.open[i].(dirty := map[])
  {
    FlushIsEnabled(fs, i);
    FlushOnlyMoves(fs, i);
    StepKeepsInv(fs, Flush(i));
    hide Inv, Enabled, Step, OnlyChanges, Logical;
  }

  lemma FreeSettles(fs: Fs, i: nat)
    requires Inv(fs) && IsIdle(fs, i)
    ensures Enabled(fs, Free(i)) && Settled(fs, Step(fs, Free(i)), i) && i !in Step(fs, Free(i)).open
  {
    FreeIsEnabled(fs, i);
    FreeOnlyForgets(fs, i);
    StepKeepsInv(fs, Free(i));
    hide Inv, Enabled, Step, OnlyChanges;
  }

  lemma SettledRefl(fs: Fs, i: nat)
    requires Inv(fs)
    ensures Settled(fs, fs, i)
  {
    OnlyChangesRefl(fs, {});
    hide Inv, OnlyChanges;
  }

  lemma SettledTrans(fs: Fs, g: Fs, h: Fs, i: nat)
    requires Settled(fs, g, i) && Settled(g, h, i)
    ensures Settled(fs, h, i)
  {
    OnlyChangesTrans(fs, g, h, {}, {});
    var none: set<nat> := {};
    assert none + none == none;
    assert g.nodes.Keys == fs.nodes.Keys;
    hide Inv, OnlyChanges;
  }

  /** Flushing an inode and freeing its idle slot changes no file, leaves the inode clean, and
      leaves no slot idle if no other one was. */
  lemma SettlingOnlyMoves(fs: Fs, i: nat, unlinked: Unlinked)
    requires Inv(fs)
    ensures var g := After(fs, Settling(fs, i, unlinked));
            && Settled(fs, g, i) && !IsIdle(g, i)
            && (i in g.open && (unlinked == Persist || !fs.open[i].unlinked) ==> g.open[i].dirty == map[])
  {
    hide Inv, Enabled, Step, Settled, After;
    SettledRefl(fs, i);
    AfterNothing(fs);
    if i in fs.open {
      var o := fs.open[i];
      var flushed := o.dirty != map[] && !(o.unlinked && unlinked == Skip);
      if flushed {
        AfterEviction(fs, i);
        FlushSettles(fs, i);
      }
      var g := if flushed then Step(fs, Flush(i)) else fs;
      if IsIdle(g, i) {
        AfterOne(g, Free(i));
        assert Inv(g) by {
          StepKeepsInvIf(fs, Flush(i));
        }
        FreeSettles(g, i);
        SettledTrans(fs, g, Step(g, Free(i)), i);
        assert Settling(fs, i, unlinked) == if flushed then [Flush(i), Free(i)] else [Free(i)];
      } else {
        SettledHas(fs, g, i);
        assert Settling(fs, i, unlinked) == if flushed then [Flush(i)] else [];
      }
    }
  }

  /** The two halves of settling. */
  lemma SettlingIs(fs: Fs, g: Fs, i: nat, unlinked: Unlinked)
    requires Inv(fs) && i in fs.open
    requires g == if fs.open[i].dirty == map[] || (fs.open[i].unlinked && unlinked == Skip) then fs
             else Step(fs, Flush(i))
    ensures Settling(fs, i, unlinked) ==
            (if fs.open[i].dirty == map[] || (fs.open[i].unlinked && unlinked == Skip) then [] else [Flush(i)])
            + if IsIdle(g, i) then [Free(i)] else []
    ensures After(fs, Settling(fs, i, unlinked)) == if IsIdle(g, i) then Step(g, Free(i)) else g
  {
    hide Inv, Enabled, Step, Settled, After;
    AfterNothing(fs);
    AfterOne(g, Free(i));
    AfterEviction(fs, i);
    if fs.open[i].dirty != map[] {
      FlushSettles(fs, i);
    }
    assert [Flush(i)] + [Free(i)] == [Flush(i), Free(i)] && [Flush(i)] + [] == [Flush(i)];
    assert [] + [Free(i)] == [Free(i)];
  }

  lemma StepKeepsInvIf(fs: Fs, e: Event)
    requires Inv(fs)
    ensures Inv(Step(fs, e))
  {
    if Enabled(fs, e) {
      StepKeepsInv(fs, e);
    }
    hide Inv, Enabled;
  }

  lemma SettledHas(fs: Fs, g: Fs, i: nat)
    requires Settled(fs, g, i)
    ensures i in g.open ==> i in fs.open
  {
  }

  /** Settling one inode settles the whole table if no other slot was idle. */
  lemma SettledNeeded(fs: Fs, g: Fs, i: nat)
    requires Settled(fs, g, i) && !IsIdle(g, i) && OthersNeeded(fs, i)
    ensures NoIdleSlot(g)
  {
    hide Inv, OnlyChanges;
    forall j | j in g.open ensures !IsIdle(g, j) {
      if j != i {
        assert !IsIdle(fs, j);
      }
    }
  }

  lemma FlushIsEnabled(fs: Fs, i: nat)
    ensures i in fs.open && fs.open[i].dirty != map[] <==> Enabled(fs, Flush(i))
  {
  }

  lemma AfterOne(fs: Fs, e: Event)
    ensures After(fs, [e]) == Step(fs, e)
  {
    hide Step;
    assert [e][..0] == [];
  }

  /* ----- Truncating ----- */

  function FlushPart(fs: Fs, i: nat): seq<Event> {
    if i in fs.open && fs.open[i].dirty != map[] then [Flush(i)] else []
  }

  /** What truncating an inode amounts to: buffered writes are stored, the stored file is cut or
      extended, and a slot without handles is freed. */
  function Truncating(fs: Fs, i: nat, size: nat, now: Time): seq<Event> {
    FlushPart(fs, i) + [Truncate(i, size, now)] + (if i in fs.open && fs.open[i].refs == 0 then [Free(i)] else [])
  }

  lemma FlushPartMoves(fs: Fs, i: nat)
    requires Inv(fs)
    ensures var g := After(fs, FlushPart(fs, i));
            && g == (if FlushPart(fs, i) == [] then fs else Step(fs, Flush(i)))
            && Settled(fs, g, i) && (i in fs.open ==> i in g.open && g.open[i] == fs.open[i].(dirty := map[]))
  {
    hide Inv, Enabled, Step, Settled, After;
    AfterNothing(fs);
    SettledRefl(fs, i);
    if FlushPart(fs, i) != [] {
      FlushSettles(fs, i);
      AfterEviction(fs, i);
    }
  }

  lemma FlushPartIs(fs: Fs, i: nat)
    ensures FlushPart(fs, i) == [] || (FlushPart(fs, i) == [Flush(i)] && Enabled(fs, Flush(i)))
  {
  }

  /** Truncation cuts or extends exactly the one file, and leaves no slot idle. */
  lemma TruncatingIs(fs: Fs, i: nat, size: nat, now: Time)
    requires Inv(fs) && i in fs.nodes && fs.nodes[i].kind == RegularFile && size <= MAX_FILE_SIZE
    ensures var g := After(fs, FlushPart(fs, i));
            var cut := Step(g, Truncate(i, size, now));
            && Enabled(g, Truncate(i, size, now))
            && Truncating(fs, i, size, now) ==
               FlushPart(fs, i) + [Truncate(i, size, now)] + (if IsIdle(cut, i) then [Free(i)] else [])
            && After(fs, Truncating(fs, i, size, now)) == if IsIdle(cut, i) then Step(cut, Free(i)) else cut
  {
    FlushPartMoves(fs, i);
    var g := After(fs, FlushPart(fs, i));
    TruncateSettles(g, i, size, now);
    hide Inv, Enabled, Step, Settled, After;
    var cut := Step(g, Truncate(i, size, now));
    AfterOne(g, Truncate(i, size, now));
    AfterOne(cut, Free(i));
    AfterNothing(cut);
    var ending := if IsIdle(cut, i) then [Free(i)] else [];
    AfterAppend(fs, FlushPart(fs, i), [Truncate(i, size, now)]);
    AfterAppend(fs, FlushPart(fs, i) + [Truncate(i, size, now)], ending);
  }

  lemma TruncateSettles(g: Fs, i: nat, size: nat, now: Time)
    requires Inv(g) && i in g.nodes && g.nodes[i].kind == RegularFile && size <= MAX_FILE_SIZE
    requires i in g.open ==> g.open[i].dirty == map[]
    ensures var cut := Step(g, Truncate(i, size, now));
            && Enabled(g, Truncate(i, size, now)) && Inv(cut) && OnlyChanges(g, cut, {i})
            && Logical(cut, i) == TruncateFile(Logical(g, i), size)
            && (IsIdle(cut, i) <==> i in g.open && g.open[i].refs == 0)
            && (OthersNeeded(g, i) ==> OthersNeeded(cut, i))
            && (i in cut.open ==> cut.open[i].dirty == map[])
  {
    TruncateStep(g, i, size, now);
    StepKeepsInv(g, Truncate(i, size, now));
    if i in g.open {
      CleanSize(g, i);
    }
    hide Inv, Enabled, Step, OthersNeeded, OnlyChanges;
    var cut := Step(g, Truncate(i, size, now));
    CleanIsStored(g, i);
    CleanIsStored(cut, i);
    ChangeOfOne(g, cut, i);
  }

  lemma CleanSize(fs: Fs, i: nat)
    requires Inv(fs) && i in fs.open && fs.open[i].dirty == map[]
    ensures i in fs.nodes && fs.open[i].size == fs.nodes[i].file.size
  {
  }

  /** Truncation cuts or extends exactly the one file, and leaves no slot idle. */
  lemma AfterTruncating(fs: Fs, i: nat, size: nat, now: Time)
    requires Inv(fs) && i in fs.nodes && fs.nodes[i].kind == RegularFile && size <= MAX_FILE_SIZE
    ensures var g := After(fs, Truncating(fs, i, size, now));
            && Inv(g) && OnlyChanges(fs, g, {i}) && Logical(g, i) == TruncateFile(Logical(fs, i), size)
            && !IsIdle(g, i) && (OthersNeeded(fs, i) ==> NoIdleSlot(g))
            && (i in g.open ==> g.open[i].dirty == map[])
  {
    hide Inv, Enabled, Step, Settled, After, TruncateFile, FlushPart, OthersNeeded, Truncating, Logical, OnlyChanges,
         NoIdleSlot, IsIdle;
    TruncatingIs(fs, i, size, now);
    FlushPartMoves(fs, i);
    var g := After(fs, FlushPart(fs, i));
    SettledKeeps(fs, g, i);
    FlushPartCleans(fs, i);
    TruncateSettles(g, i, size, now);
    var cut := Step(g, Truncate(i, size, now));
    OnlyChangesWithNone(fs, g, cut, {i});
    SameNodes(g, cut, {i}, i);
    if IsIdle(cut, i) {
      FreeSettles(cut, i);
      SettledKeeps(cut, Step(cut, Free(i)), i);
      OnlyChangesWithNone(fs, cut, Step(cut, Free(i)), {i});
      NotOpenNotIdle(Step(cut, Free(i)), i);
      NeededAll(Step(cut, Free(i)), i);
    } else {
      NeededAll(cut, i);
    }
  }

  lemma NotOpenNotIdle(fs: Fs, i: nat)
    ensures i !in fs.open ==> !IsIdle(fs, i)
  {
  }

  lemma FlushPartCleans(fs: Fs, i: nat)
    requires Inv(fs) && i in fs.nodes
    ensures var g := After(fs, FlushPart(fs, i)); i in g.nodes && (i in g.open ==> g.open[i].dirty == map[])
  {
    hide Inv, OnlyChanges, After;
    FlushPartMoves(fs, i);
    SettledKeeps(fs, After(fs, FlushPart(fs, i)), i);
  }

  /** After any history, shrinking yields the exact prefix and growing the old bytes followed only by
      zeros. */
  lemma TruncatingResizes(fs: Fs, i: nat, size: nat, now: Time)
    requires Inv(fs) && i in fs.nodes && fs.nodes[i].kind == RegularFile && size <= MAX_FILE_SIZE
    ensures var was := Contents(Logical(fs, i));
            var g := After(fs, Truncating(fs, i, size, now));
            && i in g.nodes && |was| == ReportedSize(fs, i)
            && Contents(Logical(g, i)) == if size <= |was| then was[..size] else was + Zeros(size - |was|)
  {
    AfterTruncating(fs, i, size, now);
    LogicalIsWellFormed(fs, i);
    TruncateContents(Logical(fs, i), size);
    ResizeIsPrefixOrZeros(Contents(Logical(fs, i)), size);
    hide Inv, Resize, TruncateFile, After, Truncating, WellFormed;
  }

  lemma NeededAll(fs: Fs, i: nat)
    ensures !IsIdle(fs, i) && OthersNeeded(fs, i) ==> NoIdleSlot(fs)
  {
  }

  lemma SettledKeeps(fs: Fs, g: Fs, i: nat)
    requires Settled(fs, g, i)
    ensures Inv(g) && OnlyChanges(fs, g, {}) && (OthersNeeded(fs, i) ==> OthersNeeded(g, i))
    ensures i in fs.nodes ==> i in g.nodes && Logical(g, i) == Logical(fs, i) && g.nodes[i].kind == fs.nodes[i].kind
  {
    hide Inv, Logical;
  }

  /** The events of setting attributes: the slot is settled, the file cut or extended if a size is
      given, and the time stored if one is given. */
  ghost function SettingAttrs(fs: Fs, i: nat, size: Option<nat>, mtime: Option<Time>, now: Time): seq<Event> {
    Settling(fs, i, Persist) + CuttingTo(After(fs, Settling(fs, i, Persist)), i, size, now) + Dating(fs, i, mtime)
  }

  function CuttingTo(fs: Fs, i: nat, size: Option<nat>, now: Time): seq<Event> {
    if size.Some? then Truncating(fs, i, size.value, now) else []
  }

  function Dating(fs: Fs, i: nat, mtime: Option<Time>): seq<Event> {
    if mtime.Some? && i in fs.nodes then [SetTime(i, mtime.value)] else []
  }

  lemma SettingInParts(fs: Fs, i: nat, size: Option<nat>, mtime: Option<Time>, now: Time)
    ensures var whole, settling := SettingAttrs(fs, i, size, mtime, now), Settling(fs, i, Persist);
            && [] <= whole && settling <= whole && settling + [] <= whole
            && settling + CuttingTo(After(fs, settling), i, size, now) <= whole
  {
    hide Settling, CuttingTo, Dating, After;
  }

  lemma SettingIsParts(fs: Fs, cut: Fs, i: nat, size: Option<nat>, mtime: Option<Time>, now: Time)
    requires i in cut.nodes <==> i in fs.nodes
    ensures var before := Settling(fs, i, Persist) + CuttingTo(After(fs, Settling(fs, i, Persist)), i, size, now);
            && before + Dating(cut, i, mtime) == SettingAttrs(fs, i, size, mtime, now)
            && forall dated :: dated <= Dating(cut, i, mtime) ==>
                  before + dated <= SettingAttrs(fs, i, size, mtime, now)
  {
    hide Settling, CuttingTo, After;
  }

  lemma SameNodesSet(fs: Fs, g: Fs, i: nat, size: Option<nat>)
    requires AttrsSet(fs, g, i, size)
    ensures i in g.nodes <==> i in fs.nodes
  {
    hide OnlyChanges;
    SameNodes(fs, g, if size.Some? then {i} else {}, i);
  }

  /** What setting attributes does to the files: nothing, but for the size if one is given. */
  ghost predicate AttrsSet(before: Fs, after: Fs, i: nat, size: Option<nat>) {
    match size
    case None => OnlyChanges(before, after, {})
    case Some(n) =>
      && OnlyChanges(before, after, {i})
      && i in before.nodes
      && Logical(after, i) == TruncateFile(Logical(before, i), n)
  }

  lemma AttrsSetTrans(a: Fs, b: Fs, c: Fs, i: nat, size: Option<nat>)
    requires OnlyChanges(a, b, {}) && AttrsSet(b, c, i, size)
    ensures AttrsSet(a, c, i, size)
  {
    hide Logical, TruncateFile;
    assert {} + {i} == {i};
    OnlyChangesTrans(a, b, c, {}, if size.Some? then {i} else {});
    var none: set<nat> := {};
    assert none + none == none;
    if size.Some? {
      assert Logical(b, i) == Logical(a, i);
    }
  }

  lemma AttrsSetThen(a: Fs, b: Fs, c: Fs, i: nat, size: Option<nat>)
    requires AttrsSet(a, b, i, size) && OnlyChanges(b, c, {})
    ensures AttrsSet(a, c, i, size)
  {
    hide Logical, TruncateFile;
    assert {i} + {} == {i};
    OnlyChangesTrans(a, b, c, if size.Some? then {i} else {}, {});
    var none: set<nat> := {};
    assert none + none == none;
    if size.Some? {
      assert Logical(c, i) == Logical(b, i);
    }
  }

  lemma NothingSet(fs: Fs, i: nat)
    ensures AttrsSet(fs, fs, i, None)
  {
    OnlyChangesRefl(fs, {});
  }

  lemma SettledSets(fs: Fs, g: Fs, i: nat)
    requires Settled(fs, g, i)
    ensures OnlyChanges(fs, g, {})
  {
  }

  /** Truncating an inode with nothing buffered cannot leave its slot idle, even if it fails. */
  lemma CleanTruncation(fs: Fs, g: Fs, events: seq<Event>, i: nat, size: nat, now: Time, ok: bool)
    requires Inv(fs) && g == After(fs, events) && (i in fs.open ==> fs.open[i].dirty == map[])
    requires ok ==>
               && i in fs.nodes && fs.nodes[i].kind == RegularFile && size <= MAX_FILE_SIZE
               && events == Truncating(fs, i, size, now)
    requires !ok ==> events == [] || (events == [Flush(i)] && Enabled(fs, Flush(i)))
    ensures AttrsSet(fs, g, i, if ok then Some(size) else None) && (!ok ==> events == [])
    ensures NoIdleSlot(fs) ==> NoIdleSlot(g)
    ensures i in g.open ==> g.open[i].dirty == map[]
    ensures ok ==> i in g.nodes && ReportedSize(g, i) == size
  {
    FlushIsEnabled(fs, i);
    AfterNothing(fs);
    NothingSet(fs, i);
    if ok {
      AfterTruncating(fs, i, size, now);
      hide After, Inv, Enabled, Truncating, OnlyChanges;
      assert i in g.nodes by {
        assert OnlyChanges(fs, g, {i});
      }
    }
  }

  lemma CleanSizeIf(fs: Fs, i: nat)
    requires Inv(fs) && i in fs.nodes
    ensures i in fs.open && fs.open[i].dirty == map[] ==> fs.open[i].size == fs.nodes[i].file.size
  {
    if i in fs.open && fs.open[i].dirty == map[] {
      CleanSize(fs, i);
    }
    hide Inv;
  }

  const FALLOC_FL_KEEP_SIZE: int := 1

  /** The checks of `fallocate` that need no lookup, in their order. */
  function FallocateArguments(offset: int, length: int, mode: int): Option<Errno> {
    if offset < 0 || length <= 0 then Some(EINVAL)
    else if mode != 0 && mode != FALLOC_FL_KEEP_SIZE then Some(EOPNOTSUPP)
    else None
  }

  /** What `fallocate` does: it extends a shorter file, and nothing else. */
  function Allocating(fs: Fs, i: nat, end: nat, mode: int, now: Time): seq<Event>
    requires i in fs.nodes
  {
    if mode == FALLOC_FL_KEEP_SIZE || end <= ReportedSize(fs, i) then [] else Truncating(fs, i, end, now)
  }

  /** Whether a call reaches the truncation: a regular file, mode 0, and an end past its size. */
  predicate Grows(fs: Fs, i: nat, offset: int, length: int, mode: int) {
    && FallocateArguments(offset, length, mode).None? && mode == 0
    && i in fs.nodes && fs.nodes[i].kind == RegularFile && ReportedSize(fs, i) < offset + length <= MAX_FILE_SIZE
  }

  /** The answers that refuse a call with proper arguments. */
  predicate FallocateRefuses(fs: Fs, i: nat, end: int, errno: Errno) {
    || IsStorageErrno(errno)
    || (errno == ENOENT && i !in fs.nodes)
    || (errno == ENODEV && (i in fs.nodes ==> fs.nodes[i].kind != RegularFile))
    || (errno == EFBIG && i in fs.nodes && fs.nodes[i].kind == RegularFile && end > MAX_FILE_SIZE)
  }

  /** What `fallocate` answers and does. */
  ghost predicate Fallocated(before: Fs, events: seq<Event>, i: nat, offset: int, length: int, mode: int, now: Time,
      r: Reply<()>) {
    match FallocateArguments(offset, length, mode)
    case Some(errno) => r == Fail(errno) && events == []
    case None =>
      if r.Done? then
        && i in before.nodes && before.nodes[i].kind == RegularFile && offset + length <= MAX_FILE_SIZE
        && events == Allocating(before, i, offset + length, mode, now)
      else
        && FallocateRefuses(before, i, offset + length, r.errno)
        && (events == []
            || (Grows(before, i, offset, length, mode) && IsStorageErrno(r.errno)
                && events == [Flush(i)] && Enabled(before, Flush(i))))
  }

  /** Whether a call can leave the slot of its inode idle is known beforehand: exactly when it would
      grow a file that has a slot but no handle. */
  lemma FallocateKeepsNoIdleSlot(fs: Fs, i: nat, offset: int, length: int, mode: int, now: Time)
    requires Inv(fs) && NoIdleSlot(fs)
    ensures (forall events, r :: Fallocated(fs, events, i, offset, length, mode, now, r) ==>
              NoIdleSlot(After(fs, events)))
            <==> !(Grows(fs, i, offset, length, mode) && i in fs.open && fs.open[i].refs == 0)
  {
    hide Inv, After, Enabled, Step, Allocating, NoIdleSlot, IsIdle;
    if Grows(fs, i, offset, length, mode) && i in fs.open && fs.open[i].refs == 0 {
      NeededIsDirty(fs, i);
      FlushIsEnabled(fs, i);
      FlushIsNeeded(fs, i);
      AfterOne(fs, Flush(i));
      var r: Reply<()> := Fail(EIO);
      assert Fallocated(fs, [Flush(i)], i, offset, length, mode, now, r);
    } else {
      forall events, r | Fallocated(fs, events, i, offset, length, mode, now, r) ensures NoIdleSlot(After(fs, events)) {
        AllocatingIs(fs, i, offset + length, mode, now);
        FlushIsEnabled(fs, i);
        if events == [] {
          AfterNothing(fs);
        } else {
          FallocateNeeds(fs, events, i, offset + length, now, r.Done?);
        }
      }
    }
  }

  lemma NeededIsDirty(fs: Fs, i: nat)
    requires NoIdleSlot(fs) && i in fs.open && fs.open[i].refs == 0
    ensures fs.open[i].dirty != map[] && Refs(fs, i) == 0
  {
  }

  lemma AllocatingIs(fs: Fs, i: nat, end: int, mode: int, now: Time)
    ensures i in fs.nodes && end >= 0 ==>
              Allocating(fs, i, end, mode, now) == []
                  || Allocating(fs, i, end, mode, now) == Truncating(fs, i, end, now)
  {
    hide Truncating;
  }

  /** A run that buffers one byte for a file that is empty in the store and that nobody has open. */
  lemma OneByteBuffered() returns (init: Fs, log: seq<Event>)
    ensures IsRun(init, log) && init.open == map[] && !init.closing && forall e :: e in log ==> !e.StopWrites?
    ensures var fs := After(init, log);
            && Inv(fs) && !fs.closing && fs.nodes == map[2 := Node(RegularFile, 1, 0, File(0, map[]))]
            && fs.open.Keys == {2} && fs.open[2].kind == RegularFile && fs.open[2].size == 1
            && fs.open[2].refs == 0 && !fs.open[2].unlinked && fs.open[2].dirty != map[]
  {
    var empty := Node(RegularFile, 1, 0, File(0, map[]));
    init := Fs(map[2 := empty], map[], false);
    EmptyFileIsWellFormed();
    assert Inv(init);
    hide Inv, Step, Enabled, IsRun, Splice, Seen, Logical, WritePiece;
    NothingRun(init);
    LoadStep(init, 2);
    ExtendRun(init, [], Load(2));
    var loaded := After(init, [] + [Load(2)]);
    StepKeepsInv(init, Load(2));
    TouchStep(loaded, 2, 0);
    ExtendRun(init, [] + [Load(2)], Touch(2, 0));
    var touched := Step(loaded, Touch(2, 0));
    StepKeepsInv(loaded, Touch(2, 0));
    OneByteFits();
    StoreStep(touched, 2, 0, 0, [1]);
    log := [] + [Load(2)] + [Touch(2, 0)] + [Store(2, 0, 0, [1])];
    ExtendRun(init, [] + [Load(2)] + [Touch(2, 0)], Store(2, 0, 0, [1]));
    var written := After(init, log);
    StepKeepsInv(touched, Store(2, 0, 0, [1]));
  }

  /** A run to such a call, whose failure leaves an idle slot: a write by inode number to a file
      nobody has open, then `fallocate`. */
  lemma FallocateLeavesAnIdleSlot() returns (init: Fs, log: seq<Event>)
    ensures IsRun(init, log) && init.open == map[] && NoIdleSlot(After(init, log))
    ensures Fallocated(After(init, log), [Flush(2)], 2, 0, 10, 0, 0, Fail(EIO))
    ensures !NoIdleSlot(After(After(init, log), [Flush(2)]))
  {
    init, log := OneByteBuffered();
    hide Inv, Step, Enabled, IsRun, Logical;
    var written := After(init, log);
    FlushIsEnabled(written, 2);
    FlushIsNeeded(written, 2);
    AfterOne(written, Flush(2));
  }

  lemma NothingRun(fs: Fs)
    requires Inv(fs)
    ensures IsRun(fs, []) && After(fs, []) == fs
  {
  }

  lemma OneByteFits()
    ensures PieceFits(0, 0, [1])
  {
  }

  /** A file that `fallocate` covered holds its old bytes, and zeros up to `end` unless the size was
      to be kept. It never shrinks. */
  lemma AllocatingExtends(fs: Fs, i: nat, end: nat, mode: int, now: Time)
    requires Inv(fs) && i in fs.nodes && fs.nodes[i].kind == RegularFile && end <= MAX_FILE_SIZE
    ensures var was := Contents(Logical(fs, i));
            var g := After(fs, Allocating(fs, i, end, mode, now));
            && i in g.nodes
            && Contents(Logical(g, i)) == if mode == FALLOC_FL_KEEP_SIZE || end <= |was| then was
               else was + Zeros(end - |was|)
  {
    TruncatingResizes(fs, i, end, now);
    AfterNothing(fs);
    hide Inv, Truncating, Contents, Logical, After;
  }

  lemma SetTimeOnlyDates(fs: Fs, i: nat, t: Time)
    requires Inv(fs) && i in fs.nodes && (i in fs.open ==> fs.open[i].dirty == map[])
    ensures var g := Step(fs, SetTime(i, t));
            && Enabled(fs, SetTime(i, t)) && OnlyChanges(fs, g, {}) && g.open == fs.open
            && g.nodes == fs.nodes[i := fs.nodes[i].(mtime := t)] && (NoIdleSlot(fs) ==> NoIdleSlot(g))
  {
    SetTimeStep(fs, i, t);
    hide Inv, Enabled, Step, OnlyChanges, OthersNeeded;
    ChangeOfOne(fs, Step(fs, SetTime(i, t)), i);
  }

  /* ----- Flushing everything ----- */

  /** Whether a flush has something to store for an inode. */
  predicate MustStore(fs: Fs, i: nat, unlinked: Unlinked) {
    i in fs.open && fs.open[i].dirty != map[] && !(fs.open[i].unlinked && unlinked == Skip)
  }

  /** A flush tries one commit if it has something to store, and none otherwise. */
  predicate Tries(before: seq<Attempt>, after: seq<Attempt>, fs: Fs, i: nat, unlinked: Unlinked, r: Reply<()>) {
    if MustStore(fs, i, unlinked) then TriedOne(before, after, i, r) else after == before && r.Done?
  }

  /** The inodes whose commit was refused. */
  function Refused(tried: seq<Attempt>): set<nat> {
    set k | 0 <= k < |tried| && tried[k].refusal.Some? :: tried[k].ino
  }

  function FirstRefusal(tried: seq<Attempt>): Option<DbError> {
    if tried == [] then None
    else
      var first := FirstRefusal(tried[..|tried| - 1]);
      if first.Some? then first else tried[|tried| - 1].refusal
  }

  /** There is a first refusal exactly when some commit was refused. */
  lemma {:induction false} FirstOfRefused(tried: seq<Attempt>)
    ensures FirstRefusal(tried).None? <==> Refused(tried) == {}
    ensures FirstRefusal(tried).Some? ==> exists k :: 0 <= k < |tried| && tried[k].refusal == FirstRefusal(tried)
    decreases |tried|
  {
    if tried != [] {
      var shorter, n := tried[..|tried| - 1], |tried| - 1;
      FirstOfRefused(shorter);
      RefusedOneMore(shorter, tried[n]);
      assert shorter + [tried[n]] == tried;
      if k :| 0 <= k < n && shorter[k].refusal == FirstRefusal(shorter) {
        assert tried[k] == shorter[k];
      }
    }
  }

  lemma RefusedOneMore(tried: seq<Attempt>, a: Attempt)
    ensures Refused(tried + [a]) == Refused(tried) + if a.refusal.Some? then {a.ino} else {}
    ensures FirstRefusal(tried + [a]) == if FirstRefusal(tried).Some? then FirstRefusal(tried) else a.refusal
  {
    var more := tried + [a];
    assert more[..|tried|] == tried;
    forall i: nat ensures i in Refused(more) <==> i in Refused(tried) + if a.refusal.Some? then {a.ino} else {} {
      if i in Refused(tried) {
        var k :| 0 <= k < |tried| && tried[k].refusal.Some? && tried[k].ino == i;
        assert more[k] == tried[k];
      }
      if i in Refused(more) {
        var k :| 0 <= k < |more| && more[k].refusal.Some? && more[k].ino == i;
        assert k < |tried| ==> more[k] == tried[k];
      }
      assert more[|tried|] == a;
    }
  }

  /** Of the inodes that had to be stored at the start, each that is not in `pending` has been tried
      exactly once, and no other inode has. */
  ghost predicate EachTriedOnce(before: Fs, tried: seq<Attempt>, pending: set<nat>) {
    && (forall k :: 0 <= k < |tried| ==> MustStore(before, tried[k].ino, Skip) && tried[k].ino !in pending)
    && (forall j, k :: 0 <= j < k < |tried| ==> tried[j].ino != tried[k].ino)
    && (forall i :: MustStore(before, i, Skip) && i !in pending ==> WasTried(tried, i))
  }

  predicate WasTried(tried: seq<Attempt>, i: nat) {
    exists k :: 0 <= k < |tried| && tried[k].ino == i
  }

  /** Of the inodes open at the start, those in `pending` are untouched, those in `failed` keep
      their buffered writes, and every other one with a name is stored; no file has changed. */
  ghost predicate FlushedBut(before: Fs, now: Fs, failed: set<nat>, pending: set<nat>) {
    && Inv(now) && OnlyChanges(before, now, {}) && (NoIdleSlot(before) ==> NoIdleSlot(now))
    && (forall i :: i in now.open ==> i in before.open && i in before.nodes)
    && (forall i :: i in failed + pending ==>
          && i in before.open && i in now.open && now.open[i] == before.open[i]
          && i in before.nodes && i in now.nodes && now.nodes[i] == before.nodes[i])
    && (forall i :: i in before.open && i !in failed + pending ==> FlushedOne(before, now, i))
  }

  ghost predicate FlushedOne(before: Fs, now: Fs, i: nat) {
    && i in before.open && i in before.nodes && i in now.nodes
    && (!before.open[i].unlinked ==>
          Stored(now, i) == Logical(before, i) && (i in now.open ==> now.open[i].dirty == map[]))
    && (i in now.open ==> now.open[i].unlinked == before.open[i].unlinked)
  }

  ghost predicate FlushedSome(before: Fs, now: Fs, tried: seq<Attempt>, pending: set<nat>) {
    EachTriedOnce(before, tried, pending) && FlushedBut(before, now, Refused(tried), pending)
  }

  /** The outcome of flushing everything: every inode that had to be stored was tried once, and all
      of them are stored but exactly those whose commit was refused. */
  ghost predicate FlushedAll(before: Fs, after: Fs, tried: seq<Attempt>) {
    FlushedSome(before, after, tried, {})
  }

  lemma FlushedAllIsClean(before: Fs, after: Fs, tried: seq<Attempt>)
    requires FlushedAll(before, after, tried) && Refused(tried) == {}
    ensures AllLinkedClean(after)
  {
    hide Inv, OnlyChanges, Refused, EachTriedOnce;
    forall i | i in after.open && !after.open[i].unlinked ensures after.open[i].dirty == map[] {
      assert FlushedOne(before, after, i);
    }
  }

  lemma NothingFlushed(fs: Fs)
    requires Inv(fs)
    ensures FlushedSome(fs, fs, [], fs.open.Keys)
  {
    OnlyChangesRefl(fs, {});
  }

  lemma TriedOneMore(before: Fs, tried: seq<Attempt>, a: Attempt, pending: set<nat>)
    requires EachTriedOnce(before, tried, pending) && a.ino in pending && MustStore(before, a.ino, Skip)
    ensures EachTriedOnce(before, tried + [a], pending - {a.ino})
  {
    hide MustStore, WasTried;
    var more := tried + [a];
    forall i | MustStore(before, i, Skip) && i !in pending - {a.ino} ensures WasTried(more, i) {
      TriedStill(tried, a, i);
    }
  }

  lemma TriedStill(tried: seq<Attempt>, a: Attempt, i: nat)
    requires WasTried(tried, i) || i == a.ino
    ensures WasTried(tried + [a], i)
  {
    assert (tried + [a])[|tried|] == a;
    if WasTried(tried, i) {
      var k :| 0 <= k < |tried| && tried[k].ino == i;
      assert (tried + [a])[k] == tried[k];
    }
  }

  lemma SkippedOneMore(before: Fs, tried: seq<Attempt>, i: nat, pending: set<nat>)
    requires EachTriedOnce(before, tried, pending) && i in pending && !MustStore(before, i, Skip)
    ensures EachTriedOnce(before, tried, pending - {i})
  {
    hide MustStore, WasTried;
  }

  /** The next inode of a flush of everything: refused, it keeps its writes and the others go on;
      otherwise it is stored. */
  lemma OneFlushed(before: Fs, now: Fs, next: Fs, had: seq<Attempt>, has: seq<Attempt>, tried: seq<Attempt>,
                   pending: set<nat>, i: nat, r: Reply<()>) returns (more: seq<Attempt>)
    requires FlushedSome(before, now, tried, pending) && i in pending && Tries(had, has, now, i, Skip, r)
    requires next == if r.Done? then After(now, Settling(now, i, Skip)) else now
    ensures FlushedSome(before, next, more, pending - {i})
    ensures |more| >= |tried| && more[..|tried|] == tried && has == had + more[|tried|..]
    ensures r.Done? || FirstRefusal(tried).Some? ==> FirstRefusal(more) == FirstRefusal(tried)
    ensures r.Fail? && FirstRefusal(tried).None? ==>
              FirstRefusal(more).Some? && r == Fail(ErrnoOf(FirstRefusal(more).value))
  {
    hide FlushedSome, EachTriedOnce, MustStore, After, Settling, FirstRefusal;
    SameMustStore(before, now, tried, pending, i);
    if MustStore(now, i, Skip) {
      var a := has[|had|];
      more := tried + [a];
      assert has == had + [a] && more[|tried|..] == [a];
      RefusedOneMore(tried, a);
      if r.Fail? {
        OneRefused(before, now, tried, pending, a);
      } else {
        OneStored(before, now, next, tried, pending, a);
      }
    } else {
      more := tried;
      assert had == had + more[|tried|..];
      OneSkipped(before, now, next, tried, pending, i);
    }
  }

  lemma OneRefused(before: Fs, now: Fs, tried: seq<Attempt>, pending: set<nat>, a: Attempt)
    requires FlushedSome(before, now, tried, pending) && a.ino in pending && MustStore(before, a.ino, Skip)
             && a.refusal.Some?
    ensures FlushedSome(before, now, tried + [a], pending - {a.ino})
  {
    hide FlushedBut, EachTriedOnce, MustStore, Refused, FirstRefusal;
    TriedOneMore(before, tried, a, pending);
    RefusedOneMore(tried, a);
    OneFails(before, now, Refused(tried), pending, a.ino);
  }

  lemma OneStored(before: Fs, now: Fs, next: Fs, tried: seq<Attempt>, pending: set<nat>, a: Attempt)
    requires FlushedSome(before, now, tried, pending) && a.ino in pending && MustStore(before, a.ino, Skip)
             && a.refusal.None?
    requires next == After(now, Settling(now, a.ino, Skip))
    ensures FlushedSome(before, next, tried + [a], pending - {a.ino})
  {
    hide FlushedBut, EachTriedOnce, MustStore, Refused, FirstRefusal, After, Settling;
    TriedOneMore(before, tried, a, pending);
    RefusedOneMore(tried, a);
    NotRefused(before, tried, pending, a.ino);
    OneSettles(before, now, next, Refused(tried), pending, a.ino);
    assert Refused(tried) + {} == Refused(tried);
  }

  lemma OneSkipped(before: Fs, now: Fs, next: Fs, tried: seq<Attempt>, pending: set<nat>, i: nat)
    requires FlushedSome(before, now, tried, pending) && i in pending && !MustStore(before, i, Skip)
    requires next == After(now, Settling(now, i, Skip))
    ensures FlushedSome(before, next, tried, pending - {i})
  {
    hide FlushedBut, EachTriedOnce, MustStore, Refused, After, Settling;
    SkippedOneMore(before, tried, i, pending);
    NotRefused(before, tried, pending, i);
    OneSettles(before, now, next, Refused(tried), pending, i);
  }

  lemma NotRefused(before: Fs, tried: seq<Attempt>, pending: set<nat>, i: nat)
    requires EachTriedOnce(before, tried, pending) && i in pending
    ensures i !in Refused(tried)
  {
    hide MustStore;
  }

  lemma SameMustStore(before: Fs, now: Fs, tried: seq<Attempt>, pending: set<nat>, i: nat)
    requires FlushedSome(before, now, tried, pending) && i in pending
    ensures MustStore(now, i, Skip) <==> MustStore(before, i, Skip)
  {
    hide Inv, OnlyChanges, Refused, EachTriedOnce;
  }

  lemma OneFails(before: Fs, now: Fs, failed: set<nat>, pending: set<nat>, i: nat)
    requires FlushedBut(before, now, failed, pending) && i in pending
    ensures FlushedBut(before, now, failed + {i}, pending - {i})
  {
    hide Inv, OnlyChanges, FlushedOne;
    assert failed + {i} + (pending - {i}) == failed + pending;
  }

  lemma OneSettles(before: Fs, now: Fs, next: Fs, failed: set<nat>, pending: set<nat>, i: nat)
    requires FlushedBut(before, now, failed, pending) && i in pending && i !in failed
    requires next == After(now, Settling(now, i, Skip))
    ensures FlushedBut(before, next, failed, pending - {i})
  {
    hide After, Settling, OnlyChanges, NoIdleSlot, IsIdle, Inv, FlushedOne;
    FlushedIsInv(before, now, failed, pending, i);
    SettlingOnlyMoves(now, i, Skip);
    SettledIsInv(now, next, i);
    OnlyChangesWithNone(before, now, next, {});
    SettledNeededIf(now, next, i);
    OneIsStored(before, now, next, i);
    OneMore(before, now, next, failed, pending, i);
  }

  lemma FlushedIsInv(before: Fs, now: Fs, failed: set<nat>, pending: set<nat>, i: nat)
    requires FlushedBut(before, now, failed, pending) && i in pending
    ensures Inv(now) && OnlyChanges(before, now, {})
    ensures i in before.open && i in before.nodes && i in now.open && now.open[i] == before.open[i]
  {
    hide Inv, OnlyChanges, FlushedOne;
  }

  lemma SettledIsInv(fs: Fs, g: Fs, i: nat)
    requires Settled(fs, g, i)
    ensures Inv(g) && OnlyChanges(fs, g, {})
  {
    hide Inv, OnlyChanges;
  }

  lemma OneMore(before: Fs, now: Fs, next: Fs, failed: set<nat>, pending: set<nat>, i: nat)
    requires FlushedBut(before, now, failed, pending) && i in pending && i !in failed
    requires Settled(now, next, i) && OnlyChanges(before, next, {}) && FlushedOne(before, next, i)
    requires NoIdleSlot(now) ==> NoIdleSlot(next)
    ensures FlushedBut(before, next, failed, pending - {i})
  {
    hide Inv, OnlyChanges, NoIdleSlot, FlushedOne;
    assert failed + (pending - {i}) == failed + pending - {i};
    forall j | j in before.open && j !in failed + (pending - {i}) ensures FlushedOne(before, next, j) {
      if j != i {
        OthersStayFlushed(before, now, next, i, j);
      }
    }
  }

  predicate OnlyFlushes(events: seq<Event>) {
    forall e :: e in events ==> e.Flush? || e.Free?
  }

  lemma NothingTried()
    ensures FirstRefusal([]) == None && OnlyFlushes([])
  {
  }

  lemma SettlingOnlyFlushes(events: seq<Event>, fs: Fs, i: nat)
    requires OnlyFlushes(events)
    ensures OnlyFlushes(events + Settling(fs, i, Skip))
  {
  }

  lemma TriedInOrder(had: seq<Attempt>, has: seq<Attempt>, tried: seq<Attempt>, now: seq<Attempt>, more: seq<Attempt>)
    requires has == had + tried && |more| >= |tried| && more[..|tried|] == tried && now == has + more[|tried|..]
    ensures now == had + more
  {
    assert more == more[..|tried|] + more[|tried|..];
  }

  lemma SettledNeededIf(fs: Fs, g: Fs, i: nat)
    requires Settled(fs, g, i) && !IsIdle(g, i)
    ensures NoIdleSlot(fs) ==> NoIdleSlot(g)
  {
    if NoIdleSlot(fs) {
      SettledNeeded(fs, g, i);
    }
    hide Inv, OnlyChanges, IsIdle;
  }

  lemma OneIsStored(before: Fs, now: Fs, next: Fs, i: nat)
    requires Inv(now) && Inv(next) && OnlyChanges(before, next, {}) && Settled(now, next, i)
    requires i in before.open && i in before.nodes && i in now.open && now.open[i] == before.open[i]
    requires i in next.open && !now.open[i].unlinked ==> next.open[i].dirty == map[]
    ensures FlushedOne(before, next, i)
  {
    if i in next.open && next.open[i].dirty == map[] {
      CleanSize(next, i);
    }
    hide Inv;
    if i !in next.open || next.open[i].dirty == map[] {
      CleanIsStored(next, i);
    }
    hide Logical;
  }

  lemma OthersStayFlushed(before: Fs, now: Fs, next: Fs, i: nat, j: nat)
    requires FlushedOne(before, now, j) && Settled(now, next, i) && j != i
    ensures FlushedOne(before, next, j)
  {
    hide Inv, OnlyChanges, Logical;
  }

  /* ----- No slot is left idle ----- */

  /** A handle keeps the slot it was opened on. */
  lemma OpenedIsNeeded(fs: Fs, i: nat)
    requires Inv(fs) && (i in fs.open || Enabled(fs, Load(i)))
    ensures var loaded := if i in fs.open then fs else Step(fs, Load(i));
            NoIdleSlot(fs) ==> NoIdleSlot(Step(loaded, Open(i)))
  {
    var loaded := if i in fs.open then fs else Step(fs, Load(i));
    if i !in fs.open {
      LoadOnlyRemembers(fs, i);
      StepKeepsInv(fs, Load(i));
    }
    OpenStep(loaded, i);
    hide Inv, Step, Enabled, OnlyChanges;
  }

  lemma CreatedIsNeeded(fs: Fs, i: nat, kind: FileKind, size: nat, t: Time)
    ensures NoIdleSlot(fs) ==> NoIdleSlot(SetNode(fs, i, Node(kind, 1, t, File(size, map[]))))
  {
  }

  lemma NameGoneIsNeeded(fs: Fs, i: nat)
    requires Inv(fs) && i in fs.nodes && fs.nodes[i].nlink >= 1
    ensures NoIdleSlot(fs) ==> NoIdleSlot(Step(fs, NameGone(fs, i)))
  {
    NameGoneStep(fs, i);
    hide Inv, Step, Enabled;
  }

  lemma DroppedIsNeeded(fs: Fs, i: nat)
    ensures NoIdleSlot(fs) ==> NoIdleSlot(DropSlot(fs, i)) && NoIdleSlot(DropNode(DropSlot(fs, i), i))
  {
  }

  lemma CloseIsNeeded(fs: Fs, i: nat)
    requires Inv(fs) && i in fs.open && fs.open[i].refs > 0 && (fs.open[i].unlinked ==> fs.open[i].refs > 1)
    ensures NoIdleSlot(fs) ==> OthersNeeded(Step(fs, Close(i)), i)
  {
    CloseStep(fs, i);
    hide Inv, Step, Enabled;
  }

  /** A write through a handle leaves the slot to its handle. */
  lemma WrittenIsNeeded(before: Fs, after: Fs, events: seq<Event>, i: nat, offset: nat, data: Blob, r: Reply<nat>)
    requires Inv(before) && offset + |data| <= U64_MAX && i in before.open && before.open[i].refs > 0
    requires WriteOutcome(before, after, events, i, offset, data, r)
    ensures NoIdleSlot(before) ==> NoIdleSlot(after)
  {
    assert i in before.nodes && before.open[i].kind == before.nodes[i].kind;
    hide Inv, WriteOutcome;
    if data == [] {
      NothingOfNothing(before, after, events, i, offset, data, r);
    } else {
      var n := OutcomeInPieces(before, after, events, i, offset, data, r);
      hide WriteChunks, Logical, StoresTo;
      assert Refs(after, i) == Refs(before, i);
      hide OnlyChanges;
      NeededAll(after, i);
    }
  }

  lemma NothingOfNothing(before: Fs, after: Fs, events: seq<Event>, i: nat, offset: nat, data: Blob, r: Reply<nat>)
    requires offset + |data| <= U64_MAX && i in before.open && data == []
    requires WriteOutcome(before, after, events, i, offset, data, r)
    ensures after == before && events == []
  {
  }

  lemma FlushIsNeeded(fs: Fs, i: nat)
    requires Inv(fs) && Enabled(fs, Flush(i))
    ensures NoIdleSlot(fs) ==> (NoIdleSlot(Step(fs, Flush(i))) <==> Refs(fs, i) > 0)
  {
    FlushIsEnabled(fs, i);
    FlushSettles(fs, i);
    hide Inv, Step, Enabled, OnlyChanges;
    var g := Step(fs, Flush(i));
    if NoIdleSlot(fs) && Refs(fs, i) > 0 {
      SettledNeeded(fs, g, i);
    }
  }

  lemma CloseLeavesNeeded(fs: Fs, g: Fs, i: nat, ok: bool)
    requires Inv(fs) && g == if ok then After(fs, Settling(fs, i, Skip)) else fs
    requires !ok ==> i in fs.open && fs.open[i].dirty != map[]
    ensures OthersNeeded(fs, i) ==> NoIdleSlot(g)
  {
    SettlingOnlyMoves(fs, i, Skip);
    if ok && OthersNeeded(fs, i) {
      SettledNeeded(fs, g, i);
    }
    NeededAll(fs, i);
    hide Inv, After, Settling, Settled, OthersNeeded;
  }

  lemma FallocateNeeds(fs: Fs, events: seq<Event>, i: nat, end: nat, now: Time, ok: bool)
    requires Inv(fs)
    requires ok ==>
               && i in fs.nodes && fs.nodes[i].kind == RegularFile && end <= MAX_FILE_SIZE
               && events == Truncating(fs, i, end, now)
    requires !ok ==> events == [] || (events == [Flush(i)] && Enabled(fs, Flush(i)))
    ensures NoIdleSlot(fs) ==> (NoIdleSlot(After(fs, events)) <==> !(!ok && events == [Flush(i)] && Refs(fs, i) == 0))
  {
    AfterNothing(fs);
    AfterEviction(fs, i);
    if ok {
      AfterTruncating(fs, i, end, now);
    } else if events != [] {
      FlushIsNeeded(fs, i);
    }
    hide Inv, After, Truncating, Enabled, IsIdle, Refs;
  }

  /* ----- Writes one after the other ----- */

  lemma NoBatch(f: File)
    ensures WriteBatch(f, []) == f
  {
  }

  lemma WroteWholeFile(before: Fs, after: Fs, events: seq<Event>, i: nat, offset: nat, data: Blob, r: Reply<nat>)
    requires offset + |data| <= U64_MAX && Wrote(before, after, events, i, offset, data, r) && r.Done?
             && i in before.nodes
    ensures i in after.nodes && after.nodes[i].nlink == before.nodes[i].nlink
    ensures Logical(after, i) == WriteFile(Logical(before, i), offset, data)
    ensures after.nodes[i].kind == before.nodes[i].kind && after.closing == before.closing
    ensures data != [] ==> MayWrite(before, i, offset, data)
  {
    hide Logical, WriteFile, WriteChunks, StoresTo, Pieces;
    WriteFileIsChunks(Logical(before, i), offset, data);
  }

  /** An inode with a name that was flushed is stored as it is. */
  lemma SettledIsStored(fs: Fs, g: Fs, i: nat)
    requires Inv(g) && Settled(fs, g, i) && i in fs.nodes && fs.nodes[i].nlink > 0
    requires i in g.open && !g.open[i].unlinked ==> g.open[i].dirty == map[]
    ensures i in g.nodes && g.nodes[i].file == Logical(fs, i)
  {
    hide Inv, Logical, OnlyChanges;
    SettledKeeps(fs, g, i);
    SameNames(fs, g, i);
    if i in g.open {
      NamedIsNotUnlinked(g, i);
      SlotFacts(g, i);
    }
    CleanIsStored(g, i);
  }

  lemma SameNames(fs: Fs, g: Fs, i: nat)
    requires Settled(fs, g, i) && i in fs.nodes
    ensures i in g.nodes && g.nodes[i].nlink == fs.nodes[i].nlink
  {
    hide Inv, Logical;
  }

  lemma NamedIsNotUnlinked(fs: Fs, i: nat)
    requires Inv(fs) && i in fs.open && i in fs.nodes && fs.nodes[i].nlink > 0
    ensures !fs.open[i].unlinked
  {
  }
}
