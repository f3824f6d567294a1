/** What holds of every run of the cache. */
module CacheTheorems {
  import opened Basics
  import opened Chunking
  import opened Files
  import opened Model
  import opened CacheModel

  /* ----- What operations leave alone ----- */

  /** From one state to the other no inode comes or goes, only the files in `w` change, and every
      inode keeps its names and its handles. */
  ghost predicate OnlyChanges(before: Fs, after: Fs, w: set<nat>) {
    && after.nodes.Keys == before.nodes.Keys && after.closing == before.closing
    && (forall j :: j in before.nodes ==>
          after.nodes[j].kind == before.nodes[j].kind && after.nodes[j].nlink == before.nodes[j].nlink)
    && (forall j :: j in before.nodes && j !in w ==> Logical(after, j) == Logical(before, j))
    && (forall j: nat :: Refs(after, j) == Refs(before, j))
  }

  lemma OnlyChangesRefl(fs: Fs, w: set<nat>)
    ensures OnlyChanges(fs, fs, w)
  {
  }

  lemma OnlyChangesTrans(a: Fs, b: Fs, c: Fs, w: set<nat>, v: set<nat>)
    requires OnlyChanges(a, b, w) && OnlyChanges(b, c, v)
    ensures OnlyChanges(a, c, w + v)
  {
    hide Logical;
  }

  /** A change of the stored side and the slot of one inode. */
  lemma ChangeOfOne(fs: Fs, g: Fs, i: nat)
    requires i in fs.nodes && i in g.nodes && g.nodes == fs.nodes[i := g.nodes[i]] && g.closing == fs.closing
    requires g.nodes[i].kind == fs.nodes[i].kind && g.nodes[i].nlink == fs.nodes[i].nlink
    requires g.open - {i} == fs.open - {i} && Refs(g, i) == Refs(fs, i)
    ensures OnlyChanges(fs, g, {i})
    ensures Logical(g, i) == Logical(fs, i) ==> OnlyChanges(fs, g, {})
    ensures OthersNeeded(fs, i) ==> OthersNeeded(g, i)
  {
    forall j: nat | j != i
      ensures j in g.open <==> j in fs.open
      ensures j in fs.open ==> g.open[j] == fs.open[j]
    {
      assert j in g.open <==> j in g.open - {i};
      assert j in fs.open <==> j in fs.open - {i};
      if j in fs.open {
        assert g.open[j] == (g.open - {i})[j] == (fs.open - {i})[j] == fs.open[j];
      }
    }
  }

  lemma FlushOnlyMoves(fs: Fs, i: nat)
    requires Inv(fs) && Enabled(fs, Flush(i))
    ensures var g := Step(fs, Flush(i));
            && OnlyChanges(fs, g, {}) && i in fs.nodes && i in fs.open
            && g.open == fs.open[i := fs.open[i].(dirty := map[])]
            && g.nodes == fs.nodes[i := fs.nodes[i].(file := Logical(fs, i), mtime := fs.open[i].mtime)]
            && Logical(g, i) == Logical(fs, i)
  {
    FlushStep(fs, i);
    hide Inv, Step, Enabled, OnlyChanges, OthersNeeded;
    var g := Step(fs, Flush(i));
    assert g.nodes[i].file.rows + map[] == g.nodes[i].file.rows;
    ChangeOfOne(fs, g, i);
  }

  lemma FreeOnlyForgets(fs: Fs, i: nat)
    requires Inv(fs) && Enabled(fs, Free(i))
    ensures OnlyChanges(fs, Step(fs, Free(i)), {}) && Step(fs, Free(i)).open == fs.open - {i}
    ensures Step(fs, Free(i)).nodes == fs.nodes
  {
    FreeStep(fs, i);
    assert i in fs.nodes && fs.open[i].size == fs.nodes[i].file.size;
    hide Inv, Step, Enabled, OnlyChanges, OthersNeeded;
    assert fs.nodes[i].file.rows + map[] == fs.nodes[i].file.rows;
    ChangeOfOne(fs, Step(fs, Free(i)), i);
  }

  lemma LoadOnlyRemembers(fs: Fs, i: nat)
    requires Inv(fs) && Enabled(fs, Load(i))
    ensures var g := Step(fs, Load(i));
            && OnlyChanges(fs, g, {}) && g.nodes == fs.nodes
            && g.open == fs.open[i := OpenFile(fs.nodes[i].kind, fs.nodes[i].file.size, 0, 0, false, map[])]
            && (OthersNeeded(fs, i) ==> OthersNeeded(g, i))
  {
    LoadStep(fs, i);
    hide Inv, Step, Enabled, OnlyChanges, OthersNeeded;
    assert fs.nodes[i].file.rows + map[] == fs.nodes[i].file.rows;
    ChangeOfOne(fs, Step(fs, Load(i)), i);
  }

  lemma TouchOnlyMarks(fs: Fs, i: nat, t: Time)
    requires Inv(fs) && i in fs.open && fs.open[i].kind == RegularFile && !fs.closing
    ensures var g := Step(fs, Touch(i, t));
            && i in fs.nodes && OnlyChanges(fs, g, {i}) && i in g.open && g.open[i].kind == RegularFile
            && Logical(g, i) == Logical(fs, i)
            && (OthersNeeded(fs, i) ==> OthersNeeded(g, i))
  {
    assert i in fs.nodes;
    TouchStep(fs, i, t);
    hide Inv, Step, Enabled, OnlyChanges, OthersNeeded;
    ChangeOfOne(fs, Step(fs, Touch(i, t)), i);
  }

  lemma StoreOnlyWrites(fs: Fs, i: nat, c: nat, start: nat, d: Blob)
    requires Inv(fs) && i in fs.open && fs.open[i].kind == RegularFile && !fs.closing && PieceFits(c, start, d)
    ensures var g := Step(fs, Store(i, c, start, d));
            && i in fs.nodes && OnlyChanges(fs, g, {i}) && i in g.open && g.open[i].kind == RegularFile
            && Logical(g, i) == WritePiece(Logical(fs, i), c, start, d)
            && (OthersNeeded(fs, i) ==> OthersNeeded(g, i))
  {
    assert i in fs.nodes;
    hide Inv, Splice, PieceFits;
    StoreStep(fs, i, c, start, d);
    hide Step, Enabled, WritePiece, OnlyChanges, OthersNeeded;
    ChangeOfOne(fs, Step(fs, Store(i, c, start, d)), i);
  }

  /* ----- Refinement: the cache is a simple file system, which is a map of byte arrays ----- */

  /** The effect of an event on plain files; every step of the cache itself is invisible. */
  function FileStep(m: map<nat, File>, e: Event): map<nat, File> {
    match e
    case Create(i, _, size, _) => m[i := File(size, map[])]
    case Store(i, c, start, d) => if i in m then m[i := WritePiece(m[i], c, start, d)] else m
    case Truncate(i, n, _) => if i in m then m[i := TruncateFile(m[i], n)] else m
    case LastClose(i) => m - {i}
    case Remove(i) => m - {i}
    case _ => m
  }

  lemma StepRefinesFiles(fs: Fs, e: Event)
    requires Inv(fs) && Enabled(fs, e)
    ensures LogicalFiles(Step(fs, e)) == FileStep(LogicalFiles(fs), e)
  {
    hide Inv, Enabled, Step, LogicalFiles, FileStep;
    var a, b := LogicalFiles(Step(fs, e)), FileStep(LogicalFiles(fs), e);
    forall j: nat ensures SameAt(a, b, j) {
      if Subject(e) == Some(j) {
        StepRefinesFileAt(fs, e);
      } else {
        StepRefinesElsewhere(fs, e, j);
      }
    }
    assert forall j: nat :: SameAt(a, b, j) ==> (j in a <==> j in b) && (j in a ==> a[j] == b[j]);
  }

  lemma StepRefinesElsewhere(fs: Fs, e: Event, j: nat)
    requires Subject(e) != Some(j)
    ensures SameAt(LogicalFiles(Step(fs, e)), FileStep(LogicalFiles(fs), e), j)
  {
    LogicalIsLocal(fs, e, j);
    FileStepIsLocal(LogicalFiles(fs), e, j);
    hide Step, LogicalFiles, FileStep;
  }

  lemma LogicalIsLocal(fs: Fs, e: Event, j: nat)
    requires Subject(e) != Some(j)
    ensures SameAt(LogicalFiles(Step(fs, e)), LogicalFiles(fs), j)
  {
    StepIsLocal(fs, e, j);
    hide Step;
  }

  lemma FileStepIsLocal(m: map<nat, File>, e: Event, j: nat)
    requires Subject(e) != Some(j)
    ensures SameAt(FileStep(m, e), m, j)
  {
    hide WritePiece, TruncateFile;
  }

  lemma IdleSlotHasAName(fs: Fs, i: nat)
    requires Inv(fs) && i in fs.open && fs.open[i].refs == 0
    ensures i in fs.nodes && fs.nodes[i].nlink > 0
  {
  }

  ghost predicate SameAt(a: map<nat, File>, b: map<nat, File>, i: nat) {
    (i in a <==> i in b) && (i in a ==> a[i] == b[i])
  }

  lemma StepRefinesFileAt(fs: Fs, e: Event)
    requires Inv(fs) && Enabled(fs, e) && !e.StopWrites?
    ensures SameAt(LogicalFiles(Step(fs, e)), FileStep(LogicalFiles(fs), e), e.ino)
  {
    hide Inv, Enabled, Step, SameAt, LogicalFiles, FileStep;
    match e
    case Store(i, c, start, d) => StoreRefines(fs, i, c, start, d);
    case Flush(i) => FlushRefines(fs, i);
    case Load(i) => LoadRefines(fs, i);
    case Free(i) => FreeRefines(fs, i);
    case Truncate(i, n, t) => TruncateRefines(fs, i, n, t);
    case Create(i, kind, size, t) => CreateRefines(fs, i, kind, size, t);
    case _ => HandleRefines(fs, e);
  }

  lemma StoreRefines(fs: Fs, i: nat, c: nat, start: nat, d: Blob)
    requires Inv(fs) && Enabled(fs, Store(i, c, start, d))
    ensures SameAt(LogicalFiles(Step(fs, Store(i, c, start, d))), FileStep(LogicalFiles(fs), Store(i, c, start, d)), i)
  {
    StoreOnlyWrites(fs, i, c, start, d);
    hide Inv, Enabled, Step, Logical, WritePiece;
  }

  lemma FlushRefines(fs: Fs, i: nat)
    requires Inv(fs) && Enabled(fs, Flush(i))
    ensures SameAt(LogicalFiles(Step(fs, Flush(i))), FileStep(LogicalFiles(fs), Flush(i)), i)
  {
    FlushOnlyMoves(fs, i);
    hide Inv, Enabled, Step, Logical;
  }

  lemma LoadRefines(fs: Fs, i: nat)
    requires Inv(fs) && Enabled(fs, Load(i))
    ensures SameAt(LogicalFiles(Step(fs, Load(i))), FileStep(LogicalFiles(fs), Load(i)), i)
  {
    LoadOnlyRemembers(fs, i);
    LoadStep(fs, i);
    assert fs.nodes[i].nlink > 0;
    hide Inv, Enabled, Step, Logical;
  }

  lemma FreeRefines(fs: Fs, i: nat)
    requires Inv(fs) && Enabled(fs, Free(i))
    ensures SameAt(LogicalFiles(Step(fs, Free(i))), FileStep(LogicalFiles(fs), Free(i)), i)
  {
    FreeOnlyForgets(fs, i);
    IdleSlotHasAName(fs, i);
    hide Inv, Enabled, Step, Logical;
  }

  lemma TruncateRefines(fs: Fs, i: nat, n: nat, t: Time)
    requires Inv(fs) && Enabled(fs, Truncate(i, n, t))
    ensures SameAt(LogicalFiles(Step(fs, Truncate(i, n, t))), FileStep(LogicalFiles(fs), Truncate(i, n, t)), i)
  {
    TruncateStep(fs, i, n, t);
    assert i in fs.open ==> fs.open[i].dirty == map[] && fs.open[i].size == fs.nodes[i].file.size;
    hide Inv, Enabled, Step, TruncateFile;
    CleanIsStored(fs, i);
    CleanIsStored(Step(fs, Truncate(i, n, t)), i);
  }

  lemma CleanIsStored(fs: Fs, i: nat)
    requires i in fs.nodes && (i in fs.open ==> fs.open[i].dirty == map[] && fs.open[i].size == fs.nodes[i].file.size)
    ensures Logical(fs, i) == fs.nodes[i].file
  {
    assert fs.nodes[i].file.rows + map[] == fs.nodes[i].file.rows;
  }

  lemma CreateRefines(fs: Fs, i: nat, kind: FileKind, size: nat, t: Time)
    requires Inv(fs) && Enabled(fs, Create(i, kind, size, t))
    ensures SameAt(LogicalFiles(Step(fs, Create(i, kind, size, t))),
            FileStep(LogicalFiles(fs), Create(i, kind, size, t)), i)
  {
    CreateStep(fs, i, kind, size, t);
    hide Inv, Enabled, Step;
  }

  /** Events that move handles, names, times and inodes, but no data. */
  lemma HandleRefines(fs: Fs, e: Event)
    requires Inv(fs) && Enabled(fs, e) && !e.StopWrites?
    requires !(e.Store? || e.Flush? || e.Load? || e.Free? || e.Truncate? || e.Create?)
    ensures SameAt(LogicalFiles(Step(fs, e)), FileStep(LogicalFiles(fs), e), e.ino)
  {
    if e.Open? || e.Close? || e.Touch? || e.SetTime? || e.LastClose? || e.Delete? {
      hide Inv, Logical, LogicalFiles, FileStep, Step, SameAt;
      KeptFile(fs, e);
    } else {
      hide Inv, Logical, LogicalFiles, FileStep, Step, SameAt;
      NamedFile(fs, e);
    }
  }

  lemma ReachableAt(fs: Fs, i: nat)
    requires Inv(fs)
    ensures i in fs.open ==> i in fs.nodes && (fs.nodes[i].nlink == 0 ==> fs.open[i].refs > 0)
  {
  }

  lemma KeptFile(fs: Fs, e: Event)
    requires Inv(fs) && Enabled(fs, e) && (e.Open? || e.Close? || e.Touch? || e.SetTime? || e.LastClose? || e.Delete?)
    ensures SameAt(LogicalFiles(Step(fs, e)), FileStep(LogicalFiles(fs), e), e.ino)
  {
    ReachableAt(fs, e.ino);
    UnlinkedHasNoName(fs, e.ino);
    hide Inv;
  }

  lemma UnlinkedHasNoName(fs: Fs, i: nat)
    requires Inv(fs)
    ensures i in fs.open ==> i in fs.nodes && (fs.open[i].unlinked <==> fs.nodes[i].nlink == 0)
  {
  }

  lemma NamedFile(fs: Fs, e: Event)
    requires Inv(fs) && Enabled(fs, e) && (e.Link? || e.Unlink? || e.Orphan? || e.Remove?)
    ensures SameAt(LogicalFiles(Step(fs, e)), FileStep(LogicalFiles(fs), e), e.ino)
  {
    hide Inv, Step, Enabled;
    var i := e.ino;
    if e.Link? {
      NameGained(fs, i);
    } else {
      NameLost(fs, e);
      NameGoneStep(fs, i);
    }
  }

  lemma NameGained(fs: Fs, i: nat)
    requires Inv(fs) && Enabled(fs, Link(i))
    ensures i in fs.nodes && fs.nodes[i].nlink > 0
    ensures Step(fs, Link(i)) == SetNode(fs, i, fs.nodes[i].(nlink := fs.nodes[i].nlink + 1))
  {
    hide Inv;
  }

  lemma NameLost(fs: Fs, e: Event)
    requires Inv(fs) && Enabled(fs, e) && (e.Unlink? || e.Orphan? || e.Remove?)
    ensures e.ino in fs.nodes && fs.nodes[e.ino].nlink >= 1 && e == NameGone(fs, e.ino)
  {
    hide Inv;
  }

  ghost function FoldFiles(m: map<nat, File>, log: seq<Event>): map<nat, File> {
    if log == [] then m else FileStep(FoldFiles(m, log[..|log| - 1]), log[|log| - 1])
  }

  /** Whatever is flushed, evicted, freed or reloaded on the way, the files are those of a store
      that applies each piece and each truncation at once. */
  lemma {:induction false} RunRefinesFiles(init: Fs, log: seq<Event>)
    requires IsRun(init, log)
    ensures LogicalFiles(After(init, log)) == FoldFiles(LogicalFiles(init), log)
    decreases |log|
  {
    hide Inv, Enabled, Step, FileStep, LogicalFiles;
    if log != [] {
      var before := log[..|log| - 1];
      PrefixRun(init, log, |log| - 1);
      RunRefinesFiles(init, before);
      RunKeepsInv(init, before);
      StepRefinesFiles(After(init, before), log[|log| - 1]);
    }
  }

  /** The effect of an event on plain byte arrays. */
  function ByteStep(m: map<nat, Blob>, e: Event): map<nat, Blob> {
    match e
    case Create(i, _, size, _) => m[i := Resize([], size)]
    case Store(i, c, start, d) => if i in m then m[i := Splice(m[i], c * CHUNK_SIZE + start, d)] else m
    case Truncate(i, n, _) => if i in m then m[i := Resize(m[i], n)] else m
    case LastClose(i) => m - {i}
    case Remove(i) => m - {i}
    case _ => m
  }

  ghost function FoldBytes(m: map<nat, Blob>, log: seq<Event>): map<nat, Blob> {
    if log == [] then m else ByteStep(FoldBytes(m, log[..|log| - 1]), log[|log| - 1])
  }

  function ContentsOf(m: map<nat, File>): map<nat, Blob> {
    map i | i in m :: Contents(m[i])
  }

  lemma StepRefinesBytes(m: map<nat, File>, e: Event)
    requires (e.Store? || e.Truncate?) && e.ino in m ==> WellFormed(m[e.ino])
    requires e.Store? ==> PieceFits(e.chunk, e.start, e.data)
    requires e.Truncate? ==> e.size <= MAX_FILE_SIZE
    ensures ContentsOf(FileStep(m, e)) == ByteStep(ContentsOf(m), e)
  {
    hide WellFormed, PieceFits, Contents, Splice, Resize;
    var a, b := ContentsOf(FileStep(m, e)), ByteStep(ContentsOf(m), e);
    match e
    case Create(i, _, size, _) => NewFileContents(size);
    case Store(i, c, start, d) =>
      if i in m {
        WritePieceContents(m[i], c, start, d);
      }
    case Truncate(i, n, _) =>
      if i in m {
        TruncateContents(m[i], n);
      }
    case _ =>
  }

  lemma NewFileContents(size: nat)
    ensures Contents(File(size, map[])) == Resize([], size)
  {
  }

  /** Regular files never hold a byte past their size, whether or not they have a slot. */
  lemma LogicalIsWellFormed(fs: Fs, i: nat)
    requires Inv(fs) && i in fs.nodes && fs.nodes[i].kind == RegularFile
    ensures WellFormed(Logical(fs, i))
  {
  }

  /** At every point of every run each reachable inode reads as the plain byte array that the
      writes and truncations so far made of it. */
  lemma {:induction false} RunRefinesBytes(init: Fs, log: seq<Event>)
    requires IsRun(init, log)
    ensures ContentsOf(LogicalFiles(After(init, log))) == FoldBytes(ContentsOf(LogicalFiles(init)), log)
    decreases |log|
  {
    hide Step, FileStep, ByteStep, Contents, WellFormed, NodeOk, SlotOk;
    if log != [] {
      var before, e := log[..|log| - 1], log[|log| - 1];
      var fs := After(init, before);
      PrefixRun(init, log, |log| - 1);
      RunRefinesBytes(init, before);
      RunKeepsInv(init, before);
      assert Enabled(fs, e);
      StepRefinesFiles(fs, e);
      if (e.Store? || e.Truncate?) && e.ino in LogicalFiles(fs) {
        RegularWhenWritten(fs, e);
        LogicalIsWellFormed(fs, e.ino);
      }
      StepRefinesBytes(LogicalFiles(fs), e);
    }
  }

  lemma RegularWhenWritten(fs: Fs, e: Event)
    requires Inv(fs) && Enabled(fs, e) && (e.Store? || e.Truncate?)
    ensures e.ino in fs.nodes && fs.nodes[e.ino].kind == RegularFile
  {
  }

  /* ----- Lifecycle ----- */

  /** A new inode number is in nobody's hands: it has no slot, and the new file reads empty. */
  lemma NewInodeIsFresh(fs: Fs, e: Event)
    requires Inv(fs) && Enabled(fs, e) && e.Create? && e.kind == RegularFile
    ensures e.ino !in fs.open
    ensures e.ino !in LogicalFiles(fs)
    ensures e.ino in LogicalFiles(Step(fs, e)) && Contents(LogicalFiles(Step(fs, e))[e.ino]) == []
  {
    StepRefinesFiles(fs, e);
  }

  ghost predicate Keeps(e: Event, i: nat) {
    e != Event.LastClose(i) && e != Event.Remove(i)
  }

  /** A file stays fully usable through unlinking until its last handle goes: only the last close
      of an unlinked inode, or removing the last name of a closed one, ends it. A slot is marked
      unlinked exactly when its inode has no name, and then it has a handle. */
  lemma {:induction false} FilesEndOnlyWithTheirLastUser(init: Fs, log: seq<Event>, i: nat)
    requires IsRun(init, log)
    requires i in LogicalFiles(init)
    requires forall e :: e in log ==> Keeps(e, i)
    ensures var fs := After(init, log);
            && i in LogicalFiles(fs)
            && (i in fs.open ==> (fs.open[i].unlinked <==> fs.nodes[i].nlink == 0))
            && (fs.nodes[i].nlink == 0 ==> i in fs.open && fs.open[i].refs > 0)
    decreases |log|
  {
    hide FoldFiles;
    RunKeepsInv(init, log);
    FilesKeep(LogicalFiles(init), log, i);
    RunRefinesFiles(init, log);
  }

  lemma {:induction false} FilesKeep(m: map<nat, File>, log: seq<Event>, i: nat)
    requires i in m && forall e :: e in log ==> Keeps(e, i)
    ensures i in FoldFiles(m, log)
    decreases |log|
  {
    if log != [] {
      FilesKeep(m, log[..|log| - 1], i);
      assert log[|log| - 1] in log;
    }
  }

  /* ----- Crash consistency ----- */

  lemma StepStores(fs: Fs, e: Event, i: nat)
    requires Inv(fs) && Enabled(fs, e)
    requires i in Step(fs, e).nodes
    ensures i !in fs.nodes ==> Stored(Step(fs, e), i) == Logical(Step(fs, e), i)
    ensures i in fs.nodes ==>
              || Stored(Step(fs, e), i) == Stored(fs, i)
              || Stored(Step(fs, e), i) == Logical(Step(fs, e), i)
  {
    hide Inv, Enabled, Step;
    if Subject(e) != Some(i) {
      StepIsLocal(fs, e, i);
    } else {
      match e
      case Flush(_) => FlushOnlyMoves(fs, i);
      case Truncate(_, n, t) => TruncateStores(fs, i, n, t);
      case Create(_, kind, size, t) => CreateStores(fs, i, kind, size, t);
      case _ => OthersDoNotStore(fs, e);
    }
  }

  lemma TruncateStores(fs: Fs, i: nat, n: nat, t: Time)
    requires Inv(fs) && Enabled(fs, Truncate(i, n, t))
    ensures i in fs.nodes && i in Step(fs, Truncate(i, n, t)).nodes
    ensures Stored(Step(fs, Truncate(i, n, t)), i) == Logical(Step(fs, Truncate(i, n, t)), i)
  {
    TruncateStep(fs, i, n, t);
    hide Inv, Enabled, Step, TruncateFile;
    CleanIsStored(Step(fs, Truncate(i, n, t)), i);
  }

  lemma CreateStores(fs: Fs, i: nat, kind: FileKind, size: nat, t: Time)
    requires Inv(fs) && Enabled(fs, Create(i, kind, size, t))
    ensures i !in fs.nodes && i in Step(fs, Create(i, kind, size, t)).nodes
    ensures Stored(Step(fs, Create(i, kind, size, t)), i) == Logical(Step(fs, Create(i, kind, size, t)), i)
  {
    CreateStep(fs, i, kind, size, t);
    hide Inv, Enabled, Step;
  }

  lemma OthersDoNotStore(fs: Fs, e: Event)
    requires Inv(fs) && Enabled(fs, e) && !e.StopWrites? && !(e.Flush? || e.Truncate? || e.Create?)
    ensures e.ino in Step(fs, e).nodes ==> e.ino in fs.nodes && Stored(Step(fs, e), e.ino) == Stored(fs, e.ino)
  {
    hide NodeOk, SlotOk;
  }

  /** What is stored of inode `i` after `log` is what it was after its first `k` events, since when
      the inode has existed throughout. */
  ghost predicate StoredSince(init: Fs, log: seq<Event>, i: nat, k: nat) {
    && k <= |log| && i in After(init, log).nodes
    && (forall j :: k <= j <= |log| ==> i in After(init, log[..j]).nodes)
    && Stored(After(init, log), i) == Logical(After(init, log[..k]), i)
  }

  /** What a crash at any moment leaves of a file is what the file was at an earlier point of the
      run. Points lie between pieces, so this holds in the middle of a write too. */
  lemma {:induction false} StoredIsAnEarlierState(init: Fs, log: seq<Event>, i: nat) returns (k: nat)
    requires IsRun(init, log) && init.open == map[] && i in After(init, log).nodes
    ensures StoredSince(init, log, i, k)
    decreases |log|
  {
    if log == [] {
      k := 0;
      assert log[..0] == log;
    } else {
      var n := |log| - 1;
      var fs, e := After(init, log[..n]), log[n];
      PrefixRun(init, log, n);
      RunKeepsInv(init, log[..n]);
      assert Enabled(fs, e);
      hide Inv, Enabled, Step, StoredSince, IsRun;
      StepStores(fs, e, i);
      if i in fs.nodes && Stored(Step(fs, e), i) == Stored(fs, i) {
        k := StoredIsAnEarlierState(init, log[..n], i);
        StoredStill(init, log, i, k);
      } else {
        k := |log|;
        StoredNow(init, log, i);
      }
    }
  }

  lemma StoredStill(init: Fs, log: seq<Event>, i: nat, k: nat)
    requires log != [] && StoredSince(init, log[..|log| - 1], i, k) && i in After(init, log).nodes
    requires Stored(After(init, log), i) == Stored(After(init, log[..|log| - 1]), i)
    ensures StoredSince(init, log, i, k)
  {
    hide After, Logical;
    var n := |log| - 1;
    assert log[..|log|] == log;
    forall j | k <= j <= |log| ensures i in After(init, log[..j]).nodes {
      if j <= n {
        assert log[..n][..j] == log[..j];
      }
    }
    assert log[..n][..k] == log[..k];
  }

  lemma StoredNow(init: Fs, log: seq<Event>, i: nat)
    requires i in After(init, log).nodes && Stored(After(init, log), i) == Logical(After(init, log), i)
    ensures StoredSince(init, log, i, |log|)
  {
    hide After, Logical;
    assert log[..|log|] == log;
  }

  /* ----- Shutdown ----- */

  lemma StepStaysClean(fs: Fs, e: Event)
    requires Inv(fs) && Enabled(fs, e) && fs.closing && AllLinkedClean(fs)
    ensures Step(fs, e).closing && AllLinkedClean(Step(fs, e))
  {
    hide WellFormed, NodeOk, Splice, TruncateRows;
  }

  /** Once writes are refused and every linked file is stored, no later step makes one dirty
      again: what is stored stays what the file is. */
  lemma {:induction false} CleanStaysCleanAfterClosing(init: Fs, log: seq<Event>)
    requires IsRun(init, log) && init.closing && AllLinkedClean(init)
    ensures After(init, log).closing && AllLinkedClean(After(init, log))
    ensures forall i :: i in After(init, log).nodes && After(init, log).nodes[i].nlink > 0 ==>
                          Stored(After(init, log), i) == Logical(After(init, log), i)
    decreases |log|
  {
    hide Enabled, Step, SlotOk, NodeOk;
    RunKeepsInv(init, log);
    if log != [] {
      var before := log[..|log| - 1];
      PrefixRun(init, log, |log| - 1);
      CleanStaysCleanAfterClosing(init, before);
      RunKeepsInv(init, before);
      StepStaysClean(After(init, before), log[|log| - 1]);
    }
    CleanMeansStored(After(init, log));
  }

  lemma CleanMeansStored(fs: Fs)
    requires Inv(fs) && AllLinkedClean(fs)
    ensures forall i :: i in fs.nodes && fs.nodes[i].nlink > 0 ==> Stored(fs, i) == Logical(fs, i)
  {
    hide WellFormed, NodeOk;
    forall i | i in fs.nodes && fs.nodes[i].nlink > 0 ensures Stored(fs, i) == Logical(fs, i) {
      assert fs.nodes[i].file.rows + map[] == fs.nodes[i].file.rows;
    }
  }

  /* ----- Explicit times ----- */

  /** Events that may change what `getattr` reports as size or mtime of inode `i`. */
  ghost predicate SetsAttributes(e: Event, i: nat) {
    Subject(e) == Some(i) &&
    (e.Touch? || e.Store? || e.Truncate? || e.SetTime? || e.Create? || e.Delete? || e.LastClose? || e.Remove?)
  }

  lemma StepKeepsAttributes(fs: Fs, e: Event, i: nat)
    requires Inv(fs) && Enabled(fs, e) && i in fs.nodes && !SetsAttributes(e, i)
    ensures i in Step(fs, e).nodes
    ensures ReportedSize(Step(fs, e), i) == ReportedSize(fs, i)
    ensures ReportedMtime(Step(fs, e), i) == ReportedMtime(fs, i)
  {
    hide WellFormed, NodeOk;
    if Subject(e) != Some(i) {
      hide Step;
      StepIsLocal(fs, e, i);
    }
  }

  /** The size and mtime reported for an inode survive any flush, eviction, close or reload until
      the next write, truncation or setattr of that inode. */
  lemma {:induction false} AttributesSurvive(init: Fs, log: seq<Event>, i: nat)
    requires IsRun(init, log) && i in init.nodes
    requires forall e :: e in log ==> !SetsAttributes(e, i)
    ensures i in After(init, log).nodes
    ensures ReportedSize(After(init, log), i) == ReportedSize(init, i)
    ensures ReportedMtime(After(init, log), i) == ReportedMtime(init, i)
    decreases |log|
  {
    hide Inv, Enabled, Step;
    if log != [] {
      var before := log[..|log| - 1];
      PrefixRun(init, log, |log| - 1);
      AttributesSurvive(init, before, i);
      RunKeepsInv(init, before);
      assert log[|log| - 1] in log;
      StepKeepsAttributes(After(init, before), log[|log| - 1], i);
    }
  }

  /** An explicitly set mtime is reported from then on. */
  lemma ExplicitMtimeSurvives(init: Fs, i: nat, t: Time, log: seq<Event>)
    requires Inv(init) && Enabled(init, SetTime(i, t))
    requires IsRun(Step(init, SetTime(i, t)), log)
    requires forall e :: e in log ==> !SetsAttributes(e, i)
    ensures i in After(Step(init, SetTime(i, t)), log).nodes
    ensures ReportedMtime(After(Step(init, SetTime(i, t)), log), i) == t
    ensures ReportedSize(After(Step(init, SetTime(i, t)), log), i) == ReportedSize(init, i)
  {
    hide After, IsRun, SlotOk, NodeOk;
    AttributesSurvive(Step(init, SetTime(i, t)), log, i);
  }

  /** From one state to the other no inode comes or goes, and only those in `w` may report another time. */
  ghost predicate OnlyDates(before: Fs, after: Fs, w: set<nat>) {
    && after.nodes.Keys == before.nodes.Keys
    && forall j :: j in before.nodes && j !in w ==> ReportedMtime(after, j) == ReportedMtime(before, j)
  }

  lemma OnlyDatesTrans(a: Fs, b: Fs, c: Fs, w: set<nat>, v: set<nat>)
    requires OnlyDates(a, b, w) && OnlyDates(b, c, v)
    ensures OnlyDates(a, c, w + v)
  {
    hide ReportedMtime;
  }

  /** Flushing, freeing and loading date nothing, touching and storing date one file. */
  lemma StepDates(fs: Fs, e: Event, w: set<nat>)
    requires Inv(fs) && Enabled(fs, e) && Step(fs, e).nodes.Keys == fs.nodes.Keys
    requires forall i: nat :: SetsAttributes(e, i) ==> i in w
    ensures OnlyDates(fs, Step(fs, e), w)
  {
    hide Inv, Enabled, Step, SetsAttributes, ReportedMtime, ReportedSize;
    forall j | j in fs.nodes && j !in w ensures ReportedMtime(Step(fs, e), j) == ReportedMtime(fs, j) {
      assert !SetsAttributes(e, j);
      StepKeepsAttributes(fs, e, j);
    }
  }

  /* ----- Fast path equals simple path ----- */

  /** The pieces buffered for inode `i`, in order. */
  function StoresTo(log: seq<Event>, i: nat): seq<Event> {
    if log == [] then []
    else
      var e := log[|log| - 1];
      StoresTo(log[..|log| - 1], i) + if e.Store? && e.ino == i then [e] else []
  }

  lemma {:induction false} StoresToAppend(a: seq<Event>, b: seq<Event>, i: nat)
    ensures StoresTo(a + b, i) == StoresTo(a, i) + StoresTo(b, i)
    decreases |b|
  {
    if b == [] {
      assert a + b == a;
    } else {
      StoresToAppend(a, b[..|b| - 1], i);
      assert (a + b)[..|a + b| - 1] == a + b[..|b| - 1];
    }
  }

  function FoldStores(f: File, stores: seq<Event>): File
    requires forall e :: e in stores ==> e.Store?
  {
    if stores == [] then f
    else
      var e := stores[|stores| - 1];
      assert e in stores;
      WritePiece(FoldStores(f, stores[..|stores| - 1]), e.chunk, e.start, e.data)
  }

  lemma {:induction false} StoresAreStores(log: seq<Event>, i: nat)
    ensures forall e :: e in StoresTo(log, i) ==> e.Store?
    decreases |log|
  {
    if log != [] {
      StoresAreStores(log[..|log| - 1], i);
    }
  }

  /** The pieces of chunks `first..n` of a write to `i`. */
  function Pieces(i: nat, span: ChunkSpan, data: Blob, n: nat): (stores: seq<Event>)
    requires span.Valid() && |data| == span.end - span.start
    requires span.first <= n <= span.last + 1
    ensures forall e :: e in stores ==> e.Store?
    decreases n
  {
    if n == span.first then []
    else Pieces(i, span, data, n - 1) + [Store(i, n - 1, span.Piece(n - 1).chunkStart, PieceData(span, data, n - 1))]
  }

  function WritePieces(i: nat, offset: nat, data: Blob): (stores: seq<Event>)
    requires offset + |data| <= U64_MAX
    ensures forall e :: e in stores ==> e.Store?
  {
    match NewSpan(offset, |data|)
    case None => []
    case Some(span) => Pieces(i, span, data, span.last + 1)
  }

  function AllPieces(i: nat, writes: seq<(nat, Blob)>): (stores: seq<Event>)
    requires forall w :: w in writes ==> w.0 + |w.1| <= U64_MAX
    ensures forall e :: e in stores ==> e.Store?
  {
    if writes == [] then []
    else AllPieces(i, writes[..|writes| - 1]) + WritePieces(i, writes[|writes| - 1].0, writes[|writes| - 1].1)
  }

  lemma {:induction false} FoldStoresAppend(f: File, a: seq<Event>, b: seq<Event>)
    requires forall e :: e in a + b ==> e.Store?
    ensures (forall e :: e in a ==> e.Store?) && (forall e :: e in b ==> e.Store?)
    ensures FoldStores(f, a + b) == FoldStores(FoldStores(f, a), b)
    decreases |b|
  {
    assert forall e :: e in a ==> e in a + b;
    assert forall e :: e in b ==> e in a + b;
    if b == [] {
      assert a + b == a;
    } else {
      var shorter := b[..|b| - 1];
      assert (a + b)[..|a + b| - 1] == a + shorter;
      assert forall e :: e in a + shorter ==> e in a + b;
      FoldStoresAppend(f, a, shorter);
    }
  }

  lemma {:induction false} PiecesFold(f: File, i: nat, span: ChunkSpan, data: Blob, n: nat)
    requires span.Valid() && |data| == span.end - span.start
    requires span.first <= n <= span.last + 1
    ensures FoldStores(f, Pieces(i, span, data, n)) == WriteChunks(f, span, data, n)
    decreases n
  {
    hide WritePiece, PieceData, PieceFits;
    if n > span.first {
      PiecesFold(f, i, span, data, n - 1);
      var stores := Pieces(i, span, data, n);
      assert stores[..|stores| - 1] == Pieces(i, span, data, n - 1);
    }
  }

  lemma {:induction false} AllPiecesFold(f: File, i: nat, writes: seq<(nat, Blob)>)
    requires forall w :: w in writes ==> w.0 + |w.1| <= U64_MAX
    ensures FoldStores(f, AllPieces(i, writes)) == WriteBatch(f, writes)
    decreases |writes|
  {
    if writes != [] {
      var before, w := writes[..|writes| - 1], writes[|writes| - 1];
      AllPiecesFold(f, i, before);
      FoldStoresAppend(f, AllPieces(i, before), WritePieces(i, w.0, w.1));
      if w.1 != [] {
        var span := NewSpan(w.0, |w.1|).value;
        PiecesFold(WriteBatch(f, before), i, span, w.1, span.last + 1);
      }
    }
  }

  ghost predicate KeepsFile(e: Event, i: nat) {
    Subject(e) == Some(i) ==> !(e.Truncate? || e.Create? || e.Delete? || e.LastClose? || e.Remove?)
  }

  lemma {:induction false} LogicalIsItsStores(m: map<nat, File>, log: seq<Event>, i: nat)
    requires i in m && forall e :: e in log ==> KeepsFile(e, i)
    ensures forall e :: e in StoresTo(log, i) ==> e.Store?
    ensures i in FoldFiles(m, log) && FoldFiles(m, log)[i] == FoldStores(m[i], StoresTo(log, i))
    decreases |log|
  {
    hide WritePiece, TruncateFile;
    StoresAreStores(log, i);
    if log != [] {
      var before, e := log[..|log| - 1], log[|log| - 1];
      LogicalIsItsStores(m, before, i);
      assert e in log;
      var stores := StoresTo(log, i);
      if e.Store? && e.ino == i {
        assert stores[..|stores| - 1] == StoresTo(before, i);
      } else {
        assert stores == StoresTo(before, i);
      }
    }
  }

  /** Buffering any writes and having them flushed, however evictions and work on other files fall
      in between, leaves exactly the chunk rows and size that storing them in one batch would. */
  lemma BufferedEqualsBatch(init: Fs, log: seq<Event>, i: nat, writes: seq<(nat, Blob)>)
    requires IsRun(init, log)
    requires i in init.nodes && i !in init.open && init.nodes[i].nlink > 0
    requires forall w :: w in writes ==> w.0 + |w.1| <= U64_MAX
    requires forall e :: e in log ==> KeepsFile(e, i)
    requires StoresTo(log, i) == AllPieces(i, writes)
    requires var fs := After(init, log); i in fs.open ==> fs.open[i].dirty == map[]
    ensures i in After(init, log).nodes
    ensures Stored(After(init, log), i) == WriteBatch(Stored(init, i), writes)
  {
    hide FoldFiles, WriteBatch, NodeOk, WellFormed;
    var fs := After(init, log);
    RunKeepsInv(init, log);
    RunRefinesFiles(init, log);
    LogicalIsItsStores(LogicalFiles(init), log, i);
    AllPiecesFold(Stored(init, i), i, writes);
    assert i in LogicalFiles(fs);
    assert fs.nodes[i].file.rows + map[] == fs.nodes[i].file.rows;
  }
}
