/** The write-back cache in front of the store, as a state and the atomic events that move it.
    One event is one database transaction or one change of the open-inode table. */
module CacheModel {
  import opened Basics
  import opened Chunking
  import opened Files
  import opened Model

  /** Nanoseconds since the epoch. */
  type Time = int

  /** The stored side of an inode that is not a directory. */
  datatype Node = Node(kind: FileKind, nlink: int, mtime: Time, file: File)

  /** The buffered side: one live slot of the open-inode table. */
  datatype OpenFile = OpenFile(kind: FileKind, size: nat, mtime: Time, refs: nat, unlinked: bool, dirty: Rows)

  datatype Fs = Fs(nodes: map<nat, Node>, open: map<nat, OpenFile>, closing: bool)

  datatype Event =
    | Load(ino: nat)                                        // a slot is made from the stored inode
    | Open(ino: nat)                                        // one more handle
    | Close(ino: nat)                                       // one handle less
    | LastClose(ino: nat)                                   // last handle of an unlinked inode: slot dropped
    | Delete(ino: nat)                                      // an inode without names is deleted
    | Touch(ino: nat, time: Time)                           // a write begins
    | Store(ino: nat, chunk: nat, start: nat, data: Blob)   // one piece is buffered
    | Flush(ino: nat)                                       // dirty chunks, size and mtime committed
    | Free(ino: nat)                                        // a slot nothing needs goes away
    | Truncate(ino: nat, size: nat, time: Time)
    | SetTime(ino: nat, time: Time)
    | Create(ino: nat, kind: FileKind, size: nat, time: Time)
    | Link(ino: nat)
    | Unlink(ino: nat)                                      // a name goes, others remain
    | Orphan(ino: nat)                                      // the last name of an open inode goes
    | Remove(ino: nat)                                      // the last name of a closed inode goes
    | StopWrites                                            // shutdown has started

  /* ----- What is stored and what is meant ----- */

  function Logical(fs: Fs, ino: nat): File
    requires ino in fs.nodes
  {
    if ino in fs.open then File(fs.open[ino].size, fs.nodes[ino].file.rows + fs.open[ino].dirty)
    else fs.nodes[ino].file
  }

  function Stored(fs: Fs, ino: nat): File
    requires ino in fs.nodes
  {
    fs.nodes[ino].file
  }

  /** An inode someone can still reach, by a name or by a handle. */
  predicate Reachable(fs: Fs, ino: nat) {
    ino in fs.nodes && (fs.nodes[ino].nlink > 0 || ino in fs.open)
  }

  /** The simple file system the cache stands for. */
  function LogicalFiles(fs: Fs): map<nat, File> {
    map ino | ino in fs.nodes && Reachable(fs, ino) :: Logical(fs, ino)
  }

  function ReportedSize(fs: Fs, ino: nat): nat
    requires ino in fs.nodes
  {
    if ino in fs.open then fs.open[ino].size else fs.nodes[ino].file.size
  }

  function ReportedMtime(fs: Fs, ino: nat): Time
    requires ino in fs.nodes
  {
    if ino in fs.open && fs.open[ino].dirty != map[] then fs.open[ino].mtime else fs.nodes[ino].mtime
  }

  /* ----- Invariant ----- */

  ghost predicate NodeOk(n: Node) {
    && n.kind != Directory
    && n.nlink >= 0
    && if n.kind == RegularFile then WellFormed(n.file) else n.file.rows == map[]
  }

  /** A dirty chunk is at least as long as the row it shadows, no byte lies past the size, a clean
      slot has the stored size, and `unlinked` marks the open inodes without a name. */
  ghost predicate SlotOk(n: Node, o: OpenFile) {
    && o.kind == n.kind
    && (o.unlinked <==> n.nlink == 0)
    && (o.unlinked ==> o.refs > 0)
    && (o.dirty == map[] ==> o.size == n.file.size)
    && (o.kind != RegularFile ==> o.dirty == map[])
    && n.file.size <= o.size
    && (o.kind == RegularFile ==> WellFormed(File(o.size, n.file.rows + o.dirty)))
    && forall c :: c in o.dirty && c in n.file.rows ==> |n.file.rows[c]| <= |o.dirty[c]|
  }

  ghost predicate Inv(fs: Fs) {
    && (forall i :: i in fs.nodes ==> NodeOk(fs.nodes[i]))
    && (forall i :: i in fs.open ==> i in fs.nodes && SlotOk(fs.nodes[i], fs.open[i]))
  }

  /** Every inode with a name has nothing buffered. */
  ghost predicate AllLinkedClean(fs: Fs) {
    forall i :: i in fs.open && !fs.open[i].unlinked ==> fs.open[i].dirty == map[]
  }

  /** Handles to an inode. */
  function Refs(fs: Fs, i: nat): nat {
    if i in fs.open then fs.open[i].refs else 0
  }

  predicate IsIdle(fs: Fs, i: nat) {
    i in fs.open && fs.open[i].refs == 0 && fs.open[i].dirty == map[]
  }

  /** Every live slot has a handle or something buffered. */
  ghost predicate NoIdleSlot(fs: Fs) {
    forall i :: i in fs.open ==> !IsIdle(fs, i)
  }

  /** The same but for one slot, that of the running operation. */
  ghost predicate OthersNeeded(fs: Fs, i: nat) {
    forall j :: j in fs.open && j != i ==> !IsIdle(fs, j)
  }

  /* ----- Steps ----- */

  ghost predicate Enabled(fs: Fs, e: Event) {
    match e
    case Load(i) => i in fs.nodes && i !in fs.open && fs.nodes[i].nlink > 0
    case Open(i) => i in fs.open
    case Close(i) => i in fs.open && fs.open[i].refs > 0 && (fs.open[i].unlinked ==> fs.open[i].refs > 1)
    case LastClose(i) => i in fs.open && fs.open[i].refs == 1 && fs.open[i].unlinked
    case Delete(i) => i in fs.nodes && i !in fs.open && fs.nodes[i].nlink == 0
    case Touch(i, _) => i in fs.open && fs.open[i].kind == RegularFile && !fs.closing
    case Store(i, c, start, d) =>
      i in fs.open && fs.open[i].kind == RegularFile && !fs.closing && PieceFits(c, start, d)
    case Flush(i) => i in fs.open && fs.open[i].dirty != map[]
    case Free(i) => i in fs.open && fs.open[i].refs == 0 && fs.open[i].dirty == map[]
    case Truncate(i, n, _) =>
      && i in fs.nodes && fs.nodes[i].kind == RegularFile && n <= MAX_FILE_SIZE
      && (i in fs.open ==> fs.open[i].dirty == map[])
    case SetTime(i, _) => i in fs.nodes && (i in fs.open ==> fs.open[i].dirty == map[])
    case Create(i, kind, size, _) => i !in fs.nodes && kind != Directory && (kind == RegularFile ==> size == 0)
    case Link(i) => i in fs.nodes && fs.nodes[i].nlink > 0
    case Unlink(i) => i in fs.nodes && fs.nodes[i].nlink > 1
    case Orphan(i) => i in fs.open && i in fs.nodes && fs.nodes[i].nlink == 1 && fs.open[i].refs > 0
    case Remove(i) => i in fs.nodes && fs.nodes[i].nlink == 1 && (i in fs.open ==> fs.open[i].refs == 0)
    case StopWrites => true
  }

  /** The chunk a write sees: the buffered one, else the stored row. */
  function Seen(fs: Fs, ino: nat, c: nat): Blob
    requires ino in fs.nodes && ino in fs.open
  {
    RowOf(fs.nodes[ino].file.rows + fs.open[ino].dirty, c)
  }

  ghost function Step(fs: Fs, e: Event): Fs {
    if !(Inv(fs) && Enabled(fs, e)) then fs else
    match e
    case Load(i) =>
      fs.(open := fs.open[i := OpenFile(fs.nodes[i].kind, fs.nodes[i].file.size, 0, 0, false, map[])])
    case Open(i) => SetSlot(fs, i, fs.open[i].(refs := fs.open[i].refs + 1))
    case Close(i) => SetSlot(fs, i, fs.open[i].(refs := fs.open[i].refs - 1))
    case LastClose(i) => DropSlot(fs, i)
    case Delete(i) => DropNode(fs, i)
    case Touch(i, t) => SetSlot(fs, i, fs.open[i].(mtime := t))
    case Store(i, c, start, d) =>
      SetSlot(fs, i, fs.open[i].(size := Max(fs.open[i].size, c * CHUNK_SIZE + start + |d|),
                                 dirty := fs.open[i].dirty[c := Splice(Seen(fs, i, c), start, d)]))
    case Flush(i) =>
      SetNode(SetSlot(fs, i, fs.open[i].(dirty := map[])), i,
              fs.nodes[i].(file := Logical(fs, i), mtime := fs.open[i].mtime))
    case Free(i) => DropSlot(fs, i)
    case Truncate(i, n, t) =>
      var g := SetNode(fs, i, fs.nodes[i].(file := TruncateFile(fs.nodes[i].file, n), mtime := t));
      if i in fs.open then SetSlot(g, i, fs.open[i].(size := n)) else g
    case SetTime(i, t) => SetNode(fs, i, fs.nodes[i].(mtime := t))
    case Create(i, kind, size, t) => SetNode(fs, i, Node(kind, 1, t, File(size, map[])))
    case Link(i) => SetNode(fs, i, fs.nodes[i].(nlink := fs.nodes[i].nlink + 1))
    case Unlink(i) => SetNode(fs, i, fs.nodes[i].(nlink := fs.nodes[i].nlink - 1))
    case Orphan(i) =>
      SetSlot(SetNode(fs, i, fs.nodes[i].(nlink := 0)), i, fs.open[i].(unlinked := true))
    case Remove(i) => DropNode(DropSlot(fs, i), i)
    case StopWrites => fs.(closing := true)
  }

  function SetSlot(fs: Fs, i: nat, o: OpenFile): Fs { fs.(open := fs.open[i := o]) }

  function DropSlot(fs: Fs, i: nat): Fs { fs.(open := fs.open - {i}) }

  function SetNode(fs: Fs, i: nat, n: Node): Fs { fs.(nodes := fs.nodes[i := n]) }

  function DropNode(fs: Fs, i: nat): Fs { fs.(nodes := fs.nodes - {i}) }

  /** The state after a sequence of events. */
  ghost function After(init: Fs, log: seq<Event>): Fs {
    if log == [] then init else Step(After(init, log[..|log| - 1]), log[|log| - 1])
  }

  /** Every event was enabled when it happened. */
  ghost predicate IsRun(init: Fs, log: seq<Event>) {
    Inv(init) && forall k :: 0 <= k < |log| ==> Enabled(After(init, log[..k]), log[k])
  }

  lemma ExtendRun(init: Fs, log: seq<Event>, e: Event)
    ensures After(init, log + [e]) == Step(After(init, log), e)
    ensures IsRun(init, log) && Enabled(After(init, log), e) ==> IsRun(init, log + [e])
  {
    var more := log + [e];
    assert more[..|log|] == log;
    if IsRun(init, log) && Enabled(After(init, log), e) {
      forall k | 0 <= k < |more| ensures Enabled(After(init, more[..k]), more[k]) {
        if k < |log| {
          assert more[..k] == log[..k];
        }
      }
    }
  }

  lemma PrefixRun(init: Fs, log: seq<Event>, k: nat)
    requires IsRun(init, log) && k <= |log|
    ensures IsRun(init, log[..k])
  {
    forall j | 0 <= j < k ensures Enabled(After(init, log[..k][..j]), log[..k][j]) {
      assert log[..k][..j] == log[..j];
    }
  }

  /* ----- The invariant is kept ----- */

  lemma StoreKeepsSlot(n: Node, o: OpenFile, c: nat, start: nat, d: Blob)
    requires NodeOk(n) && SlotOk(n, o) && o.kind == RegularFile && PieceFits(c, start, d)
    ensures var row := Splice(RowOf(n.file.rows + o.dirty, c), start, d);
            var o' := o.(size := Max(o.size, c * CHUNK_SIZE + start + |d|), dirty := o.dirty[c := row]);
            && SlotOk(n, o')
            && File(o'.size, n.file.rows + o'.dirty) == WritePiece(File(o.size, n.file.rows + o.dirty), c, start, d)
  {
    var f := File(o.size, n.file.rows + o.dirty);
    WritePieceIsWellFormed(f, c, start, d);
    hide WellFormed;
    var row := Splice(RowOf(f.rows, c), start, d);
    assert n.file.rows + o.dirty[c := row] == f.rows[c := row];
  }

  lemma EmptyFileIsWellFormed()
    ensures WellFormed(File(0, map[]))
  {
  }

  lemma CleanSlotOk(n: Node, o: OpenFile)
    requires NodeOk(n) && o.kind == n.kind && o.size == n.file.size && o.dirty == map[]
    requires (o.unlinked <==> n.nlink == 0) && (o.unlinked ==> o.refs > 0)
    ensures SlotOk(n, o)
  {
    assert n.file.rows + map[] == n.file.rows;
  }

  function Subject(e: Event): Option<nat> {
    if e.StopWrites? then None else Some(e.ino)
  }

  /** An event changes the inode it names and no other. */
  lemma StepIsLocal(fs: Fs, e: Event, j: nat)
    requires Subject(e) != Some(j)
    ensures j in Step(fs, e).nodes <==> j in fs.nodes
    ensures j in fs.nodes ==> Step(fs, e).nodes[j] == fs.nodes[j]
    ensures j in Step(fs, e).open <==> j in fs.open
    ensures j in fs.open ==> Step(fs, e).open[j] == fs.open[j]
  {
    hide Inv, Enabled;
  }

  ghost predicate InvAt(fs: Fs, i: nat) {
    && (i in fs.nodes ==> NodeOk(fs.nodes[i]))
    && (i in fs.open ==> i in fs.nodes && SlotOk(fs.nodes[i], fs.open[i]))
  }

  lemma DataStepKeepsInv(fs: Fs, e: Event)
    requires Inv(fs) && Enabled(fs, e)
    requires e.Store? || e.Flush? || e.Truncate? || e.Load? || e.Create?
    ensures InvAt(Step(fs, e), e.ino)
  {
    hide Inv, InvAt, Step, Enabled;
    match e
    case Store(i, c, start, d) => StoreKeepsInvAt(fs, i, c, start, d);
    case Flush(i) => FlushKeepsInvAt(fs, i);
    case Truncate(i, n, t) => TruncateKeepsInvAt(fs, i, n, t);
    case Load(i) => LoadKeepsInvAt(fs, i);
    case Create(i, kind, size, t) => CreateKeepsInvAt(fs, i, kind, size, t);
    case _ =>
  }

  lemma StoreKeepsInvAt(fs: Fs, i: nat, c: nat, start: nat, d: Blob)
    requires Inv(fs) && Enabled(fs, Store(i, c, start, d))
    ensures InvAt(Step(fs, Store(i, c, start, d)), i)
  {
    StoreKeepsSlot(fs.nodes[i], fs.open[i], c, start, d);
    StoreStep(fs, i, c, start, d);
    hide Step, Enabled, NodeOk, SlotOk, Splice, WritePiece, RowOf, PieceFits;
  }

  lemma FlushKeepsInvAt(fs: Fs, i: nat)
    requires Inv(fs) && Enabled(fs, Flush(i))
    ensures InvAt(Step(fs, Flush(i)), i)
  {
    FlushStep(fs, i);
    hide Step, Enabled, WellFormed;
    var g := Step(fs, Flush(i));
    assert NodeOk(g.nodes[i]);
    CleanSlotOk(g.nodes[i], g.open[i]);
  }

  lemma TruncateKeepsInvAt(fs: Fs, i: nat, n: nat, t: Time)
    requires Inv(fs) && Enabled(fs, Truncate(i, n, t))
    ensures InvAt(Step(fs, Truncate(i, n, t)), i)
  {
    TruncateStep(fs, i, n, t);
    TruncateContents(fs.nodes[i].file, n);
    hide Step, Enabled, WellFormed, TruncateRows;
    var g := Step(fs, Truncate(i, n, t));
    if i in fs.open {
      CleanSlotOk(g.nodes[i], g.open[i]);
    }
  }

  lemma LoadKeepsInvAt(fs: Fs, i: nat)
    requires Inv(fs) && Enabled(fs, Load(i))
    ensures InvAt(Step(fs, Load(i)), i)
  {
    LoadStep(fs, i);
    hide Step, Enabled, WellFormed;
    var g := Step(fs, Load(i));
    CleanSlotOk(g.nodes[i], g.open[i]);
  }

  lemma CreateKeepsInvAt(fs: Fs, i: nat, kind: FileKind, size: nat, t: Time)
    requires Inv(fs) && Enabled(fs, Create(i, kind, size, t))
    ensures InvAt(Step(fs, Create(i, kind, size, t)), i)
  {
    CreateStep(fs, i, kind, size, t);
    EmptyFileIsWellFormed();
    hide Step, Enabled, WellFormed;
  }

  lemma OtherStepKeepsInv(fs: Fs, e: Event)
    requires Inv(fs) && Enabled(fs, e)
    requires !(e.Store? || e.Flush? || e.Truncate? || e.Load? || e.Create? || e.StopWrites?)
    ensures InvAt(Step(fs, e), e.ino)
  {
    hide WellFormed, Splice, TruncateRows, RowOf;
  }

  lemma StepKeepsInv(fs: Fs, e: Event)
    requires Inv(fs) && Enabled(fs, e)
    ensures Inv(Step(fs, e))
  {
    hide NodeOk, SlotOk, Enabled;
    var g := Step(fs, e);
    if e.Store? || e.Flush? || e.Truncate? || e.Load? || e.Create? {
      DataStepKeepsInv(fs, e);
    } else if !e.StopWrites? {
      OtherStepKeepsInv(fs, e);
    }
    hide Step;
    forall j: nat | Subject(e) != Some(j) ensures InvAt(g, j) {
      StepIsLocal(fs, e, j);
    }
    forall i: nat ensures InvAt(g, i) {
      assert Subject(e) == Some(i) || Subject(e) != Some(i);
    }
  }

  lemma {:induction false} RunKeepsInv(init: Fs, log: seq<Event>)
    requires IsRun(init, log)
    ensures Inv(After(init, log))
    decreases |log|
  {
    if log != [] {
      PrefixRun(init, log, |log| - 1);
      RunKeepsInv(init, log[..|log| - 1]);
      StepKeepsInv(After(init, log[..|log| - 1]), log[|log| - 1]);
    }
  }

  /* ----- Single events, spelled out ----- */

  lemma OpenStep(fs: Fs, i: nat)
    requires Inv(fs) && i in fs.open
    ensures Enabled(fs, Open(i)) && Step(fs, Open(i)) == SetSlot(fs, i, fs.open[i].(refs := fs.open[i].refs + 1))
  {
    hide Inv;
  }

  lemma CloseStep(fs: Fs, i: nat)
    requires Inv(fs) && i in fs.open && fs.open[i].refs > 0 && (fs.open[i].unlinked ==> fs.open[i].refs > 1)
    ensures Enabled(fs, Close(i)) && Step(fs, Close(i)) == SetSlot(fs, i, fs.open[i].(refs := fs.open[i].refs - 1))
  {
    hide Inv;
  }

  lemma LastCloseStep(fs: Fs, i: nat)
    requires Inv(fs) && i in fs.open && fs.open[i].refs == 1 && fs.open[i].unlinked
    ensures Enabled(fs, LastClose(i)) && Step(fs, LastClose(i)) == DropSlot(fs, i)
    ensures i in fs.nodes && fs.nodes[i].nlink == 0 && fs.nodes[i].kind != Directory
  {
    hide WellFormed;
  }

  lemma DeleteStep(fs: Fs, i: nat)
    requires Inv(fs) && i in fs.nodes && i !in fs.open && fs.nodes[i].nlink == 0
    ensures Enabled(fs, Delete(i)) && Step(fs, Delete(i)) == DropNode(fs, i)
  {
    hide Inv;
  }

  lemma FreeStep(fs: Fs, i: nat)
    requires Inv(fs) && i in fs.open && fs.open[i].refs == 0 && fs.open[i].dirty == map[]
    ensures Enabled(fs, Free(i)) && Step(fs, Free(i)) == DropSlot(fs, i)
  {
    hide Inv;
  }

  lemma LoadStep(fs: Fs, i: nat)
    requires Inv(fs) && i in fs.nodes && i !in fs.open && fs.nodes[i].nlink > 0
    ensures Enabled(fs, Load(i))
    ensures Step(fs, Load(i)) == SetSlot(fs, i, OpenFile(fs.nodes[i].kind, fs.nodes[i].file.size, 0, 0, false, map[]))
  {
    hide Inv;
  }

  lemma TouchStep(fs: Fs, i: nat, t: Time)
    requires Inv(fs) && i in fs.open && fs.open[i].kind == RegularFile && !fs.closing
    ensures Enabled(fs, Touch(i, t)) && Step(fs, Touch(i, t)) == SetSlot(fs, i, fs.open[i].(mtime := t))
  {
    hide Inv;
  }

  lemma StoreStep(fs: Fs, i: nat, c: nat, start: nat, d: Blob)
    requires Inv(fs) && i in fs.open && i in fs.nodes && fs.open[i].kind == RegularFile && !fs.closing
             && PieceFits(c, start, d)
    ensures Enabled(fs, Store(i, c, start, d))
    ensures Step(fs, Store(i, c, start, d)) ==
            SetSlot(fs, i, fs.open[i].(size := Max(fs.open[i].size, c * CHUNK_SIZE + start + |d|),
                                       dirty := fs.open[i].dirty[c := Splice(Seen(fs, i, c), start, d)]))
    ensures Logical(Step(fs, Store(i, c, start, d)), i) == WritePiece(Logical(fs, i), c, start, d)
  {
    StoreKeepsSlot(fs.nodes[i], fs.open[i], c, start, d);
    hide Inv, SlotOk, NodeOk, Splice;
  }

  lemma TruncateStep(fs: Fs, i: nat, n: nat, t: Time)
    requires Inv(fs) && i in fs.nodes && fs.nodes[i].kind == RegularFile && n <= MAX_FILE_SIZE
    requires i in fs.open ==> fs.open[i].dirty == map[]
    ensures Enabled(fs, Truncate(i, n, t))
    ensures var g := SetNode(fs, i, fs.nodes[i].(file := TruncateFile(fs.nodes[i].file, n), mtime := t));
            Step(fs, Truncate(i, n, t)) == if i in fs.open then SetSlot(g, i, fs.open[i].(size := n)) else g
  {
    hide Inv;
  }

  lemma SetTimeStep(fs: Fs, i: nat, t: Time)
    requires Inv(fs) && i in fs.nodes && (i in fs.open ==> fs.open[i].dirty == map[])
    ensures Enabled(fs, SetTime(i, t)) && Step(fs, SetTime(i, t)) == SetNode(fs, i, fs.nodes[i].(mtime := t))
  {
    hide Inv;
  }

  lemma FlushStep(fs: Fs, i: nat)
    requires Inv(fs) && i in fs.open && fs.open[i].dirty != map[]
    ensures Enabled(fs, Flush(i)) && i in fs.nodes
    ensures Step(fs, Flush(i)) ==
            SetNode(SetSlot(fs, i, fs.open[i].(dirty := map[])), i,
                    fs.nodes[i].(file := Logical(fs, i), mtime := fs.open[i].mtime))
  {
    hide NodeOk, SlotOk;
  }

  lemma CreateStep(fs: Fs, i: nat, kind: FileKind, size: nat, t: Time)
    requires Inv(fs) && i !in fs.nodes && kind != Directory && (kind == RegularFile ==> size == 0)
    ensures Enabled(fs, Create(i, kind, size, t))
    ensures Step(fs, Create(i, kind, size, t)) == SetNode(fs, i, Node(kind, 1, t, File(size, map[])))
    ensures i !in fs.open
  {
    hide NodeOk, SlotOk;
  }

  lemma LinkStep(fs: Fs, i: nat)
    requires Inv(fs) && i in fs.nodes && fs.nodes[i].nlink > 0
    ensures Enabled(fs, Link(i)) && Step(fs, Link(i)) == SetNode(fs, i, fs.nodes[i].(nlink := fs.nodes[i].nlink + 1))
  {
    hide Inv;
  }

  /** What losing one name means for an inode: it has others, it stays for its handles, or it goes. */
  function NameGone(fs: Fs, i: nat): Event
    requires i in fs.nodes
  {
    if fs.nodes[i].nlink > 1 then Unlink(i) else if Refs(fs, i) > 0 then Orphan(i) else Remove(i)
  }

  lemma NameGoneStep(fs: Fs, i: nat)
    requires Inv(fs) && i in fs.nodes && fs.nodes[i].nlink >= 1
    ensures Enabled(fs, NameGone(fs, i))
    ensures var g := Step(fs, NameGone(fs, i));
            && g.nodes == (if fs.nodes[i].nlink > 1 || Refs(fs, i) > 0
               then fs.nodes[i := fs.nodes[i].(nlink := fs.nodes[i].nlink - 1)]
                           else fs.nodes - {i})
            && g.open == (if fs.nodes[i].nlink > 1 then fs.open
                          else if Refs(fs, i) > 0 then fs.open[i := fs.open[i].(unlinked := true)]
                          else fs.open - {i})
  {
    hide Inv;
  }

  lemma StopWritesStep(fs: Fs)
    requires Inv(fs)
    ensures Enabled(fs, StopWrites) && Step(fs, StopWrites) == fs.(closing := true) && Inv(Step(fs, StopWrites))
  {
    hide NodeOk, SlotOk;
  }

  /* ----- Runs put together ----- */

  lemma {:induction false} AfterAppend(init: Fs, a: seq<Event>, b: seq<Event>)
    ensures After(init, a + b) == After(After(init, a), b)
    decreases |b|
  {
    hide Step;
    if b == [] {
      assert a + b == a;
    } else {
      AfterAppend(init, a, b[..|b| - 1]);
      assert (a + b)[..|a + b| - 1] == a + b[..|b| - 1];
    }
  }

  /** The later part of a run is a run of its own. */
  lemma SuffixRun(init: Fs, a: seq<Event>, b: seq<Event>)
    requires IsRun(init, a + b)
    ensures IsRun(After(init, a), b) && After(init, a + b) == After(After(init, a), b)
  {
    hide Enabled, Step, Inv;
    assert (a + b)[..|a|] == a;
    PrefixRun(init, a + b, |a|);
    RunKeepsInv(init, a);
    AfterAppend(init, a, b);
    forall k | 0 <= k < |b| ensures Enabled(After(After(init, a), b[..k]), b[k]) {
      AfterAppend(init, a, b[..k]);
      assert (a + b)[..|a| + k] == a + b[..k];
      assert (a + b)[|a| + k] == b[k];
    }
  }
}
