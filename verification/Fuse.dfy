/** The file system operations: a write-back chunk cache in front of the store. */
module Fuse {
  import opened Basics
  import opened Chunking
  import opened Files
  import opened Model
  import opened CacheModel
  import opened CacheTheorems
  import opened Arena
  import opened OpenTable
  import opened TableModel
  import opened Database
  import opened Operations
  import opened Timestamps
  import Tables
  import Namespace

  class Shared {
    const db: Db
    const inodes: OpenInodes
    const handles: Handles
    const arena: ChunkArena
    /** Agrees with `model.closing`: once true, no `Store` is enabled. */
    var closing: bool
    /** What `FlushForShutdown` or `Destroy` answered last. */
    var lastFlush: Reply<()>

    /** Where this mount began, what has happened since, and the state that makes. */
    ghost const init: Fs
    ghost var log: seq<Event>
    ghost var model: Fs
    ghost var owner: Owners

    /** Every slot's reference count is the number of handles that map to it. */
    ghost predicate RefsOk()
      reads inodes`refs, handles
    {
      forall s: Slot :: handles.Count(s) == if s < |inodes.refs| then inodes.refs[s] else 0
    }

    /** The arrays, the handles and the arena agree, and the arrays stand for these open files;
        `limbo` holds arena slots in the hands of the running operation. */
    ghost predicate Table(open: map<nat, OpenFile>, limbo: set<ArenaSlot>)
      reads this`owner, arena, inodes, inodes.dirty, handles
    {
      && arena.Valid() && inodes.Valid() && handles.Valid()
      && OwnersOk(inodes.Entries(), owner, arena.FreeSet(), |arena.len|, limbo)
      && RefsOk()
      && OpenTied(open, inodes.byIno, inodes.Rows(), inodes.Entries(), arena.Chunks())
    }

    /** The ghost state is the outcome of a run of the cache. */
    ghost predicate History()
      reads this`log, this`model, this`closing
    {
      Inv(model) && IsRun(init, log) && model == After(init, log) && model.closing == closing && init.open == map[]
    }

    /** Everything but the tables of open files. */
    ghost predicate Base()
      reads this`log, this`model, this`closing, db
    {
      db.Valid() && model.nodes == db.Nodes() && History()
    }

    ghost predicate ValidWith(limbo: set<ArenaSlot>)
      reads this`owner, this`log, this`model, this`closing, db, arena, inodes, inodes.dirty, handles
    {
      Base() && Table(model.open, limbo)
    }

    ghost predicate Valid()
      reads this`owner, this`log, this`model, this`closing, db, arena, inodes, inodes.dirty, handles
    {
      ValidWith({})
    }

    /** A mount over a store whose files are in order; the buffer holds at least one chunk. */
    constructor (store: Db, budget: nat)
      requires store.Valid() && forall i :: i in store.Nodes() ==> NodeOk(store.Nodes()[i])
      ensures Valid() && db == store && log == [] && model == init == Fs(store.Nodes(), map[], false)
      ensures fresh(inodes) && fresh(handles) && fresh(arena) && arena.maxSlots == Max(budget / CHUNK_SIZE, 1)
      ensures lastFlush == Done(())
    {
      db := store;
      inodes := new OpenInodes();
      handles := new Handles();
      arena := new ChunkArena(budget);
      closing := false;
      lastFlush := Done(());
      init := Fs(store.Nodes(), map[], false);
      model := Fs(store.Nodes(), map[], false);
      log, owner := [], map[];
    }

    /** The answers that tell of a failing store; a store that never fails gives none. */
    predicate StoreFails(e: Errno) {
      !db.healthy && IsStorageErrno(e)
    }

    /** What a live slot stands for. */
    lemma LiveFacts(slot: Slot, open: map<nat, OpenFile>, limbo: set<ArenaSlot>)
      requires Table(open, limbo) && inodes.Live(slot)
      ensures inodes.SameLengths() && arena.Valid() && inodes.Valid() && Injective(inodes.byIno)
      ensures var i := inodes.ino[slot];
              && i in inodes.byIno && inodes.byIno[i] == slot
              && i in open && inodes.Row(slot) == RowOfFile(open[i])
              && DirtyIs(open[i].dirty, inodes.dirty[slot].entries, arena.Chunks())
              && (open[i].dirty == map[] <==> inodes.dirty[slot].entries == [])
      ensures SortedByChunk(inodes.dirty[slot].entries)
      ensures forall k :: 0 <= k < |inodes.dirty[slot].entries| ==> inodes.dirty[slot].entries[k].1 < |arena.len|
    {
      IndexIsInjective(inodes.ino, inodes.byIno, inodes.free);
      EmptyIffClean(open[inodes.ino[slot]].dirty, inodes.dirty[slot].entries, arena.Chunks());
      OwnedAreDistinct(inodes.Entries(), owner, arena.FreeSet(), |arena.len|, limbo, slot);
    }

    /** Notes that an event has happened. */
    ghost method Record(e: Event)
      requires History() && Enabled(model, e) && !e.StopWrites?
      modifies this`log, this`model
      ensures History() && log == old(log) + [e] && model == Step(old(model), e)
    {
      ExtendRun(init, log, e);
      StepKeepsInv(model, e);
      StepKeepsClosing(model, e);
      log := log + [e];
      model := Step(model, e);
    }

    /** The chunk list a flush stores: the dirty chunks of a slot, in order. */
    method DirtyChunks(slot: Slot) returns (chunks: seq<(nat, Blob)>)
      requires arena.Valid() && slot < |inodes.dirty|
      requires forall k :: 0 <= k < |inodes.dirty[slot].entries| ==> inodes.dirty[slot].entries[k].1 < |arena.len|
      ensures |chunks| == |inodes.dirty[slot].entries|
      ensures forall k :: 0 <= k < |chunks| ==>
                            chunks[k] == (inodes.dirty[slot].entries[k].0, arena.Chunk(inodes.dirty[slot].entries[k].1))
    {
      chunks := [];
      var entries := inodes.dirty[slot].entries;
      var k := 0;
      while k < |entries|
        invariant 0 <= k <= |entries| && |chunks| == k
        invariant forall j :: 0 <= j < k ==> chunks[j] == (entries[j].0, arena.Chunk(entries[j].1))
      {
        chunks := chunks + [(entries[k].0, arena.Chunk(entries[k].1))];
        k := k + 1;
      }
    }

    /** Empties the dirty index of a slot into the arena's free list. */
    method ReleaseDirty(slot: Slot, ghost open: map<nat, OpenFile>)
      requires Table(open, {}) && inodes.Live(slot)
      modifies this`owner, arena`free, inodes.dirty[slot]
      ensures inodes.ino[slot] in open
      ensures Table(open[inodes.ino[slot] := open[inodes.ino[slot]].(dirty := map[])], {})
      ensures inodes.dirty[slot].entries == []
      ensures |arena.free| == |old(arena.free)| + |old(inodes.dirty[slot].entries)|
    {
      hide Table, OwnersOk, DirtyIs, OpenTied, RefsOk, DropOwned, SlotsOf, Injective, SortedByChunk, OpenInodes.Valid,
           ChunkArena.Valid, Handles.Valid, OpenInodes.Rows, ChunkArena.FreeSet, ChunkArena.Chunks;
      LiveFacts(slot, open, {});
      ReleaseFacts(slot, open);
      inodes.ReleaseDirty(slot, arena);
      owner := DropOwned(owner, slot);
      TableFrom(open[inodes.ino[slot] := open[inodes.ino[slot]].(dirty := map[])], {});
    }

    /** What emptying the index of a slot will leave, and that it may be emptied. */
    lemma ReleaseFacts(slot: Slot, open: map<nat, OpenFile>)
      requires Table(open, {}) && inodes.Live(slot)
      ensures inodes.Valid() && inodes.SameLengths() && arena.Valid() && handles.Valid() && RefsOk()
      ensures inodes.ino[slot] in open
      ensures var entries := inodes.Entries();
              && (forall k :: 0 <= k < |entries[slot]| ==>
                    entries[slot][k].1 < |arena.len| && entries[slot][k].1 !in arena.FreeSet())
              && (forall j, k :: 0 <= j < k < |entries[slot]| ==> entries[slot][j].1 != entries[slot][k].1)
              && OwnersOk(entries[slot := []], DropOwned(owner, slot), arena.FreeSet() + SlotsOf(entries[slot]),
                          |arena.len|, {})
              && OpenTied(open[inodes.ino[slot] := open[inodes.ino[slot]].(dirty := map[])], inodes.byIno,
                          inodes.Rows(), entries[slot := []], arena.Chunks())
    {
      hide OwnersOk, DirtyIs, OpenTied, RefsOk, DropOwned, SlotsOf, Injective, OpenInodes.Valid, ChunkArena.Valid,
           Handles.Valid, OpenInodes.Rows, ChunkArena.FreeSet, ChunkArena.Chunks;
      LiveFacts(slot, open, {});
      OwnedAreDistinct(inodes.Entries(), owner, arena.FreeSet(), |arena.len|, {}, slot);
      ReleaseKeepsOwners(inodes.Entries(), owner, arena.FreeSet(), |arena.len|, slot);
      ReleaseKeepsTie(open, inodes.byIno, inodes.Rows(), inodes.Entries(), arena.Chunks(), inodes.ino[slot]);
    }

    lemma TableFrom(open: map<nat, OpenFile>, limbo: set<ArenaSlot>)
      requires arena.Valid() && inodes.Valid() && handles.Valid() && RefsOk()
      requires OwnersOk(inodes.Entries(), owner, arena.FreeSet(), |arena.len|, limbo)
      requires OpenTied(open, inodes.byIno, inodes.Rows(), inodes.Entries(), arena.Chunks())
      ensures Table(open, limbo)
    {
    }

    /** The store is what flushing inode `ino` makes of it; the buffered side has yet to follow. */
    ghost predicate Committed(ino: nat)
      reads this`model, db
    {
      && ino in model.open && Enabled(model, Flush(ino))
      && db.Nodes() == Step(model, Flush(ino)).nodes
      && Step(model, Flush(ino)).open == model.open[ino := model.open[ino].(dirty := map[])]
    }

    /** Commits the dirty chunks of a slot, with its size and mtime. */
    method CommitDirty(slot: Slot, i: nat) returns (stored: Result<()>)
      requires slot < |inodes.ino| == |inodes.dirty| && inodes.ino[slot] == i
      requires Valid() && inodes.Live(slot) && inodes.dirty[slot].entries != []
      modifies db
      ensures Tables.SameTree(old(db.tables), db.tables)
      ensures db.Valid() && (stored.Ok? ==> Committed(i))
      ensures TriedOne(old(db.attempts), db.attempts, i,
                       if stored.Ok? then Done(()) else Fail(ErrnoOf(stored.error)))
      ensures stored.Err? ==>
                && db.MayFail(stored.error) && db.tables == old(db.tables)
                && db.Nodes() == old(db.Nodes())
    {
      hide Tables.DirsOf, IsRun, After, Step, Enabled, DirtyIs, Table, Tables.NodesOf, Tables.NsOf, Tables.RowsOf,
           Tables.UpsertAll, Db.Valid, ChunkArena.Valid, OpenInodes.Valid, Injective, SortedByChunk, NodeOk, SlotOk;
      LiveFacts(slot, model.open, {});
      var chunks := DirtyChunks(slot);
      FlushStores(db.tables, model, i, chunks, inodes.dirty[slot].entries, arena.Chunks());
      stored := db.ReplaceChunks(i, inodes.size[slot], chunks, inodes.mtime[slot]);
    }

    /** Commits the dirty chunks of a slot and empties its index. */
    method StoreSlot(slot: Slot) returns (r: Reply<()>)
      requires slot < |inodes.ino| == |inodes.dirty|
      requires Valid() && inodes.Live(slot) && inodes.dirty[slot].entries != []
      modifies this`log, this`model, this`owner, db, arena`free, inodes.dirty[slot]
      ensures Tables.SameTree(old(db.tables), db.tables)
      ensures Valid() && TriedOne(old(db.attempts), db.attempts, inodes.ino[slot], r)
      ensures r.Done? ==>
                && Enabled(old(model), Flush(inodes.ino[slot])) && log == old(log) + [Flush(inodes.ino[slot])]
                && model == Step(old(model), Flush(inodes.ino[slot]))
      ensures r.Done? ==> inodes.dirty[slot].entries == [] && |arena.free| > |old(arena.free)|
      ensures r.Fail? ==>
                && log == old(log) && model == old(model) && arena.free == old(arena.free)
                && inodes.dirty[slot].entries == old(inodes.dirty[slot].entries)
      ensures r.Fail? ==> StoreFails(r.errno) && db.tables == old(db.tables)
    {
      hide Tables.DirsOf, TriedOne, Committed, Step, Enabled, Table, Db.Valid, Db.Nodes, Inv, IsRun, After, DirtyIs,
           OpenInodes.Valid, ChunkArena.Valid, Injective, SortedByChunk, OpenInodes.Row, ChunkArena.Chunks;
      LiveFacts(slot, model.open, {});
      var stored := CommitDirty(slot, inodes.ino[slot]);
      if stored.Err? {
        return Fail(ErrnoOf(stored.error));
      }
      EmptyStored(slot);
      return Done(());
    }

    /** Empties the dirty index of a slot whose chunks have just been committed. */
    method EmptyStored(slot: Slot)
      requires slot < |inodes.ino| == |inodes.dirty|
      requires db.Valid() && History() && Table(model.open, {}) && inodes.Live(slot) && inodes.dirty[slot].entries != []
      requires Committed(inodes.ino[slot])
      modifies this`log, this`model, this`owner, arena`free, inodes.dirty[slot]
      ensures Valid()
      ensures Enabled(old(model), Flush(inodes.ino[slot])) && log == old(log) + [Flush(inodes.ino[slot])]
              && model == Step(old(model), Flush(inodes.ino[slot]))
      ensures inodes.dirty[slot].entries == [] && |arena.free| > |old(arena.free)|
    {
      hide Step, Enabled, Table, Db.Valid, Db.Nodes, Inv, IsRun, After, OpenInodes.Valid, ChunkArena.Valid;
      NotOpenNotIndexed(model.open, {}, 0);
      ReleaseDirty(slot, model.open);
      Record(Flush(inodes.ino[slot]));
    }

    /** The event `Flush` if `MustStore` holds and the store agrees. Otherwise no event: nothing was due,
        or the commit was refused and the slot is as before. */
    method FlushSlot(slot: Slot, unlinked: Unlinked) returns (r: Reply<()>)
      requires Valid() && inodes.Live(slot)
      modifies this`log, this`model, this`owner, db, arena`free, inodes.dirty[slot]
      ensures Tables.SameTree(old(db.tables), db.tables)
      ensures Valid() && Tries(old(db.attempts), db.attempts, old(model), inodes.ino[slot], unlinked, r)
      ensures Nothing(old(inodes.dirty[slot].entries), inodes.unlinked[slot], unlinked) ==> r.Done?
      ensures Nothing(old(inodes.dirty[slot].entries), inodes.unlinked[slot], unlinked) || r.Fail? ==>
                log == old(log) && model == old(model) && arena.free == old(arena.free)
                && inodes.dirty[slot].entries == old(inodes.dirty[slot].entries)
      ensures !Nothing(old(inodes.dirty[slot].entries), inodes.unlinked[slot], unlinked) && r.Done? ==>
                && Enabled(old(model), Flush(inodes.ino[slot])) && log == old(log) + [Flush(inodes.ino[slot])]
                && model == Step(old(model), Flush(inodes.ino[slot]))
                && inodes.dirty[slot].entries == [] && |arena.free| > |old(arena.free)|
      ensures r.Fail? ==> StoreFails(r.errno) && db.tables == old(db.tables)
    {
      hide Tables.DirsOf, Inv, IsRun, After, Step, Enabled, DirtyIs, Table, History, Db.Valid, ChunkArena.Valid,
           OpenInodes.Valid;
      LiveFacts(slot, model.open, {});
      if inodes.dirty[slot].entries == [] || (inodes.unlinked[slot] && unlinked == Skip) {
        return Done(());
      }
      r := StoreSlot(slot);
    }

    /** Takes a clean slot without handles out of the table. */
    method RemoveSlot(slot: Slot, ghost open: map<nat, OpenFile>)
      requires Table(open, {}) && inodes.Live(slot) && inodes.Valid()
      requires inodes.dirty[slot].entries == [] && inodes.refs[slot] == 0
      modifies inodes`byIno, inodes`refs, inodes`unlinked, inodes`free
      ensures inodes.ino[slot] in open && Table(open - {inodes.ino[slot]}, {})
      ensures inodes.byIno == old(inodes.byIno) - {inodes.ino[slot]}
      ensures forall s: nat :: s != slot ==> (inodes.Live(s) <==> old(inodes.Live(s)))
      ensures !inodes.Live(slot)
    {
      hide OwnersOk, DirtyIs, OpenTied, Injective, SortedByChunk, OpenInodes.Valid, ChunkArena.Valid, Handles.Valid;
      LiveFacts(slot, open, {});
      ghost var i, row := inodes.ino[slot], inodes.Row(slot).(refs := 0, unlinked := false);
      DropKeepsTie(open, inodes.byIno, inodes.Rows(), inodes.Entries(), arena.Chunks(), i, row, inodes.Entries()[slot]);
      inodes.Remove(slot);
      assert inodes.Entries() == old(inodes.Entries())[slot := old(inodes.Entries())[slot]];
    }

    /** The event `Free` if the slot is idle, and no event otherwise. */
    method FreeIfIdle(slot: Slot)
      requires Valid() && inodes.Live(slot)
      modifies this`log, this`model, inodes`byIno, inodes`refs, inodes`unlinked, inodes`free
      ensures Valid()
      ensures IsIdle(old(model), inodes.ino[slot]) ==>
                && Enabled(old(model), Free(inodes.ino[slot])) && log == old(log) + [Free(inodes.ino[slot])]
                && model == Step(old(model), Free(inodes.ino[slot]))
                && !inodes.Live(slot) && inodes.byIno == old(inodes.byIno) - {inodes.ino[slot]}
      ensures !IsIdle(old(model), inodes.ino[slot]) ==>
                log == old(log) && model == old(model) && inodes.byIno == old(inodes.byIno)
      ensures forall s: nat :: s != slot ==> (inodes.Live(s) <==> old(inodes.Live(s)))
    {
      hide Table, Db.Valid, Db.Nodes, IsRun, After, DirtyIs, OpenInodes.Valid, ChunkArena.Valid, Injective,
           SortedByChunk;
      LiveFacts(slot, model.open, {});
      if inodes.refs[slot] == 0 && inodes.dirty[slot].entries == [] {
        RemoveSlot(slot, model.open);
        Record(Free(inodes.ino[slot]));
      }
    }

    /** Removes a slot that has no references and gives its chunks back to the arena; the tables are
        not touched. */
    method DiscardSlot(slot: Slot, ghost open: map<nat, OpenFile>)
      requires Table(open, {}) && inodes.Live(slot) && inodes.Valid() && inodes.refs[slot] == 0
      modifies this`owner, arena`free, inodes.dirty[slot], inodes`byIno, inodes`refs, inodes`unlinked, inodes`free
      ensures inodes.ino[slot] in open && Table(open - {inodes.ino[slot]}, {})
      ensures inodes.byIno == old(inodes.byIno) - {inodes.ino[slot]}
      ensures forall s: nat :: s != slot ==> (inodes.Live(s) <==> old(inodes.Live(s)))
      ensures !inodes.Live(slot)
    {
      hide Table, DirtyIs, ChunkArena.Valid, OpenInodes.Valid, Injective, SortedByChunk;
      LiveFacts(slot, open, {});
      ghost var i := inodes.ino[slot];
      ReleaseDirty(slot, open);
      ghost var cleared := open[i := open[i].(dirty := map[])];
      LiveFacts(slot, cleared, {});
      RemoveSlot(slot, cleared);
      assert cleared - {i} == open - {i};
    }

    /** One more reference and the handle for it. */
    method AddHandle(slot: Slot, ghost open: map<nat, OpenFile>) returns (fh: nat)
      requires Table(open, {}) && inodes.Live(slot) && inodes.ino[slot] in open
      modifies inodes`refs, handles
      ensures Table(open[inodes.ino[slot] := open[inodes.ino[slot]].(refs := open[inodes.ino[slot]].refs + 1)], {})
      ensures handles.Get(fh) == Some(slot) && old(handles.Get(fh)).None?
      ensures forall h: nat :: h != fh ==> handles.Get(h) == old(handles.Get(h))
    {
      hide OwnersOk, DirtyIs, OpenTied, ChunkArena.Valid, Injective, SortedByChunk, OpenInodes.Valid, Handles.Valid,
           Handles.Count, Handles.Get, OpenInodes.Entries;
      LiveFacts(slot, open, {});
      ghost var i := inodes.ino[slot];
      RowChangeKeepsTie(open, inodes.byIno, inodes.Rows(), inodes.Entries(), arena.Chunks(), i,
          open[i].(refs := open[i].refs + 1));
      inodes.SetRefs(slot, inodes.refs[slot] + 1);
      fh := handles.Alloc(slot);
    }

    /** Adds a handle to a slot and returns it. */
    method OpenSlot(slot: Slot) returns (fh: nat)
      requires Valid() && inodes.Live(slot)
      modifies this`log, this`model, inodes`refs, handles
      ensures Valid()
      ensures Enabled(old(model), Event.Open(inodes.ino[slot])) && log == old(log) + [Event.Open(inodes.ino[slot])]
      ensures model == Step(old(model), Event.Open(inodes.ino[slot]))
      ensures handles.Get(fh) == Some(slot) && old(handles.Get(fh)).None?
      ensures forall h: nat :: h != fh ==> handles.Get(h) == old(handles.Get(h))
    {
      hide Table, Db.Valid, Db.Nodes, Inv, Step, Enabled, IsRun, After, DirtyIs, ChunkArena.Valid, OpenInodes.Valid,
           Handles.Valid, Injective, SortedByChunk;
      LiveFacts(slot, model.open, {});
      OpenStep(model, inodes.ino[slot]);
      fh := AddHandle(slot, model.open);
      Record(Event.Open(inodes.ino[slot]));
    }

    /** A new slot for an inode that has none. */
    method AddSlot(i: nat, kind: FileKind, size: nat, ghost open: map<nat, OpenFile>) returns (slot: Slot)
      requires Table(open, {}) && i !in open
      modifies inodes
      ensures Table(open[i := OpenFile(kind, size, 0, 0, false, map[])], {})
      ensures inodes.Live(slot) && inodes.ino[slot] == i && inodes.byIno == old(inodes.byIno)[i := slot]
      ensures forall s: nat :: s != slot ==> (inodes.Live(s) <==> old(inodes.Live(s)))
      ensures inodes.dirty == old(inodes.dirty)
              || (inodes.dirty == old(inodes.dirty) + [inodes.dirty[slot]] && fresh(inodes.dirty[slot]))
    {
      hide OwnersOk, DirtyIs, OpenTied, ChunkArena.Valid, OpenInodes.Valid, Handles.Valid;
      NotOpenNotIndexed(open, {}, i);
      ghost var rows, entries, byIno := inodes.Rows(), inodes.Entries(), inodes.byIno;
      slot := inodes.Insert(i, kind, size);
      if inodes.dirty != old(inodes.dirty) {
        NewSlotKeepsOwners(entries, owner, arena.FreeSet(), |arena.len|);
        assert inodes.Entries() == entries + [[]];
      } else {
        assert inodes.Entries() == entries;
      }
      LoadKeepsTie(open, byIno, rows, entries, arena.Chunks(), i, slot, OpenFile(kind, size, 0, 0, false, map[]),
                   inodes.Rows(), inodes.Entries());
    }

    lemma NotOpenNotIndexed(open: map<nat, OpenFile>, limbo: set<ArenaSlot>, i: nat)
      requires Table(open, limbo)
      ensures i in open <==> i in inodes.byIno
      ensures forall j :: j in inodes.byIno ==> inodes.Live(inodes.byIno[j])
      ensures inodes.Valid() && inodes.SameLengths()
    {
    }

    /** The slot of an inode, made from the store if it has none. */
    method SlotFor(i: nat) returns (r: Reply<Slot>)
      requires Valid()
      requires i in model.open || i !in db.tables.inodes || (i in model.nodes && model.nodes[i].nlink > 0)
      modifies this`log, this`model, inodes
      ensures Valid()
      ensures r.Fail? ==> log == old(log) && model == old(model) && i !in model.open
      ensures r.Fail? ==> StoreFails(r.errno) || (r.errno == ENOENT && i !in db.tables.inodes)
      ensures r.Done? ==> inodes.Live(r.value) && inodes.ino[r.value] == i
      ensures r.Done? && i in old(model.open) ==> log == old(log) && model == old(model)
      ensures r.Done? && i !in old(model.open) ==>
                Enabled(old(model), Load(i)) && log == old(log) + [Load(i)] && model == Step(old(model), Load(i))
      ensures fresh(set d | d in inodes.dirty && d !in old(inodes.dirty))
    {
      hide Table, Db.Valid, History, Inv, Step, Enabled, Tables.NodesOf, OpenInodes.Valid;
      NotOpenNotIndexed(model.open, {}, i);
      var found := inodes.Find(i);
      if found.Some? {
        IndexedIsLive(model.open, {}, i);
        return Done(found.value);
      }
      var head := db.InodeHead(i);
      if head.Err? {
        return Fail(ErrnoOf(head.error));
      }
      NodeHead(db.tables, i);
      var slot := LoadSlot(i, head.value.0, head.value.1);
      return Done(slot);
    }

    /** A slot for a stored inode. */
    method LoadSlot(i: nat, kind: FileKind, size: nat) returns (slot: Slot)
      requires Valid() && i !in model.open && i in model.nodes && model.nodes[i].nlink > 0
      requires model.nodes[i].kind == kind && model.nodes[i].file.size == size
      modifies this`log, this`model, inodes
      ensures Valid() && inodes.Live(slot) && inodes.ino[slot] == i
      ensures Enabled(old(model), Load(i)) && log == old(log) + [Load(i)] && model == Step(old(model), Load(i))
      ensures fresh(set d | d in inodes.dirty && d !in old(inodes.dirty))
    {
      hide Table, Db.Valid, Db.Nodes, Inv, Step, Enabled, IsRun, After, OpenInodes.Valid;
      LoadStep(model, i);
      slot := AddSlot(i, kind, size, model.open);
      Record(Load(i));
    }

    ghost predicate EmptyChunk(a: ArenaSlot)
      reads arena
    {
      arena.Valid() && a < |arena.len| && arena.Chunk(a) == []
    }

    /** An empty arena slot, put in the hands of the caller. */
    method TakeArenaSlot(ghost open: map<nat, OpenFile>) returns (r: Option<ArenaSlot>)
      requires Table(open, {})
      modifies arena
      ensures r.None? <==> old(arena.free) == [] && |old(arena.len)| == arena.maxSlots
      ensures r.None? ==> Table(open, {}) && arena.free == [] && arena.FreeSet() == {} && |arena.len| >= 1
      ensures r.Some? ==> Table(open, {r.value}) && EmptyChunk(r.value)
      ensures r.Some? && old(arena.free) != [] ==> |arena.free| == |old(arena.free)| - 1
    {
      hide OwnersOk, DirtyIs, OpenTied, OpenInodes.Valid, Handles.Valid;
      NotOpenNotIndexed(open, {}, 0);
      ghost var chunks, free, n := arena.Chunks(), arena.FreeSet(), |arena.len|;
      ghost var wasFree := arena.free;
      r := arena.Alloc();
      if r.Some? {
        TakenFromFree(wasFree, arena.free, r.value, n);
        if wasFree == [] {
          assert free == {} && arena.FreeSet() == {};
        }
        AllocKeepsOwners(inodes.Entries(), owner, free, n, r.value, arena.FreeSet(), |arena.len|);
        NotOwned(inodes.Entries(), owner, free, n, r.value);
        OtherChunksKeepTie(open, inodes.byIno, inodes.Rows(), inodes.Entries(), owner, free, n, {}, chunks,
            arena.Chunks());
      } else {
        assert arena.FreeSet() == free && arena.Chunks() == chunks;
      }
    }

    /** With the arena full, some live slot has something to flush. */
    lemma SomeVictim(open: map<nat, OpenFile>)
      requires Table(open, {}) && arena.FreeSet() == {} && |arena.len| >= 1
      ensures inodes.Valid() && inodes.SameLengths()
      ensures exists s: Slot :: inodes.Live(s) && inodes.dirty[s].entries != []
    {
      FullArenaHasAVictim(inodes.Entries(), owner, arena.FreeSet(), |arena.len|);
      var s :| 0 <= s < |inodes.Entries()| && inodes.Entries()[s] != [];
      assert inodes.Live(s);
    }

    lemma LiveIsIndexed(open: map<nat, OpenFile>, limbo: set<ArenaSlot>, s: Slot, t: Slot)
      requires Table(open, limbo) && inodes.Live(s) && inodes.Live(t) && s != t
      ensures inodes.ino[s] != inodes.ino[t]
    {
    }

    /** What reading a live slot may rely on. */
    lemma ReadFacts(slot: Slot)
      requires Valid() && inodes.Live(slot)
      ensures inodes.SameLengths()
      ensures var i := inodes.ino[slot];
              && i in model.open && i in model.nodes && i <= MAX_INO
              && NodeOk(model.nodes[i]) && SlotOk(model.nodes[i], model.open[i])
              && model.open[i].size == inodes.size[slot] && model.open[i].kind == inodes.kind[slot]
              && model.nodes[i].file.rows == Tables.RowsOf(db.tables.chunks, i)
              && i in db.tables.inodes && db.tables.inodes[i].kind == inodes.kind[slot]
              && (inodes.kind[slot] == RegularFile ==> inodes.size[slot] <= MAX_FILE_SIZE)
      ensures DirtyIs(model.open[inodes.ino[slot]].dirty, inodes.dirty[slot].entries, arena.Chunks())
      ensures SortedByChunk(inodes.dirty[slot].entries) && arena.Valid()
    {
      LiveFacts(slot, model.open, {});
      NodeHead(db.tables, inodes.ino[slot]);
    }

    /** Copies buffered chunks over the bytes of a read. */
    method Overlay(span: ChunkSpan, entries: seq<DirtyEntry>, ghost d: Rows, out: array<byte>)
      requires arena.Valid() && span.Valid() && out.Length == span.end - span.start && SortedByChunk(entries)
      requires forall k :: 0 <= k < |entries| ==>
                             && span.first <= entries[k].0 <= span.last && entries[k].0 in d
                             && entries[k].1 < |arena.len|
                             && d[entries[k].0] == arena.Chunk(entries[k].1)
      requires forall c :: c in d && span.first <= c <= span.last ==>
                 exists k :: 0 <= k < |entries| && entries[k].0 == c
      modifies out
      ensures forall k :: 0 <= k < out.Length ==> out[k] == OverlaidByte(d, span.start, k, old(out[k]))
    {
      hide ChunkArena.Valid;
      forall k: nat | k < out.Length ensures span.first <= ChunkOf(span.start, k) <= span.last {
        EveryByteInOnePiece(span, k, span.first);
      }
      var j := 0;
      ghost var bound := span.first;
      while j < |entries|
        invariant 0 <= j <= |entries|
        invariant forall k :: 0 <= k < j ==> entries[k].0 < bound
        invariant forall k :: j <= k < |entries| ==> entries[k].0 >= bound
        invariant forall k :: 0 <= k < out.Length ==>
                                out[k] == if ChunkOf(span.start, k) < bound
                                    then OverlaidByte(d, span.start, k, old(out[k])) else old(out[k])
      {
        CopyOut(span, entries[j].0, arena.Chunk(entries[j].1), out);
        bound := entries[j].0 + 1;
        j := j + 1;
      }
    }

    /** `n` bytes of a file with a slot: the stored bytes with the buffered chunks on top. */
    method ReadMerged(slot: Slot, offset: nat, n: nat, ghost ino: nat) returns (r: Result<Blob>)
      requires Valid() && inodes.Live(slot) && inodes.ino[slot] == ino && n > 0 && offset + n <= U64_MAX
      ensures r.Err? ==> db.MayFail(r.error)
      ensures r.Ok? ==> ino in model.nodes && |r.value| == n
                        && forall k :: 0 <= k < n ==> r.value[k] == ByteAt(Logical(model, ino).rows, offset + k)
    {
      hide Table, Base, Inv, NodeOk, SlotOk, DirtyIs, Tables.RowsOf, ByteAt, OverlaidByte, ChunkArena.Valid,
           OpenInodes.Valid;
      ReadFacts(slot);
      var output := new byte[n](_ => 0);
      var read := db.ReadInto(inodes.ino[slot], offset, output);
      if read.Err? {
        return Err(read.error);
      }
      ghost var below := output[..];
      StoredBytes(model.nodes[ino].file.rows, offset, below);
      var span := NewSpan(offset, n).value;
      var entries := inodes.dirty[slot].Range(span.first, span.last);
      RangeCovers(model.open[ino].dirty, inodes.dirty[slot].entries, arena.Chunks(), entries, span.first, span.last);
      Overlay(span, entries, model.open[ino].dirty, output);
      OverlaidAll(model.nodes[ino], model.open[ino], offset, below, output[..]);
      return Ok(output[..]);
    }

    /** Reads through a slot. */
    method ReadSlot(slot: Slot, offset: nat, size: nat, ghost ino: nat) returns (r: Reply<Blob>)
      requires Valid() && inodes.Live(slot) && inodes.ino[slot] == ino
      ensures ReadOutcome(ino, offset, size, r)
    {
      hide Table, Base, Inv, NodeOk, SlotOk, DirtyIs, Contents, Tables.RowsOf, ByteAt, ChunkArena.Valid,
           OpenInodes.Valid;
      ReadFacts(slot);
      if RegularFileError(inodes.kind[slot]).Some? {
        return Fail(ErrnoOf(RegularFileError(inodes.kind[slot]).value));
      }
      var fileSize := inodes.size[slot];
      if offset >= fileSize || size == 0 {
        NothingToRead(Logical(model, ino), offset, size);
        return Done([]);
      }
      var read := ReadMerged(slot, offset, Min(size, fileSize - offset), ino);
      if read.Err? {
        return Fail(ErrnoOf(read.error));
      }
      WindowIsByteAt(Logical(model, ino), offset, size, read.value);
      return Done(read.value);
    }

    /** What any read answers: the bytes of the logical file, or why not. */
    ghost predicate ReadOutcome(ino: nat, offset: nat, size: nat, r: Reply<Blob>)
      reads this`model, db
    {
      match r
      case Done(bytes) => ino in model.nodes && model.nodes[ino].kind == RegularFile
                          && bytes == Window(Contents(Logical(model, ino)), offset, size)
      case Fail(errno) =>
        || StoreFails(errno)
        || (errno == ENOENT && ino !in db.tables.inodes)
        || (ino in db.tables.inodes && RegularFileError(db.tables.inodes[ino].kind).Some?
            && errno == ErrnoOf(RegularFileError(db.tables.inodes[ino].kind).value))
    }

    /** The inode of a live slot whose index no other exceeds in length. */
    ghost predicate IsMostDirty(i: nat)
      reads inodes, inodes.dirty
    {
      exists v: Slot :: inodes.MostDirty(v) && inodes.ino[v] == i
    }

    /** Reserves an arena slot. At most one commit is tried, and only if the arena is full; the answer
        is `Fail` exactly if that commit is refused, so a full arena always has a victim and the
        victim always frees a slot. */
    method AllocChunk(writing: Slot, ghost ino: nat) returns (r: Reply<ArenaSlot>, ghost evicted: seq<Event>)
      requires Valid() && inodes.Live(writing) && inodes.ino[writing] == ino
      modifies this`log, this`model, this`owner, db, arena, inodes.dirty, inodes`byIno, inodes`refs, inodes`unlinked,
               inodes`free
      ensures Tables.SameTree(old(db.tables), db.tables)
      ensures r.Fail? ==> Valid() && log == old(log) && model == old(model)
      ensures r.Fail? ==>
                && old(arena.free) == [] && |old(arena.len)| == arena.maxSlots
                && exists i :: old(IsMostDirty(i)) && TriedOne(old(db.attempts), db.attempts, i, Fail(r.errno))
      ensures r.Done? && evicted == [] ==> db.attempts == old(db.attempts)
      ensures r.Done? && evicted != [] ==>
                && evicted[0].Flush? && old(IsMostDirty(evicted[0].ino))
                && TriedOne(old(db.attempts), db.attempts, evicted[0].ino, Done(()))
      ensures r.Done? ==> ValidWith({r.value}) && EmptyChunk(r.value)
      ensures r.Done? ==>
                && Evicts(old(model), evicted, ino) && log == old(log) + evicted
                && model == After(old(model), evicted)
      ensures r.Done? && evicted != [] ==> old(arena.free) == [] && |old(arena.len)| == arena.maxSlots
      ensures inodes.Live(writing)
      ensures r.Fail? ==> StoreFails(r.errno)
    {
      hide IsMostDirty, OpenInodes.MostDirty, OpenInodes.Live, Tables.DirsOf, Table, Base, Inv, Step, Enabled, After,
           OpenInodes.Valid, ChunkArena.Valid, Evicts, IsIdle, EmptyChunk;
      evicted := [];
      AfterNothing(model);
      assert log == log + [];
      while true
        invariant Valid() && inodes.Live(writing) && Tables.SameTree(old(db.tables), db.tables)
        invariant log == old(log) + evicted && model == After(old(model), evicted)
        invariant evicted == [] || (|arena.free| > 0 && Evicts(old(model), evicted, ino))
        invariant evicted != [] ==> old(arena.free) == [] && |old(arena.len)| == arena.maxSlots
        invariant evicted == [] ==> forall i: nat :: IsMostDirty(i) ==> old(IsMostDirty(i))
        invariant evicted == [] ==>
                    && arena.free == old(arena.free) && arena.len == old(arena.len)
                    && db.attempts == old(db.attempts)
        invariant evicted != [] ==>
                    && evicted[0].Flush? && old(IsMostDirty(evicted[0].ino))
                    && TriedOne(old(db.attempts), db.attempts, evicted[0].ino, Done(()))
        invariant |inodes.dirty| == old(|inodes.dirty|)
        decreases if evicted == [] then 1 else 0
      {
        var a := TakeArenaSlot(model.open);
        if a.Some? {
          NoEviction(old(model), ino);
          return Done(a.value), evicted;
        }
        var flushed;
        ghost var victim;
        flushed, evicted, victim := EvictLargest(writing, ino);
        if flushed.Fail? {
          return Fail(flushed.errno), [];
        }
      }
    }

    lemma VictimMustStore(v: Slot)
      requires Valid() && inodes.Live(v) && inodes.dirty[v].entries != []
      ensures MustStore(model, inodes.ino[v], Persist)
    {
      hide Base, OwnersOk, DirtyIs;
      LiveFacts(v, model.open, {});
    }

    /** Commits `victim`, a live slot whose index no other exceeds in length. */
    method EvictLargest(writing: Slot, ghost ino: nat)
        returns (r: Reply<()>, ghost evicted: seq<Event>, ghost victim: Slot)
      requires Valid() && inodes.Live(writing) && inodes.ino[writing] == ino && arena.FreeSet() == {}
               && |arena.len| >= 1
      modifies this`log, this`model, this`owner, db, arena`free, inodes.dirty, inodes`byIno, inodes`refs,
               inodes`unlinked, inodes`free
      ensures Tables.SameTree(old(db.tables), db.tables)
      ensures Valid() && inodes.Live(writing)
      ensures old(inodes.MostDirty(victim)) && old(IsMostDirty(inodes.ino[victim]))
      ensures TriedOne(old(db.attempts), db.attempts, old(inodes.ino[victim]), r)
      ensures r.Fail? ==> log == old(log) && model == old(model) && StoreFails(r.errno)
      ensures r.Done? ==>
                && evicted != [] && evicted[0] == Flush(old(inodes.ino[victim]))
                && Evicts(old(model), evicted, ino) && |arena.free| > 0
                && log == old(log) + evicted && model == After(old(model), evicted)
    {
      hide Tables.DirsOf, TriedOne, MustStore, Table, Base, Inv, Step, Enabled, After, OpenInodes.Valid,
           ChunkArena.Valid, Evicts, IsIdle;
      evicted := [];
      SomeVictim(model.open);
      var largest := inodes.LargestDirty();
      var v := largest.value;
      victim := v;
      VictimMustStore(v);
      ghost var i, was := inodes.ino[v], model;
      r := FlushSlot(v, Persist);
      if r.Fail? {
        return;
      }
      evicted := [Flush(i)];
      if v != writing {
        LiveIsIndexed(model.open, {}, v, writing);
        ghost var idle := IsIdle(model, i);
        FreeIfIdle(v);
        evicted := if idle then [Flush(i), Free(i)] else [Flush(i)];
      }
      AfterEviction(was, i);
      EvictionIs(was, evicted, i, ino);
    }

    /** Frees an arena slot that no index took. */
    method GiveBack(a: ArenaSlot, ghost open: map<nat, OpenFile>)
      requires Table(open, {a})
      modifies arena`free
      ensures Table(open, {})
    {
      hide DirtyIs, OpenTied, OpenInodes.Valid, Handles.Valid;
      GiveBackKeepsOwners(inodes.Entries(), owner, arena.FreeSet(), |arena.len|, a);
      hide OwnersOk;
      InLimbo(arena.FreeSet(), a, arena.free);
      arena.Release(a);
    }

    /** Loads a stored row into an arena slot in hand. */
    method FillFromStore(a: ArenaSlot, row: Blob, ghost open: map<nat, OpenFile>)
      requires Table(open, {a}) && arena.Valid() && a < |arena.len| && |row| <= CHUNK_SIZE
      modifies arena`bytes, arena`len
      ensures Table(open, {a}) && arena.Valid() && a < |arena.len| && arena.Chunk(a) == row
    {
      hide DirtyIs, OpenTied, OpenInodes.Valid, Handles.Valid;
      NotOpenNotIndexed(open, {a}, 0);
      ghost var chunks := arena.Chunks();
      arena.Fill(a, row);
      arena.SetLen(a, |row|);
      assert a !in owner;
      OtherChunksKeepTie(open, inodes.byIno, inodes.Rows(), inodes.Entries(), owner, arena.FreeSet(), |arena.len|,
          {a}, chunks, arena.Chunks());
      hide OwnersOk;
    }

    /** An arena slot holding the stored chunk, or nothing when all of it will be overwritten. */
    method StageChunk(slot: Slot, ino: nat, c: nat, full: bool) returns (r: Reply<ArenaSlot>, ghost evicted: seq<Event>)
      requires Valid() && inodes.Live(slot) && inodes.ino[slot] == ino && c < MAX_CHUNKS
      modifies this`log, this`model, this`owner, db, arena, inodes.dirty, inodes`byIno, inodes`refs, inodes`unlinked,
               inodes`free
      ensures Tables.SameTree(old(db.tables), db.tables)
      ensures Evicts(old(model), evicted, ino) && log == old(log) + evicted && model == After(old(model), evicted)
      ensures r.Fail? ==> Valid()
      ensures r.Done? ==> ValidWith({r.value}) && Staged(r.value, ino, c, full)
      ensures inodes.Live(slot)
      ensures r.Fail? ==> StoreFails(r.errno)
    {
      hide Tables.DirsOf, Table, History, Db.Valid, Inv, Step, Enabled, After, OpenInodes.Valid, Evicts,
           Tables.NodesOf;
      r, evicted := AllocChunk(slot, ino);
      NoEviction(old(model), ino);
      AfterNothing(old(model));
      if r.Fail? {
        evicted := [];
        assert log == old(log) + [];
        return;
      }
      SlotHasNode(slot, ino, {r.value});
      if !full {
        var row := db.ReadChunk(ino, c);
        if row.Err? {
          GiveBack(r.value, model.open);
          return Fail(ErrnoOf(row.error)), evicted;
        }
        NodeHead(db.tables, ino);
        FillFromStore(r.value, row.value, model.open);
      }
    }

    ghost predicate Staged(a: ArenaSlot, ino: nat, c: nat, full: bool)
      reads arena, this`model
    {
      && arena.Valid() && a < |arena.len|
      && ino in model.nodes && arena.Chunk(a) == if full then [] else RowOf(model.nodes[ino].file.rows, c)
    }

    lemma SlotHasNode(slot: Slot, ino: nat, limbo: set<ArenaSlot>)
      requires ValidWith(limbo) && inodes.Live(slot) && inodes.ino[slot] == ino
      ensures ino in model.open && ino in model.nodes && model.open[ino].kind == model.nodes[ino].kind
    {
      hide WellFormed;
      LiveFacts(slot, model.open, limbo);
    }

    /** Puts an arena slot in hand into a dirty index, at the place a search finds. */
    method InsertEntry(slot: Slot, c: nat, a: ArenaSlot, ghost ino: nat, ghost open: map<nat, OpenFile>)
      requires Table(open, {a}) && inodes.Live(slot) && inodes.ino[slot] == ino
      requires ino in open && c !in open[ino].dirty && arena.Valid() && a < |arena.len|
      modifies this`owner, inodes.dirty
      ensures Table(open[ino := open[ino].(dirty := open[ino].dirty[c := arena.Chunk(a)])], {})
      ensures Holds(slot, c, a)
    {
      hide Table, DirtyIs, OpenInodes.Valid, ChunkArena.Valid, Injective;
      LiveFacts(slot, open, {a});
      MissingFromIndex(open[ino].dirty, inodes.dirty[slot].entries, arena.Chunks(), c);
      var search := inodes.dirty[slot].Find(c);
      InsertAt(slot, search.position, c, a, ino, open);
    }

    /** Puts an arena slot in hand into a dirty index at its place. */
    method InsertAt(slot: Slot, position: nat, c: nat, a: ArenaSlot, ghost ino: nat, ghost open: map<nat, OpenFile>)
      requires Table(open, {a}) && inodes.Live(slot) && inodes.ino[slot] == ino
      requires ino in open && c !in open[ino].dirty && arena.Valid() && a < |arena.len|
      requires slot < |inodes.dirty| && position <= |inodes.dirty[slot].entries|
      requires forall k :: 0 <= k < position ==> inodes.dirty[slot].entries[k].0 < c
      requires forall k :: position <= k < |inodes.dirty[slot].entries| ==> inodes.dirty[slot].entries[k].0 > c
      modifies this`owner, inodes.dirty[slot]
      ensures Table(open[ino := open[ino].(dirty := open[ino].dirty[c := arena.Chunk(a)])], {})
      ensures Holds(slot, c, a)
    {
      hide OwnersOk, DirtyIs, OpenTied, OpenInodes.Valid, ChunkArena.Valid, Handles.Valid, Injective, SortedByChunk,
           Holds, RefsOk, OpenInodes.Rows, ChunkArena.FreeSet;
      LiveFacts(slot, open, {a});
      InsertKeepsOwners(inodes.Entries(), owner, arena.FreeSet(), |arena.len|, a, slot, position, c);
      InsertKeepsTie(open, inodes.byIno, inodes.Rows(), inodes.Entries(), arena.Chunks(), ino, position, c, a);
      inodes.InsertDirty(slot, position, c, a);
      owner := owner[a := (slot, c)];
      HoldsAt(slot, position, c, a);
    }

    lemma HoldsAt(slot: Slot, position: nat, c: nat, a: ArenaSlot)
      requires slot < |inodes.dirty| && position < |inodes.Entries()[slot]|
               && inodes.Entries()[slot][position] == (c, a)
      ensures Holds(slot, c, a)
    {
      assert inodes.dirty[slot].entries[position] == (c, a);
    }

    ghost predicate Holds(slot: Slot, c: nat, a: ArenaSlot)
      reads inodes`dirty, inodes.dirty
    {
      && slot < |inodes.dirty|
      && exists k :: 0 <= k < |inodes.dirty[slot].entries| && inodes.dirty[slot].entries[k] == (c, a)
    }

    /** Copies data over a buffered chunk. */
    method PatchChunk(slot: Slot, c: nat, a: ArenaSlot, start: nat, d: Blob, ghost ino: nat,
        ghost open: map<nat, OpenFile>)
      requires Table(open, {}) && inodes.Live(slot) && inodes.ino[slot] == ino && Holds(slot, c, a)
      requires d != [] && start + |d| <= CHUNK_SIZE
      modifies arena`bytes, arena`len
      ensures ino in open && c in open[ino].dirty
      ensures Table(open[ino := open[ino].(dirty := open[ino].dirty[c := Splice(open[ino].dirty[c], start, d)])], {})
    {
      hide OwnersOk, OpenTied, OpenInodes.Valid, ChunkArena.Valid, Handles.Valid, Injective, SortedByChunk, Splice,
           DirtyIs, RefsOk;
      LiveFacts(slot, open, {});
      ghost var es := inodes.dirty[slot].entries;
      ghost var k :| 0 <= k < |es| && es[k] == (c, a);
      DirtyAt(open[ino].dirty, es, arena.Chunks(), k);
      ChunkWriteKeepsTie(open, inodes.byIno, inodes.Rows(), inodes.Entries(), owner, arena.FreeSet(), |arena.len|,
                         arena.Chunks(), ino, k, Splice(open[ino].dirty[c], start, d));
      arena.Write(a, start, d);
    }

    /** Grows the size of a slot to cover `n` bytes. */
    method GrowSize(slot: Slot, n: nat, ghost ino: nat, ghost open: map<nat, OpenFile>)
      requires Table(open, {}) && inodes.Live(slot) && inodes.ino[slot] == ino
      modifies inodes`size
      ensures ino in open && Table(open[ino := open[ino].(size := Max(open[ino].size, n))], {})
    {
      hide OwnersOk, OpenTied, DirtyIs, OpenInodes.Valid, ChunkArena.Valid, Handles.Valid, Injective, SortedByChunk;
      LiveFacts(slot, open, {});
      RowChangeKeepsTie(open, inodes.byIno, inodes.Rows(), inodes.Entries(), arena.Chunks(), ino,
                        open[ino].(size := Max(open[ino].size, n)));
      inodes.SetSize(slot, Max(inodes.size[slot], n));
    }

    /** A new arena slot for a chunk that is not buffered, entered into the dirty index. */
    method NewChunkFor(slot: Slot, ino: nat, c: nat, full: bool)
        returns (r: Reply<ArenaSlot>, ghost evicted: seq<Event>, ghost chunk: Blob)
      requires Valid() && inodes.Live(slot) && inodes.ino[slot] == ino && c < MAX_CHUNKS
      requires ino in model.open && c !in model.open[ino].dirty
      modifies this`log, this`model, this`owner, db, arena, inodes.dirty, inodes`byIno, inodes`refs, inodes`unlinked,
               inodes`free
      ensures Tables.SameTree(old(db.tables), db.tables)
      ensures inodes.Live(slot)
      ensures Evicts(old(model), evicted, ino) && log == old(log) + evicted && model == After(old(model), evicted)
      ensures r.Fail? ==> Valid()
      ensures r.Done? ==>
                && Base() && Table(WithChunk(model.open, ino, c, chunk), {}) && Holds(slot, c, r.value)
                && ChunkIs(model, ino, c, full, chunk)
      ensures r.Fail? ==> StoreFails(r.errno)
    {
      hide Tables.DirsOf, Table, Db.Valid, Db.Nodes, Inv, IsRun, Step, Enabled, After, OpenInodes.Valid,
           ChunkArena.Valid, Evicts, Holds, WithChunk, ChunkIs;
      chunk := [];
      ghost var before := model;
      r, evicted := StageChunk(slot, ino, c, full);
      if r.Done? {
        chunk := arena.Chunk(r.value);
        StillNotDirty(before, evicted, ino, c);
        NewChunk(model, ino, c, full, chunk);
        hide History;
        InsertEntry(slot, c, r.value, ino, model.open);
      }
    }

    /** The arena slot a piece is written to: the chunk's own when it is buffered, else a new one. */
    method ChunkFor(slot: Slot, ino: nat, c: nat, full: bool)
        returns (r: Reply<ArenaSlot>, ghost evicted: seq<Event>, ghost chunk: Blob)
      requires Valid() && inodes.Live(slot) && inodes.ino[slot] == ino && c < MAX_CHUNKS
      modifies this`log, this`model, this`owner, db, arena, inodes.dirty, inodes`byIno, inodes`refs, inodes`unlinked,
               inodes`free
      ensures Tables.SameTree(old(db.tables), db.tables)
      ensures inodes.Live(slot)
      ensures Evicts(old(model), evicted, ino) && log == old(log) + evicted && model == After(old(model), evicted)
      ensures r.Fail? ==> Valid()
      ensures r.Done? ==>
                && Base() && Table(WithChunk(model.open, ino, c, chunk), {}) && Holds(slot, c, r.value)
                && ChunkIs(model, ino, c, full, chunk)
      ensures r.Fail? ==> StoreFails(r.errno)
    {
      hide Tables.DirsOf, Table, Base, After, OpenInodes.Valid, ChunkArena.Valid, Evicts, DirtyIs, Injective,
           SortedByChunk, WithChunk, ChunkIs, OpenInodes.Row;
      LiveFacts(slot, model.open, {});
      SlotHasNode(slot, ino, {});
      var search := OpenedIndex(slot, c);
      if search.Found? {
        evicted := [];
        NoEviction(model, ino);
        AfterNothing(model);
        assert log == log + [];
        var a := inodes.dirty[slot].entries[search.position].1;
        FoundChunk(model, ino, inodes.dirty[slot].entries, arena.Chunks(), search.position, full);
        chunk := arena.Chunk(a);
        return Done(a), evicted, chunk;
      }
      NotFoundNotDirty(model.open[ino].dirty, inodes.dirty[slot].entries, arena.Chunks(), c);
      r, evicted, chunk := NewChunkFor(slot, ino, c, full);
    }

    /** Searches the dirty index of a live slot. */
    method OpenedIndex(slot: Slot, c: nat) returns (search: Search)
      requires inodes.SameLengths() && slot < |inodes.ino| && SortedByChunk(inodes.dirty[slot].entries)
      ensures search.Found? ==>
                && search.position < |inodes.dirty[slot].entries|
                && inodes.dirty[slot].entries[search.position].0 == c
      ensures search.Missing? ==> forall k :: 0 <= k < |inodes.dirty[slot].entries| ==>
                inodes.dirty[slot].entries[k].0 != c
    {
      search := inodes.dirty[slot].Find(c);
    }

    /** Buffers one piece of a write: read-modify-write of one chunk in the arena. */
    method BufferPiece(slot: Slot, ino: nat, c: nat, start: nat, d: Blob)
        returns (r: Reply<()>, ghost events: seq<Event>)
      requires Valid() && inodes.Live(slot) && inodes.ino[slot] == ino && ino in model.open
      requires model.open[ino].kind == RegularFile && !model.closing && PieceFits(c, start, d) && c < MAX_CHUNKS
      modifies this`log, this`model, this`owner, db, arena, inodes.dirty, inodes`byIno, inodes`refs, inodes`unlinked,
               inodes`free, inodes`size
      ensures Tables.SameTree(old(db.tables), db.tables)
      ensures Valid() && inodes.Live(slot)
      ensures log == old(log) + events
      ensures r.Fail? ==> PieceRefused(old(model), model, ino) && forall j :: StoresTo(events, j) == []
      ensures r.Done? ==>
                && PieceBuffered(old(model), model, ino, c, start, d)
                && forall j :: StoresTo(events, j) == if j == ino then [Store(ino, c, start, d)] else []
      ensures r.Fail? ==> StoreFails(r.errno)
    {
      hide Tables.DirsOf, Table, Base, After, Inv, IsRun, Step, Enabled, Evicts, WithChunk, Splice, Holds, ChunkIs,
           PieceRefused, PieceBuffered;
      ghost var before := model;
      ghost var evicted, chunk;
      var a;
      HistoryFacts({});
      a, evicted, chunk := ChunkFor(slot, ino, c, IsFull(start, d));
      PieceCases(before, model, evicted, ino, c, start, d);
      if a.Fail? {
        return Fail(a.errno), evicted;
      }
      StoreMatches(model, ino, c, start, d, chunk);
      ghost var open1 := WithChunk(model.open, ino, c, chunk);
      PatchChunk(slot, c, a.value, start, d, ino, open1);
      ghost var open2 := WithChunk(open1, ino, c, Splice(chunk, start, d));
      WithChunkIs(open1, ino, c, Splice(chunk, start, d));
      GrowSize(slot, c * CHUNK_SIZE + start + |d|, ino, open2);
      RecordStore(ino, c, start, d);
      events := evicted + [Store(ino, c, start, d)];
      assert log == old(log) + events;
      return Done(()), events;
    }

    lemma HistoryFacts(limbo: set<ArenaSlot>)
      requires ValidWith(limbo)
      ensures Inv(model)
    {
    }

    ghost method RecordStore(i: nat, c: nat, start: nat, d: Blob)
      requires Base() && Enabled(model, Store(i, c, start, d))
               && Step(model, Store(i, c, start, d)).nodes == model.nodes
      modifies this`log, this`model
      ensures Base() && log == old(log) + [Store(i, c, start, d)] && model == Step(old(model), Store(i, c, start, d))
    {
      hide Step, Enabled, Inv, IsRun, After;
      Record(Store(i, c, start, d));
    }

    /** Notes the time of a write. */
    method TouchSlot(slot: Slot, ino: nat, now: Time)
      requires Valid() && inodes.Live(slot) && inodes.ino[slot] == ino && ino in model.open
      requires model.open[ino].kind == RegularFile && !model.closing
      modifies this`log, this`model, inodes`mtime
      ensures Valid() && inodes.Live(slot)
      ensures Enabled(old(model), Touch(ino, now)) && log == old(log) + [Touch(ino, now)]
              && model == Step(old(model), Touch(ino, now))
    {
      hide Table, Db.Valid, Db.Nodes, Inv, Step, Enabled, IsRun, After, DirtyIs, ChunkArena.Valid, OpenInodes.Valid,
           Injective, SortedByChunk;
      TouchStep(model, ino, now);
      SetSlotMtime(slot, now, ino, model.open);
      Record(Touch(ino, now));
    }

    method SetSlotMtime(slot: Slot, now: Time, ghost ino: nat, ghost open: map<nat, OpenFile>)
      requires Table(open, {}) && inodes.Live(slot) && inodes.ino[slot] == ino && ino in open
      modifies inodes`mtime
      ensures Table(open[ino := open[ino].(mtime := now)], {})
    {
      hide OwnersOk, OpenTied, DirtyIs, OpenInodes.Valid, ChunkArena.Valid, Handles.Valid, Injective, SortedByChunk;
      LiveFacts(slot, open, {});
      RowChangeKeepsTie(open, inodes.byIno, inodes.Rows(), inodes.Entries(), arena.Chunks(), ino,
          open[ino].(mtime := now));
      inodes.SetMtime(slot, now);
    }

    /** Buffers a write. A write that fails midway has written whole leading pieces. */
    method WriteSlot(slot: Slot, ino: nat, offset: nat, data: Blob, now: Time)
        returns (r: Reply<nat>, ghost events: seq<Event>)
      requires Valid() && inodes.Live(slot) && inodes.ino[slot] == ino && ino in model.open
               && offset + |data| <= U64_MAX
      modifies this`log, this`model, this`owner, db, arena, inodes.dirty, inodes`byIno, inodes`refs, inodes`unlinked,
               inodes`free, inodes`size, inodes`mtime
      ensures Tables.SameTree(old(db.tables), db.tables)
      ensures Valid() && inodes.Live(slot)
      ensures log == old(log) + events
      ensures WriteOutcome(old(model), model, events, ino, offset, data, r)
      ensures WriteDated(old(model), model, events, ino, now)
      ensures db.healthy ==>
                (r.Done? <==> old(model).open[ino].kind == RegularFile && !old(model).closing
                              && (data == [] || offset + |data| <= MAX_FILE_SIZE))
    {
      hide Tables.DirsOf, Table, Base, After, Inv, IsRun, Step, Enabled, PieceRefused, PieceBuffered, Progress,
           DirtyIs, Injective, SortedByChunk, OpenInodes.Valid, ChunkArena.Valid, WriteDated;
      LiveFacts(slot, model.open, {});
      WriteStart(slot, ino);
      NothingWrittenDated(model, ino, now);
      events := [];
      assert log == log + [];
      if RegularFileError(inodes.kind[slot]).Some? {
        return Fail(ErrnoOf(RegularFileError(inodes.kind[slot]).value)), [];
      }
      if closing {
        return Fail(EIO), [];
      }
      var maybeSpan := NewSpan(offset, |data|);
      if maybeSpan.None? {
        return Done(0), [];
      }
      var span := maybeSpan.value;
      if span.end > MAX_FILE_SIZE {
        return Fail(EFBIG), [];
      }
      hide NewSpan;
      r, events := WriteSpan(slot, ino, span, data, now);
    }

    lemma WriteStart(slot: Slot, ino: nat)
      requires Valid()
      ensures model.closing == closing && Inv(model)
    {
    }

    /** Buffers the pieces of a span in order. If that fails at chunk `n`, exactly the pieces before
        `n` have been taken. */
    method WriteSpan(slot: Slot, ino: nat, span: ChunkSpan, data: Blob, now: Time)
        returns (r: Reply<nat>, ghost events: seq<Event>)
      requires Valid() && inodes.Live(slot) && inodes.ino[slot] == ino && ino in model.open
      requires model.open[ino].kind == RegularFile && !model.closing
      requires span.Valid() && |data| == span.end - span.start && span.end <= MAX_FILE_SIZE
      modifies this`log, this`model, this`owner, db, arena, inodes.dirty, inodes`byIno, inodes`refs, inodes`unlinked,
               inodes`free, inodes`size, inodes`mtime
      ensures Tables.SameTree(old(db.tables), db.tables)
      ensures Valid() && inodes.Live(slot)
      ensures log == old(log) + events
      ensures r.Done? ==> r.value == |data| && Progress(old(model), model, events, ino, span, data, span.last + 1)
      ensures r.Fail? ==>
                exists n :: span.first <= n <= span.last && Progress(old(model), model, events, ino, span, data, n)
      ensures WriteDated(old(model), model, events, ino, now)
      ensures r.Fail? ==> StoreFails(r.errno)
    {
      hide Tables.DirsOf, Table, Base, After, Inv, IsRun, Step, Enabled, PieceRefused, PieceBuffered, Progress,
           PieceFits, WriteDated;
      ghost var before := model;
      WriteStart(slot, ino);
      DatesStart(model, ino, now);
      ProgressStart(model, ino, span, data, now);
      TouchSlot(slot, ino, now);
      events := [Touch(ino, now)];
      var c := span.first;
      while c <= span.last
        invariant span.first <= c <= span.last + 1
        invariant Valid() && inodes.Live(slot) && inodes.ino[slot] == ino
        invariant Tables.SameTree(old(db.tables), db.tables)
        invariant log == old(log) + events
        invariant Progress(before, model, events, ino, span, data, c)
        invariant WriteDated(before, model, events, ino, now) && Touch(ino, now) in events
        invariant ino in model.open && model.open[ino].mtime == now && model.nodes.Keys == before.nodes.Keys
        invariant |inodes.dirty| == old(|inodes.dirty|)
      {
        var piece := span.Piece(c);
        var d := data[piece.bufStart..piece.bufEnd];
        ghost var was, sofar := model, events;
        PieceIsFit(before, was, events, ino, span, data, c);
        var stored;
        ghost var more;
        stored, more := BufferPiece(slot, ino, c, piece.chunkStart, d);
        events := sofar + more;
        assert log == old(log) + events;
        if stored.Fail? {
          DatesKept(before, was, model, sofar, more, ino, now);
          ProgressKept(before, was, model, sofar, more, ino, span, data, c);
          return Fail(stored.errno), events;
        }
        DatesMade(before, was, model, sofar, more, ino, c, piece.chunkStart, d, now);
        SameInodes(was, model, ino, c, piece.chunkStart, d);
        ProgressMade(before, was, model, sofar, more, ino, span, data, c);
        c := c + 1;
      }
      return Done(|data|), events;
    }

    lemma IndexedIsLive(open: map<nat, OpenFile>, limbo: set<ArenaSlot>, i: nat)
      requires Table(open, limbo) && i in inodes.byIno
      ensures inodes.Live(inodes.byIno[i]) && inodes.ino[inodes.byIno[i]] == i
    {
    }

    /* ----- Operations ----- */

    /** The inode a handle reads and writes. */
    ghost function HandleIno(fh: nat): Option<nat>
      reads handles, inodes`ino
    {
      match handles.Get(fh)
      case Some(slot) => if slot < |inodes.ino| then Some(inodes.ino[slot]) else None
      case None => None
    }

    /** A handle leads to a live slot, and is counted there. */
    lemma HandleFacts(fh: nat, open: map<nat, OpenFile>)
      requires Table(open, {}) && handles.Get(fh).Some?
      ensures inodes.Live(handles.Get(fh).value)
      ensures HandleIno(fh).Some? && HandleIno(fh).value in open && open[HandleIno(fh).value].refs > 0
      ensures HandleIno(fh).value == inodes.ino[handles.Get(fh).value]
    {
      var slot := handles.Get(fh).value;
      handles.CountedIffMapped(slot);
      hide OwnersOk, DirtyIs, Handles.Valid, ChunkArena.Valid;
      LiveFacts(slot, open, {});
    }

    /** Reads through the slot of an inode if it has one, else from the store. */
    method Read(ino: nat, offset: nat, size: nat) returns (r: Reply<Blob>)
      requires Valid()
      ensures ReadOutcome(ino, offset, size, r)
    {
      hide Table, Inv, IsRun, After, DirtyIs, Contents, Tables.RowsOf, ByteAt, ChunkArena.Valid, OpenInodes.Valid,
           Db.Valid, Tables.NodesOf;
      NotOpenNotIndexed(model.open, {}, ino);
      var slot := inodes.Find(ino);
      if slot.Some? {
        IndexedIsLive(model.open, {}, ino);
        r := ReadSlot(slot.value, offset, size, ino);
      } else {
        StoredSize(ino);
        NodeHead(db.tables, ino);
        var bytes := db.ReadFile(ino, offset, size);
        r := if bytes.Ok? then Done(bytes.value) else Fail(ErrnoOf(bytes.error));
      }
    }

    lemma StoredSize(ino: nat)
      requires Base()
      ensures ino in db.tables.inodes && db.tables.inodes[ino].kind == RegularFile ==>
                db.tables.inodes[ino].size <= MAX_FILE_SIZE
    {
      NodeHead(db.tables, ino);
    }

    /** Reads through a handle. */
    method ReadFh(fh: nat, offset: nat, size: nat) returns (r: Reply<Blob>)
      requires Valid()
      ensures HandleIno(fh).None? ==> r == Fail(EBADF)
      ensures HandleIno(fh).Some? ==> ReadOutcome(HandleIno(fh).value, offset, size, r)
    {
      hide Table, Base, ReadOutcome, OpenInodes.Valid;
      var slot := handles.Get(fh);
      if slot.None? {
        return Fail(EBADF);
      }
      HandleFacts(fh, model.open);
      r := ReadSlot(slot.value, offset, size, HandleIno(fh).value);
    }

    /** Opens an inode. */
    method Open(ino: nat) returns (r: Reply<nat>)
      requires Valid()
      requires ino in model.open || ino !in db.tables.inodes || (ino in model.nodes && model.nodes[ino].nlink > 0)
      modifies this`log, this`model, inodes, handles
      ensures Valid()
      ensures r.Fail? ==> log == old(log) && model == old(model)
      ensures r.Fail? ==> StoreFails(r.errno) || (r.errno == ENOENT && ino !in db.tables.inodes)
      ensures r.Done? ==> log == old(log) + if ino in old(model.open) then [Event.Open(ino)]
              else [Load(ino), Event.Open(ino)]
      ensures r.Done? ==> old(handles.Get(r.value)).None? && HandleIno(r.value) == Some(ino)
      ensures r.Done? ==> forall fh: nat :: fh != r.value ==> handles.Get(fh) == old(handles.Get(fh))
      ensures old(NoIdleSlot(model)) ==> NoIdleSlot(model)
    {
      hide Table, Base, History, Inv, Step, Enabled, OpenInodes.Valid, NoIdleSlot, IsIdle;
      HistoryFacts({});
      var slot := SlotFor(ino);
      if slot.Fail? {
        return Fail(slot.errno);
      }
      OpenedIsNeeded(old(model), ino);
      var fh := OpenSlot(slot.value);
      assert log == old(log) + if ino in old(model.open) then [Event.Open(ino)] else [Load(ino), Event.Open(ino)];
      return Done(fh);
    }

    /** Flushes an inode and frees its slot if that leaves it idle. */
    method Settle(slot: Slot, unlinked: Unlinked, ghost ino: nat) returns (r: Reply<()>)
      requires Valid() && inodes.Live(slot) && inodes.ino[slot] == ino
      modifies this`log, this`model, this`owner, db, arena`free, inodes.dirty[slot], inodes`byIno, inodes`refs,
               inodes`unlinked, inodes`free
      ensures Tables.SameTree(old(db.tables), db.tables)
      ensures Valid() && Tries(old(db.attempts), db.attempts, old(model), ino, unlinked, r)
      ensures r.Done? ==>
                && log == old(log) + Settling(old(model), ino, unlinked)
                && model == After(old(model), Settling(old(model), ino, unlinked))
      ensures r.Fail? ==>
                && StoreFails(r.errno) && log == old(log) && model == old(model)
                && ino in model.open && model.open[ino].dirty != map[] && inodes.byIno == old(inodes.byIno)
      ensures forall s: nat :: s != slot ==> (inodes.Live(s) <==> old(inodes.Live(s)))
    {
      hide Tables.DirsOf, Tries, Table, Base, Inv, Step, Enabled, DirtyIs, SortedByChunk, Injective, OpenInodes.Valid,
           ChunkArena.Valid, After;
      HistoryFacts({});
      LiveFacts(slot, model.open, {});
      r := FlushSlot(slot, unlinked);
      if r.Fail? {
        return;
      }
      SettlingIs(old(model), model, ino, unlinked);
      FreeIfIdle(slot);
    }

    /** A write by inode number, which needs no handle: the slot is made and given up here if need be. */
    method Write(ino: nat, offset: nat, data: Blob, now: Time) returns (r: Reply<nat>, ghost events: seq<Event>)
      requires Valid() && offset + |data| <= U64_MAX
      requires ino in model.open || ino !in db.tables.inodes || (ino in model.nodes && model.nodes[ino].nlink > 0)
      modifies this`log, this`model, this`owner, db, arena, inodes, inodes.dirty
      ensures Tables.SameTree(old(db.tables), db.tables)
      ensures Valid()
      ensures log == old(log) + events
      ensures Wrote(old(model), model, events, ino, offset, data, r)
      ensures WriteDated(old(model), model, events, ino, now)
      ensures db.healthy ==> (r.Done? <==> data == [] || MayWrite(old(model), ino, offset, data))
      ensures fresh(set d | d in inodes.dirty && d !in old(inodes.dirty))
      ensures old(NoIdleSlot(model)) ==> NoIdleSlot(model)
    {
      hide MayWrite, RefusesWrite, Tables.DirsOf, Table, Base, Inv, Step, Enabled, IsRun, After, OpenInodes.Valid,
           ChunkArena.Valid, WriteOutcome, Wrote, NoIdleSlot, IsIdle, Around, WriteDated;
      events := [];
      assert log == log + [];
      HistoryFacts({});
      NothingWritten(model, ino, offset, data);
      NothingWrittenDated(model, ino, now);
      if data == [] {
        return Done(0), events;
      }
      var slot := SlotFor(ino);
      if slot.Fail? {
        CannotWrite(ino, offset, data, slot.errno);
        return Fail(slot.errno), events;
      }
      ghost var loaded, opening := model, if ino in old(model.open) then [] else [Load(ino)];
      assert log == old(log) + opening;
      HistoryFacts({});
      LiveIno(slot.value, ino);
      var result;
      ghost var stores;
      result, stores := WriteSlot(slot.value, ino, offset, data, now);
      ghost var written := model;
      HistoryFacts({});
      FreeIfIdle(slot.value);
      events := Around(old(model), written, ino, stores);
      AroundIs(old(model), written, ino, stores);
      assert log == old(log) + events;
      WroteThroughSlot(old(model), loaded, written, model, stores, ino, offset, data, result);
      DatesThroughSlot(old(model), loaded, written, model, stores, ino, now);
      LoadedMayWrite(old(model), loaded, ino, offset, data);
      return result, events;
    }

    /** A write that gets no slot is refused for that. */
    lemma CannotWrite(ino: nat, offset: nat, data: Blob, e: Errno)
      requires Valid() && ino !in model.open && data != [] && offset + |data| <= U64_MAX
      requires StoreFails(e) || (e == ENOENT && ino !in db.tables.inodes)
      ensures Wrote(model, model, [], ino, offset, data, Fail(e))
      ensures db.healthy ==> !MayWrite(model, ino, offset, data)
    {
      hide Table, Base;
      IsNode(ino);
      NothingWritten(model, ino, offset, data);
    }

    lemma LiveIno(slot: Slot, ino: nat)
      requires Valid() && inodes.Live(slot) && inodes.ino[slot] == ino
      ensures ino in model.open
    {
      LiveFacts(slot, model.open, {});
    }

    /** Buffers a write through a handle. */
    method WriteFh(fh: nat, offset: nat, data: Blob, now: Time) returns (r: Reply<nat>, ghost events: seq<Event>)
      requires Valid() && offset + |data| <= U64_MAX
      modifies this`log, this`model, this`owner, db, arena, inodes.dirty, inodes`byIno, inodes`refs, inodes`unlinked,
               inodes`free, inodes`size, inodes`mtime
      ensures Tables.SameTree(old(db.tables), db.tables)
      ensures Valid()
      ensures log == old(log) + events
      ensures old(HandleIno(fh)).None? ==> r == Fail(EBADF) && events == [] && model == old(model)
      ensures old(HandleIno(fh)).Some? ==> old(HandleIno(fh)).value in old(model).open
      ensures old(HandleIno(fh)).Some? ==>
                WriteOutcome(old(model), model, events, old(HandleIno(fh)).value, offset, data, r)
      ensures old(HandleIno(fh)).Some? ==>
                WriteDated(old(model), model, events, old(HandleIno(fh)).value, now)
      ensures old(HandleIno(fh)).Some? && db.healthy ==>
                (r.Done? <==> old(model).open[old(HandleIno(fh)).value].kind == RegularFile && !old(model).closing
                              && (data == [] || offset + |data| <= MAX_FILE_SIZE))
      ensures old(NoIdleSlot(model)) ==> NoIdleSlot(model)
    {
      hide Tables.DirsOf, Table, Base, WriteOutcome, WriteDated, OpenInodes.Valid, NoIdleSlot, IsIdle, Inv;
      HistoryFacts({});
      events := [];
      assert log == log + [];
      var slot := handles.Get(fh);
      if slot.None? {
        return Fail(EBADF), events;
      }
      HandleFacts(fh, model.open);
      ghost var ino := HandleIno(fh).value;
      r, events := WriteSlot(slot.value, inodes.ino[slot.value], offset, data, now);
      WrittenIsNeeded(old(model), model, events, ino, offset, data, r);
    }

    /** Frees a handle and the reference it holds. */
    method DropHandle(fh: nat, slot: Slot, ghost open: map<nat, OpenFile>, ghost ino: nat)
      requires Table(open, {}) && handles.Get(fh) == Some(slot) && HandleIno(fh) == Some(ino)
      modifies inodes`refs, handles
      ensures ino in open && open[ino].refs > 0 && inodes.Live(slot) && inodes.ino[slot] == ino
      ensures Table(open[ino := open[ino].(refs := open[ino].refs - 1)], {})
      ensures handles.Get(fh).None? && forall h: nat :: h != fh ==> handles.Get(h) == old(handles.Get(h))
    {
      hide OwnersOk, DirtyIs, OpenTied, ChunkArena.Valid, Injective, SortedByChunk, OpenInodes.Valid, Handles.Valid,
           Handles.Count, Handles.Get, OpenInodes.Entries;
      HandleFacts(fh, open);
      LiveFacts(slot, open, {});
      RowChangeKeepsTie(open, inodes.byIno, inodes.Rows(), inodes.Entries(), arena.Chunks(), ino,
          open[ino].(refs := open[ino].refs - 1));
      var dropped := handles.Release(fh);
      inodes.SetRefs(slot, inodes.refs[slot] - 1);
    }

    /** The event `LastClose`, followed by `Delete` unless the store refuses, if this was the last
        reference to a nameless inode; else `Close` and the settling of the slot. The handle is gone
        even when the answer is an error. */
    method ReleaseFh(fh: nat) returns (r: Reply<()>)
      requires Valid()
      modifies this`log, this`model, this`owner, db, arena`free, inodes.dirty, inodes`byIno, inodes`refs,
               inodes`unlinked, inodes`free, handles
      ensures Tables.SameTree(old(db.tables), db.tables)
      ensures Valid()
      ensures handles.Get(fh).None? && forall h: nat :: h != fh ==> handles.Get(h) == old(handles.Get(h))
      ensures old(HandleIno(fh)).None? ==> r == Fail(EBADF) && log == old(log) && model == old(model)
      ensures old(HandleIno(fh)).Some? ==> Released(old(log), old(model), old(HandleIno(fh)).value, r)
      ensures old(HandleIno(fh)).Some? && r.Fail? ==> StoreFails(r.errno)
      ensures old(NoIdleSlot(model)) ==> NoIdleSlot(model)
    {
      hide Tables.DirsOf, Table, Base, Inv, Step, Enabled, After, OpenInodes.Valid, ChunkArena.Valid, Injective,
           SortedByChunk, DirtyIs, NoIdleSlot, IsIdle;
      var slot := handles.Get(fh);
      if slot.None? {
        return Fail(EBADF);
      }
      HandleFacts(fh, model.open);
      ghost var ino := HandleIno(fh).value;
      DropHandle(fh, slot.value, model.open, ino);
      ghost var open := model.open[ino := model.open[ino].(refs := model.open[ino].refs - 1)];
      LiveFacts(slot.value, open, {});
      if inodes.refs[slot.value] == 0 && inodes.unlinked[slot.value] {
        DroppedIsNeeded(model, ino);
        r := DeleteAfterLastClose(slot.value, inodes.ino[slot.value], open);
      } else {
        r := CloseAndSettle(slot.value, ino, open);
      }
    }

    /** A handle of an inode with names or other handles is gone. */
    method CloseAndSettle(slot: Slot, ghost ino: nat, ghost open: map<nat, OpenFile>) returns (r: Reply<()>)
      requires Base() && Table(open, {}) && ino in model.open && model.open[ino].refs > 0
      requires inodes.Live(slot) && inodes.ino[slot] == ino
      requires open == model.open[ino := model.open[ino].(refs := model.open[ino].refs - 1)]
      requires !(model.open[ino].refs == 1 && model.open[ino].unlinked)
      modifies this`log, this`model, this`owner, db, arena`free, inodes.dirty[slot], inodes`byIno, inodes`refs,
               inodes`unlinked, inodes`free
      ensures Tables.SameTree(old(db.tables), db.tables)
      ensures Valid()
      ensures log == old(log) + [Close(ino)] + if r.Done? then Settling(Step(old(model), Close(ino)), ino, Skip) else []
      ensures r.Fail? ==> StoreFails(r.errno)
      ensures old(NoIdleSlot(model)) ==> NoIdleSlot(model)
    {
      hide Tables.DirsOf, Table, Base, Inv, Step, Enabled, After, OpenInodes.Valid, NoIdleSlot, OthersNeeded, IsIdle,
           Settled;
      BaseFacts();
      CloseIsNeeded(model, ino);
      NoteClose(ino, open);
      HistoryFacts({});
      ghost var closed := model;
      SettlingOnlyMoves(closed, ino, Skip);
      r := Settle(slot, Skip, ino);
      CloseLeavesNeeded(closed, model, ino, r.Done?);
    }

    lemma BaseFacts()
      requires Base()
      ensures Inv(model) && model.closing == closing
    {
    }

    /** What releasing a handle of an inode did. */
    ghost predicate Released(before: seq<Event>, fs: Fs, ino: nat, r: Reply<()>)
      reads this`log, this`model, db
    {
      && ino in fs.open
      && if fs.open[ino].unlinked && fs.open[ino].refs == 1 then
           && log == before + (if r.Done? then [LastClose(ino), Delete(ino)] else [LastClose(ino)])
           && ino !in model.open
           && (r.Done? ==> ino !in model.nodes && Tables.RowsOf(db.tables.chunks, ino) == map[])
         else
           log == before + [Close(ino)] + if r.Done? then Settling(Step(fs, Close(ino)), ino, Skip) else []
    }

    ghost method NoteClose(ino: nat, open: map<nat, OpenFile>)
      requires Base() && Table(open, {}) && ino in model.open && model.open[ino].refs > 0
      requires open == model.open[ino := model.open[ino].(refs := model.open[ino].refs - 1)]
      requires !(model.open[ino].refs == 1 && model.open[ino].unlinked)
      modifies this`log, this`model
      ensures Valid() && log == old(log) + [Close(ino)] && model == Step(old(model), Close(ino))
    {
      hide Table, Db.Valid, Db.Nodes, Step, Enabled, Inv, IsRun, After;
      CloseStep(model, ino);
      Record(Close(ino));
    }

    /** `ino` leaves the open table, its dirty chunks with it. */
    method ForgetUnlinked(slot: Slot, ghost ino: nat, ghost open: map<nat, OpenFile>)
      requires Base() && Table(open, {}) && inodes.Live(slot) && inodes.Valid() && inodes.ino[slot] == ino
      requires ino in model.open && model.open[ino].refs == 1 && model.open[ino].unlinked && inodes.refs[slot] == 0
      requires open == model.open[ino := model.open[ino].(refs := 0)]
      modifies this`log, this`model, this`owner, arena`free, inodes.dirty[slot], inodes`byIno, inodes`refs,
               inodes`unlinked, inodes`free
      ensures Valid() && log == old(log) + [LastClose(ino)] && model == DropSlot(old(model), ino)
      ensures ino in model.nodes && model.nodes[ino].nlink == 0
    {
      hide Table, Db.Valid, Db.Nodes, Step, Enabled, Inv, IsRun, After, OpenInodes.Valid, DirtyIs, ChunkArena.Valid,
           Injective, SortedByChunk;
      LastCloseStep(model, ino);
      LiveFacts(slot, open, {});
      DiscardSlot(slot, open);
      assert open - {ino} == model.open - {ino};
      Record(LastClose(ino));
    }

    lemma NamelessRow(ino: nat)
      requires Base() && ino in model.nodes && model.nodes[ino].nlink == 0
      ensures ino in db.tables.inodes && db.tables.inodes[ino].kind != Directory && db.tables.inodes[ino].nlink == 0
    {
      hide History, Db.Valid, Tables.NodesOf;
      NodeHead(db.tables, ino);
    }

    /** `ino` leaves the open table and, unless the store refuses, the tables. */
    method DeleteAfterLastClose(slot: Slot, ino: nat, ghost open: map<nat, OpenFile>) returns (r: Reply<()>)
      requires Base() && Table(open, {}) && inodes.Live(slot) && inodes.Valid() && inodes.ino[slot] == ino
      requires ino in model.open && model.open[ino].refs == 1 && model.open[ino].unlinked && inodes.refs[slot] == 0
      requires open == model.open[ino := model.open[ino].(refs := 0)]
      modifies this`log, this`model, this`owner, db, arena`free, inodes.dirty[slot], inodes`byIno, inodes`refs,
               inodes`unlinked, inodes`free
      ensures Tables.SameTree(old(db.tables), db.tables)
      ensures Valid()
      ensures log == old(log) + if r.Done? then [LastClose(ino), Delete(ino)] else [LastClose(ino)]
      ensures ino !in model.open && (r.Done? ==> ino !in model.nodes && Tables.RowsOf(db.tables.chunks, ino) == map[])
      ensures model == if r.Done? then DropNode(DropSlot(old(model), ino), ino) else DropSlot(old(model), ino)
      ensures r.Fail? ==> StoreFails(r.errno)
    {
      hide Tables.SameTree, Tables.NsOf, Db.Nodes, Tables.DirsOf, Table, Db.Valid, Step, Enabled, Inv, IsRun, After,
           Tables.NodesOf, OpenInodes.Valid, Tables.RowsOf;
      NotOpenNotIndexed(open, {}, ino);
      ForgetUnlinked(slot, ino, open);
      NamelessRow(ino);
      DeleteStep(model, ino);
      var deleted := db.DeleteInode(ino);
      if deleted.Err? {
        return Fail(ErrnoOf(deleted.error));
      }
      Record(Delete(ino));
      assert [LastClose(ino)] + [Delete(ino)] == [LastClose(ino), Delete(ino)];
      return Done(());
    }

    /** Settles the slot of an inode, if it has one. */
    method SettleInode(ino: nat, unlinked: Unlinked) returns (r: Reply<()>)
      requires Valid()
      modifies this`log, this`model, this`owner, db, arena`free, inodes.dirty, inodes`byIno, inodes`refs,
               inodes`unlinked, inodes`free
      ensures Tables.SameTree(old(db.tables), db.tables)
      ensures Valid()
      ensures r.Done? ==>
                && log == old(log) + Settling(old(model), ino, unlinked)
                && model == After(old(model), Settling(old(model), ino, unlinked))
      ensures r.Fail? ==>
                && StoreFails(r.errno) && log == old(log) && model == old(model)
                && ino in model.open && model.open[ino].dirty != map[]
    {
      hide Tables.DirsOf, Table, Base, Inv, Step, Enabled, After, OpenInodes.Valid;
      NotOpenNotIndexed(model.open, {}, ino);
      var slot := inodes.Find(ino);
      if slot.None? {
        AfterNothing(model);
        assert log == log + [];
        return Done(());
      }
      IndexedIsLive(model.open, {}, ino);
      r := Settle(slot.value, unlinked, ino);
    }

    /** Settles the slot of an inode, if it has one; nameless inodes are skipped. */
    method FlushFile(ino: nat) returns (r: Reply<()>)
      requires Valid()
      modifies this`log, this`model, this`owner, db, arena`free, inodes.dirty, inodes`byIno, inodes`refs,
               inodes`unlinked, inodes`free
      ensures Tables.SameTree(old(db.tables), db.tables)
      ensures Valid()
      ensures r.Done? ==>
                && Settled(old(model), model, ino)
                && (ino in model.open && !model.open[ino].unlinked ==> model.open[ino].dirty == map[])
      ensures r.Done? ==> log == old(log) + Settling(old(model), ino, Skip)
      ensures r.Fail? ==>
                && StoreFails(r.errno) && log == old(log) && model == old(model)
                && ino in model.open && model.open[ino].dirty != map[]
      ensures old(NoIdleSlot(model)) ==> NoIdleSlot(model)
    {
      hide Tables.DirsOf, Table, Base, Inv, Step, Enabled, After, OpenInodes.Valid, OnlyChanges, NoIdleSlot, IsIdle;
      HistoryFacts({});
      SettlingOnlyMoves(model, ino, Skip);
      SettledNeededIf(model, After(model, Settling(model, ino, Skip)), ino);
      r := SettleInode(ino, Skip);
    }

    /** Flushes the inode behind a handle. */
    method FlushFh(fh: nat) returns (r: Reply<()>)
      requires Valid()
      modifies this`log, this`model, this`owner, db, arena`free, inodes.dirty
      ensures Tables.SameTree(old(db.tables), db.tables)
      ensures Valid()
      ensures HandleIno(fh).None? ==> r == Fail(EBADF)
      ensures r.Fail? ==> log == old(log) && model == old(model) && (HandleIno(fh).Some? ==> StoreFails(r.errno))
      ensures r.Done? ==>
                && HandleIno(fh).Some? && HandleIno(fh).value in old(model).open
                && var ino := HandleIno(fh).value;
                   var o := old(model).open[ino];
                   log == old(log) + if o.dirty == map[] || o.unlinked then [] else [Flush(ino)]
      ensures old(NoIdleSlot(model)) ==> NoIdleSlot(model)
    {
      hide Tables.DirsOf, Table, Base, OpenInodes.Valid, NoIdleSlot, IsIdle, Inv, Step, Enabled;
      HistoryFacts({});
      ghost var before := model;
      var slot := handles.Get(fh);
      if slot.None? {
        return Fail(EBADF);
      }
      HandleFacts(fh, model.open);
      LiveFacts(slot.value, model.open, {});
      assert log == log + [];
      ghost var ino := HandleIno(fh).value;
      r := FlushSlot(slot.value, Skip);
      if model != before {
        FlushIsNeeded(before, ino);
      }
    }

    /** Whether an inode has open handles. */
    predicate IsOpen(ino: nat)
      requires inodes.SameLengths() && (ino in inodes.byIno ==> inodes.byIno[ino] < |inodes.ino|)
      reads inodes
    {
      match inodes.Find(ino)
      case Some(slot) => inodes.IsOpen(slot)
      case None => false
    }

    lemma OpenMeansRefs(ino: nat, open: map<nat, OpenFile>)
      requires Table(open, {})
      ensures inodes.SameLengths() && (ino in inodes.byIno ==> inodes.byIno[ino] < |inodes.ino|)
      ensures IsOpen(ino) <==> ino in open && open[ino].refs > 0
    {
      hide OwnersOk, DirtyIs;
      if ino in inodes.byIno {
        assert inodes.Rows()[inodes.byIno[ino]] == inodes.Row(inodes.byIno[ino]);
      }
    }

    /** The store has dropped a name of `target`; the table has not been told yet. */
    ghost predicate NameDropped(target: Tables.Found)
      reads this`log, this`model, this`closing, db
    {
      && db.Valid() && History()
      && if target.kind == Directory then db.Nodes() == model.nodes
         else
           && target.ino in model.nodes && model.nodes[target.ino].nlink == target.nlink >= 1
           && db.Nodes() == Tables.DropNodeName(model.nodes, target, Refs(model, target.ino) > 0)
    }

    /** Sets the flag of a slot whose inode has no entry left. */
    method MarkOrphan(slot: Slot, ghost ino: nat, ghost open: map<nat, OpenFile>)
      requires Table(open, {}) && inodes.Live(slot) && inodes.ino[slot] == ino && ino in open
      modifies inodes`unlinked
      ensures Table(open[ino := open[ino].(unlinked := true)], {})
    {
      hide OwnersOk, OpenTied, DirtyIs, ChunkArena.Valid, Injective, SortedByChunk, OpenInodes.Valid, Handles.Valid;
      LiveFacts(slot, open, {});
      RowChangeKeepsTie(open, inodes.byIno, inodes.Rows(), inodes.Entries(), arena.Chunks(), ino,
          open[ino].(unlinked := true));
      inodes.MarkUnlinked(slot);
    }

    /** The last name of an inode with a slot is gone. */
    method SlotLosesName(slot: Slot, ghost ino: nat, ghost open: map<nat, OpenFile>)
      requires Table(open, {}) && inodes.Live(slot) && inodes.ino[slot] == ino && inodes.Valid() && ino in open
      modifies this`owner, arena`free, inodes.dirty[slot], inodes`byIno, inodes`refs, inodes`unlinked, inodes`free
      ensures Table(if open[ino].refs > 0 then open[ino := open[ino].(unlinked := true)] else open - {ino}, {})
    {
      hide Table, DirtyIs, ChunkArena.Valid, OpenInodes.Valid, Injective, SortedByChunk;
      LiveFacts(slot, open, {});
      if inodes.IsOpen(slot) {
        MarkOrphan(slot, ino, open);
      } else {
        DiscardSlot(slot, open);
      }
    }

    ghost method NoteNameGone(ino: nat)
      requires db.Valid() && History() && ino in model.nodes && model.nodes[ino].nlink >= 1
      requires db.Nodes() == Step(model, NameGone(model, ino)).nodes
               && Table(Step(model, NameGone(model, ino)).open, {})
      modifies this`log, this`model
      ensures Valid() && log == old(log) + [NameGone(old(model), ino)]
              && model == Step(old(model), NameGone(old(model), ino))
    {
      hide Table, Db.Valid, Db.Nodes, Step, Enabled, Inv, IsRun, After;
      NameGoneStep(model, ino);
      Record(NameGone(model, ino));
    }

    /** The tables have already lost a name of `target`. Brings the open table to the same event, one
        of the three cases of `NameGone`. */
    method EntryRemoved(target: Tables.Found)
      requires NameDropped(target) && Table(model.open, {})
      modifies this`log, this`model, this`owner, arena`free, inodes.dirty, inodes`byIno, inodes`refs, inodes`unlinked,
               inodes`free
      ensures Valid()
      ensures target.kind == Directory ==> log == old(log) && model == old(model)
      ensures target.kind != Directory ==>
                target.ino in old(model).nodes && log == old(log) + [NameGone(old(model), target.ino)]
      ensures old(NoIdleSlot(model)) ==> NoIdleSlot(model)
    {
      hide Table, Db.Valid, Db.Nodes, Step, Enabled, Inv, IsRun, After, OpenInodes.Valid, NoIdleSlot, IsIdle;
      if target.kind == Directory {
        return;
      }
      NameGoneStep(model, target.ino);
      NameGoneIsNeeded(model, target.ino);
      if target.nlink > 1 {
        NoteNameGone(target.ino);
        return;
      }
      NotOpenNotIndexed(model.open, {}, target.ino);
      var slot := inodes.Find(target.ino);
      if slot.None? {
        assert model.open - {target.ino} == model.open;
        NoteNameGone(target.ino);
        return;
      }
      IndexedIsLive(model.open, {}, target.ino);
      SlotLosesName(slot.value, target.ino, model.open);
      NoteNameGone(target.ino);
    }

    lemma LookupRefuses(e: DbError, parent: nat, name: Namespace.Name)
      requires (e == NameTooLong && |name| > NAME_MAX)
               || (e == NotFound && Namespace.NameFree(db.tables.dirents, parent, name)) || db.MayFail(e)
      ensures db.MayFail(e) || db.UnlinkRefused(e, parent, name)
    {
    }

    lemma UnlinkRefuses(e: DbError, parent: nat, name: Namespace.Name, id: nat, target: Tables.Found)
      requires Tables.IsEntry(db.tables.dirents, id, parent, name) && db.tables.dirents[id].child == target.ino
      requires Tables.IsCurrent(db.tables, target)
      requires db.MayFail(e) || (e == IsDirectory && target.kind == Directory)
      ensures db.MayFail(e) || db.UnlinkRefused(e, parent, name)
    {
      if !db.MayFail(e) {
        InodeViews(db.tables, target.ino);
        assert Namespace.IsDir(Tables.NsOf(db.tables), db.tables.dirents[id].child);
      }
    }

    /** Removes a name. The inode goes with its last name, or with its last handle after that. */
    method Unlink(parent: nat, name: Namespace.Name, now: Time) returns (r: Reply<Tables.Found>, ghost id: nat)
      requires Valid()
      modifies this`log, this`model, this`owner, db, arena`free, inodes.dirty, inodes`byIno, inodes`refs,
               inodes`unlinked, inodes`free
      ensures Valid()
      ensures r.Fail? ==> log == old(log) && model == old(model) && db.tables == old(db.tables)
      ensures r.Fail? && !StoreFails(r.errno) ==>
                exists e :: r.errno == ErrnoOf(e) && old(db.UnlinkRefused(e, parent, name))
      ensures r.Done? ==>
                && Tables.DirsDated(old(db.tables), db.tables, {parent}, now)
                && Tables.IsCurrent(old(db.tables), r.value)
                && r.value.ino in old(model).nodes && log == old(log) + [NameGone(old(model), r.value.ino)]
                && Tables.IsEntry(old(db.tables.dirents), id, parent, name)
                && old(db.tables.dirents)[id].child == r.value.ino
                && Tables.NsOf(db.tables) == Namespace.DropName(old(Tables.NsOf(db.tables)), id,
                   Refs(old(model), r.value.ino) > 0)
      ensures old(NoIdleSlot(model)) ==> NoIdleSlot(model)
    {
      hide NoIdleSlot, IsIdle, Table, Db.Valid, Step, Enabled, Inv, IsRun, After, OpenInodes.Valid, Tables.NodesOf,
           Tables.NsOf, Tables.DropNodeName, Namespace.DropName, Tables.DirsDated, Db.UnlinkRefused;
      var found;
      found, id := db.Lookup(parent, name);
      if found.Err? {
        LookupRefuses(found.error, parent, name);
        return Fail(ErrnoOf(found.error)), id;
      }
      var target := found.value;
      OpenMeansRefs(target.ino, model.open);
      var removed := db.UnlinkEntry(parent, name, target, IsOpen(target.ino), now, id);
      if removed.Err? {
        UnlinkRefuses(removed.error, parent, name, id, target);
        return Fail(ErrnoOf(removed.error)), id;
      }
      TargetIsNode(old(db.tables), target);
      EntryRemoved(target);
      return Done(target), id;
    }

    /** The tables change as `Renamed` says. The cache sees no event, or the one of a lost name if the
        entry `over` named anything but a directory. */
    method Rename(parent: nat, name: Namespace.Name, newParent: nat, newName: Namespace.Name, flags: nat, now: Time)
        returns (r: Reply<Option<Tables.Found>>, ghost source: nat, ghost over: Option<nat>)
      requires Valid()
      modifies this`log, this`model, this`owner, db, arena`free, inodes.dirty, inodes`byIno, inodes`refs,
               inodes`unlinked, inodes`free
      ensures Valid()
      ensures r.Fail? ==> log == old(log) && model == old(model) && db.tables == old(db.tables)
      ensures flags != 0 && flags != RENAME_NOREPLACE ==> r == Fail(EINVAL)
      ensures r.Fail? && !StoreFails(r.errno) && (flags == 0 || flags == RENAME_NOREPLACE) ==>
                exists e :: r.errno == ErrnoOf(e)
                            && old(db.RenameRefused(e, parent, name, newParent, newName, flags == RENAME_NOREPLACE))
      ensures r.Done? ==>
                && Renamed(old(db.tables), db.tables, parent, name, newParent, newName, flags == RENAME_NOREPLACE,
                           r.value.Some? && Refs(old(model), r.value.value.ino) > 0, now, r.value, source, over)
                && if r.value.Some? && r.value.value.kind != Directory
                   then r.value.value.ino in old(model).nodes
                       && log == old(log) + [NameGone(old(model), r.value.value.ino)]
                   else log == old(log) && model == old(model)
      ensures old(NoIdleSlot(model)) ==> NoIdleSlot(model)
    {
      hide NoIdleSlot, IsIdle, Table, Db.Valid, Step, Enabled, Inv, IsRun, After, OpenInodes.Valid, Tables.NodesOf,
           Tables.NsOf, Tables.DropNodeName, Renamed, Tables.TablesOk;
      source, over := 0, None;
      db.TablesAreOk();
      if flags != 0 && flags != RENAME_NOREPLACE {
        return Fail(EINVAL), source, over;
      }
      forall i: nat ensures inodes.SameLengths() && (i in inodes.byIno ==> inodes.byIno[i] < |inodes.ino|)
        ensures IsOpen(i) <==> Refs(model, i) > 0
      {
        OpenMeansRefs(i, model.open);
      }
      var open := set i | i in inodes.byIno && IsOpen(i);
      var renamed;
      renamed, source, over := db.RenameEntry(parent, name, newParent, newName, flags == RENAME_NOREPLACE,
          i => i in open, now);
      if renamed.Err? {
        return Fail(ErrnoOf(renamed.error)), source, over;
      }
      var replaced := renamed.value;
      ReplacedHadAName(old(db.tables), db.tables, parent, name, newParent, newName, flags == RENAME_NOREPLACE,
                       replaced.Some? && replaced.value.ino in open, now, replaced, source, over);
      if replaced.Some? {
        EntryRemoved(replaced.value);
      }
      return Done(replaced), source, over;
    }

    /** Gives a file another name. */
    method Link(ino: nat, parent: nat, name: Namespace.Name, now: Time) returns (r: Reply<()>, ghost id: nat)
      requires Valid() && (ino in model.nodes ==> model.nodes[ino].nlink > 0)
      modifies this`log, this`model, db
      ensures Valid()
      ensures r.Fail? ==> log == old(log) && model == old(model) && db.tables == old(db.tables)
      ensures r.Fail? && !StoreFails(r.errno) ==>
                exists e :: r.errno == ErrnoOf(e) && old(db.LinkRefused(e, ino, parent, name))
      ensures r.Done? ==>
                && Tables.DirsDated(old(db.tables), db.tables, {parent}, now)
                && log == old(log) + [Event.Link(ino)] && Enabled(old(model), Event.Link(ino))
                && Tables.NsOf(db.tables) == Namespace.AddName(old(Tables.NsOf(db.tables)), parent, name, ino, id)
    {
      hide Table, Db.Valid, Step, Enabled, Inv, IsRun, After, Tables.NodesOf, Tables.NsOf, Namespace.AddName,
           Tables.DirsDated, Db.LinkRefused;
      var linked;
      linked, id := db.Link(ino, parent, name, now);
      if linked.Err? {
        return Fail(ErrnoOf(linked.error)), id;
      }
      LinkedNode(old(db.tables), ino);
      LinkStep(model, ino);
      Record(Event.Link(ino));
      return Done(()), id;
    }

    /** A new entry, a new empty file that nothing refers to yet, and one handle to it. */
    method CreateOpen(parent: nat, name: Namespace.Name, now: Time) returns (r: Reply<(nat, nat)>, ghost id: nat)
      requires Valid()
      modifies this`log, this`model, db, inodes, handles
      ensures Valid()
      ensures r.Fail? ==> log == old(log) && model == old(model) && db.tables == old(db.tables)
      ensures r.Fail? && !StoreFails(r.errno) ==>
                exists e :: r.errno == ErrnoOf(e) && old(db.CreateRefused(e, parent, name))
      ensures r.Done? ==> Tables.DirsDated(old(db.tables), db.tables, {parent, r.value.0}, now)
      ensures r.Done? ==>
                var (ino, fh) := r.value;
                && log == old(log) + [Create(ino, RegularFile, 0, now), Load(ino), Event.Open(ino)]
                && ino !in old(model).nodes && ino !in old(model).open && ino !in old(db.tables).inodes
                && ino in model.nodes && Logical(model, ino) == EMPTY_FILE
                && HandleIno(fh) == Some(ino) && old(handles.Get(fh)).None?
                && (forall h: nat :: h != fh ==> handles.Get(h) == old(handles.Get(h)))
                && Tables.NsOf(db.tables) == Namespace.AddNode(old(Tables.NsOf(db.tables)), parent, name, RegularFile,
                   ino, id)
      ensures old(NoIdleSlot(model)) ==> NoIdleSlot(model)
    {
      hide Tables.DirsDated, Db.CreateRefused, NoIdleSlot, IsIdle, Table, Step, Enabled, Inv, IsRun, After,
           OpenInodes.Valid, Db.Valid, Tables.NodesOf, Tables.NsOf, Namespace.AddNode;
      var ino;
      ino, id := NewNode(parent, name, RegularFile, 0, now);
      if ino.Fail? {
        return Fail(ino.errno), id;
      }
      var i := ino.value;
      HistoryFacts({});
      LoadStep(model, i);
      CreatedIsNeeded(old(model), i, RegularFile, 0, now);
      OpenedIsNeeded(model, i);
      var slot := AddSlot(i, RegularFile, 0, model.open);
      Record(Load(i));
      OpenStep(model, i);
      var fh := OpenSlot(slot);
      assert log == old(log) + [Create(i, RegularFile, 0, now), Load(i), Event.Open(i)];
      ghost var none: Rows := map[];
      assert none + none == none;
      return Done((i, fh)), id;
    }

    /** Makes a node that is not a directory. */
    method NewNode(parent: nat, name: Namespace.Name, kind: FileKind, size: nat, now: Time)
        returns (r: Reply<nat>, ghost id: nat)
      requires Valid() && kind != Directory && (kind == RegularFile ==> size == 0)
      modifies this`log, this`model, db
      ensures Valid()
      ensures r.Fail? ==> log == old(log) && model == old(model) && db.tables == old(db.tables)
      ensures r.Fail? && !StoreFails(r.errno) ==>
                exists e :: r.errno == ErrnoOf(e) && old(db.CreateRefused(e, parent, name))
      ensures r.Done? ==> Tables.DirsDated(old(db.tables), db.tables, {parent, r.value}, now)
      ensures r.Done? ==>
                && r.value !in old(db.tables).inodes && r.value !in old(model).nodes && r.value !in old(model).open
                && log == old(log) + [Create(r.value, kind, size, now)]
                && model == SetNode(old(model), r.value, Node(kind, 1, now, File(size, map[])))
                && Tables.NsOf(db.tables) == Namespace.AddNode(old(Tables.NsOf(db.tables)), parent, name, kind,
                   r.value, id)
    {
      hide Tables.DirsDated, Db.CreateRefused, Table, Db.Valid, Step, Enabled, Inv, IsRun, After, Tables.NodesOf,
           Tables.NsOf, Namespace.AddNode;
      var created;
      created, id := db.CreateNode(parent, name, kind, size, now);
      if created.Err? {
        return Fail(ErrnoOf(created.error)), id;
      }
      NodeHead(old(db.tables), created.value);
      CreateStep(model, created.value, kind, size, now);
      Record(Create(created.value, kind, size, now));
      return Done(created.value), id;
    }

    method MakeDir(parent: nat, name: Namespace.Name, now: Time) returns (r: Reply<nat>, ghost id: nat)
      requires Valid()
      modifies db
      ensures Valid()
      ensures r.Fail? ==> db.tables == old(db.tables)
      ensures r.Fail? && !StoreFails(r.errno) ==>
                exists e :: r.errno == ErrnoOf(e) && old(db.CreateRefused(e, parent, name))
      ensures r.Done? ==> Tables.DirsDated(old(db.tables), db.tables, {parent, r.value}, now)
      ensures r.Done? ==>
                && r.value !in old(db.tables).inodes && r.value in db.tables.inodes
                && db.tables.inodes[r.value].(nlink := 0) == Tables.InodeRow(Directory, 0, 0, now)
      ensures r.Done? ==>
                Tables.NsOf(db.tables)
                == Namespace.AddNode(old(Tables.NsOf(db.tables)), parent, name, Directory, r.value, id)
    {
      hide Tables.DirsDated, Db.CreateRefused, Table, Db.Valid, Inv, IsRun, After, Tables.NodesOf, Tables.NsOf,
           Namespace.AddNode;
      var created;
      created, id := db.CreateNode(parent, name, Directory, 0, now);
      r := if created.Ok? then Done(created.value) else Fail(ErrnoOf(created.error));
    }

    method RemoveDir(parent: nat, name: Namespace.Name, now: Time) returns (r: Reply<()>, ghost id: nat)
      requires Valid()
      modifies db
      ensures Valid()
      ensures r.Fail? ==> db.tables == old(db.tables)
      ensures r.Fail? && !StoreFails(r.errno) ==>
                exists e :: r.errno == ErrnoOf(e) && old(db.RemoveDirRefused(e, parent, name))
      ensures r.Done? ==> Tables.DirsDated(old(db.tables), db.tables, {parent}, now)
      ensures r.Done? ==>
                && Tables.IsEntry(old(db.tables.dirents), id, parent, name)
                && Tables.NsOf(db.tables) == Namespace.DropDir(old(Tables.NsOf(db.tables)), id)
    {
      hide Tables.DirsDated, Db.RemoveDirRefused, Table, Db.Valid, Inv, IsRun, After, Tables.NodesOf, Tables.NsOf,
           Namespace.DropDir;
      var removed;
      removed, id := db.RemoveDir(parent, name, now);
      r := if removed.Ok? then Done(()) else Fail(ErrnoOf(removed.error));
    }

    /** Size and time of the latest change as a client sees them: buffered writes overlay the stored
        attributes. */
    method GetAttr(ino: nat) returns (r: Reply<(nat, Time)>)
      requires Valid()
      ensures r.Done? && ino in model.nodes ==> r.value == (ReportedSize(model, ino), ReportedMtime(model, ino))
      ensures r.Done? ==> ino in db.tables.inodes
      ensures r.Done? && ino !in model.nodes ==>
                && db.tables.inodes[ino].kind == Directory
                && r.value == (db.tables.inodes[ino].size, db.tables.inodes[ino].mtime)
      ensures r.Fail? ==> StoreFails(r.errno) || (r.errno == ENOENT && ino !in db.tables.inodes)
    {
      hide Table, Db.Valid, Inv, IsRun, After, Tables.NodesOf, OpenInodes.Valid, DirtyIs, ChunkArena.Valid, Injective,
           SortedByChunk;
      var inode := db.GetInode(ino);
      if inode.Err? {
        return Fail(ErrnoOf(inode.error));
      }
      NodeHead(db.tables, ino);
      NotOpenNotIndexed(model.open, {}, ino);
      var slot := inodes.Find(ino);
      if slot.None? {
        return Done((inode.value.size, inode.value.mtime));
      }
      IndexedIsLive(model.open, {}, ino);
      HistoryFacts({});
      SlotFacts(model, ino);
      LiveFacts(slot.value, model.open, {});
      var modified := if inodes.dirty[slot.value].entries != [] then inodes.mtime[slot.value] else inode.value.mtime;
      return Done((inodes.size[slot.value], modified));
    }

    /** Cuts or extends a file, with the table locked: buffered writes are stored first. */
    method TruncateLocked(ino: nat, size: nat, now: Time) returns (r: Reply<()>, ghost events: seq<Event>)
      requires Valid()
      modifies this`log, this`model, this`owner, db, arena`free, inodes.dirty, inodes`byIno, inodes`refs,
               inodes`unlinked, inodes`free, inodes`size
      ensures Tables.SameTree(old(db.tables), db.tables)
      ensures Valid()
      ensures log == old(log) + events && model == After(old(model), events)
      ensures r.Done? ==> ino in old(model).nodes && old(model).nodes[ino].kind == RegularFile && size <= MAX_FILE_SIZE
      ensures r.Done? ==> events == Truncating(old(model), ino, size, now)
      ensures r.Fail? ==> events == [] || (events == [Flush(ino)] && Enabled(old(model), Flush(ino)))
      ensures r.Fail? ==>
                || StoreFails(r.errno) || (r.errno == ENOENT && ino !in db.tables.inodes)
                || (r.errno == EFBIG && size > MAX_FILE_SIZE)
                          || (ino in db.tables.inodes && RegularFileError(db.tables.inodes[ino].kind).Some?
                              && r.errno == ErrnoOf(RegularFileError(db.tables.inodes[ino].kind).value))
      ensures r.Fail? && ino in old(model).nodes && old(model).nodes[ino].kind == RegularFile
              && size <= MAX_FILE_SIZE ==>
                StoreFails(r.errno)
    {
      hide Tables.DirsOf, Table, Base, Inv, Step, Enabled, IsRun, After, OpenInodes.Valid, Truncating, FlushPart,
           Tables.NodesOf;
      events := [];
      AfterNothing(model);
      assert log == log + [];
      HistoryFacts({});
      ghost var before := model;
      var flushed, slot := StoreBuffered(ino);
      if flushed.Fail? {
        return Fail(flushed.errno), events;
      }
      FlushPartMoves(before, ino);
      SettledKeeps(before, model, ino);
      FlushPartIs(before, ino);
      events := FlushPart(before, ino);
      r := TruncateClean(ino, size, now, slot);
      if r.Done? {
        TruncatingIs(before, ino, size, now);
        events := Truncating(before, ino, size, now);
        assert log == old(log) + events;
      }
    }

    /** Stores what is buffered for an inode, even one without names, and keeps its slot. */
    method StoreBuffered(ino: nat) returns (r: Reply<()>, slot: Option<Slot>)
      requires Valid()
      modifies this`log, this`model, this`owner, db, arena`free, inodes.dirty
      ensures Tables.SameTree(old(db.tables), db.tables)
      ensures Valid()
      ensures slot.Some? <==> ino in model.open
      ensures slot.Some? ==> inodes.Live(slot.value) && inodes.ino[slot.value] == ino
      ensures r.Done? ==>
                && log == old(log) + FlushPart(old(model), ino)
                && model == After(old(model), FlushPart(old(model), ino))
      ensures r.Done? ==> ino in model.open ==> model.open[ino].dirty == map[]
      ensures r.Fail? ==>
                && StoreFails(r.errno) && log == old(log) && model == old(model)
                && db.tables == old(db.tables)
    {
      hide Tables.DirsOf, Table, Base, Inv, Step, Enabled, After, OpenInodes.Valid, DirtyIs, ChunkArena.Valid,
           Injective, SortedByChunk;
      NotOpenNotIndexed(model.open, {}, ino);
      AfterNothing(model);
      assert log == log + [];
      HistoryFacts({});
      FlushPartMoves(model, ino);
      slot := inodes.Find(ino);
      if slot.None? {
        return Done(()), slot;
      }
      IndexedIsLive(model.open, {}, ino);
      LiveFacts(slot.value, model.open, {});
      hide Settled;
      r := FlushSlot(slot.value, Persist);
    }

    /** The rest of a truncation, once nothing is buffered for the inode. */
    method TruncateClean(ino: nat, size: nat, now: Time, slot: Option<Slot>) returns (r: Reply<()>)
      requires Valid() && (ino in model.open ==> model.open[ino].dirty == map[])
      requires slot.Some? <==> ino in model.open
      requires slot.Some? ==> inodes.Live(slot.value) && inodes.ino[slot.value] == ino
      modifies this`log, this`model, db, inodes`byIno, inodes`refs, inodes`unlinked, inodes`free, inodes`size
      ensures Tables.SameTree(old(db.tables), db.tables)
      ensures Valid()
      ensures r.Fail? ==> log == old(log) && model == old(model) && db.tables == old(db.tables)
      ensures r.Done? ==>
                && ino in old(model).nodes && old(model).nodes[ino].kind == RegularFile && size <= MAX_FILE_SIZE
                && Enabled(old(model), Truncate(ino, size, now))
                && var cut := Step(old(model), Truncate(ino, size, now));
                && log == old(log) + [Truncate(ino, size, now)] + (if IsIdle(cut, ino) then [Free(ino)] else [])
                && model == if IsIdle(cut, ino) then Step(cut, Free(ino)) else cut
      ensures r.Fail? ==>
                || StoreFails(r.errno) || (r.errno == ENOENT && ino !in db.tables.inodes)
                || (r.errno == EFBIG && size > MAX_FILE_SIZE)
                          || (ino in db.tables.inodes && RegularFileError(db.tables.inodes[ino].kind).Some?
                              && r.errno == ErrnoOf(RegularFileError(db.tables.inodes[ino].kind).value))
      ensures r.Fail? && ino in old(model).nodes && old(model).nodes[ino].kind == RegularFile
              && size <= MAX_FILE_SIZE ==>
                StoreFails(r.errno)
    {
      hide Tables.DirsOf, Table, Db.Valid, Inv, Step, Enabled, IsRun, After, OpenInodes.Valid, Tables.NodesOf,
           ChunkArena.Valid, DirtyIs, Injective, SortedByChunk;
      IsNode(ino);
      var truncated := db.TruncateFile(ino, size, now);
      if truncated.Err? {
        return Fail(ErrnoOf(truncated.error));
      }
      TruncateStep(model, ino, size, now);
      if slot.Some? {
        SetSlotSize(slot.value, size, ino, model.open);
        Record(Truncate(ino, size, now));
        FreeIfIdle(slot.value);
      } else {
        Record(Truncate(ino, size, now));
      }
      return Done(());
    }

    method SetSlotSize(slot: Slot, size: nat, ghost ino: nat, ghost open: map<nat, OpenFile>)
      requires Table(open, {}) && inodes.Live(slot) && inodes.ino[slot] == ino && ino in open
      modifies inodes`size
      ensures Table(open[ino := open[ino].(size := size)], {})
    {
      hide OwnersOk, OpenTied, DirtyIs, OpenInodes.Valid, ChunkArena.Valid, Handles.Valid, Injective, SortedByChunk;
      LiveFacts(slot, open, {});
      RowChangeKeepsTie(open, inodes.byIno, inodes.Rows(), inodes.Entries(), arena.Chunks(), ino,
          open[ino].(size := size));
      inodes.SetSize(slot, size);
    }

    /** Reserves a range of a regular file: mode 0 only extends the size, the other mode does
        nothing. A truncation that fails after storing the buffered writes of an inode without
        handles is the one case that leaves an idle slot behind. */
    method Fallocate(ino: nat, offset: int, length: int, mode: int, now: Time)
        returns (r: Reply<()>, ghost events: seq<Event>)
      requires Valid() && offset <= I64_MAX && length <= I64_MAX
      modifies this`log, this`model, this`owner, db, arena`free, inodes.dirty, inodes`byIno, inodes`refs,
               inodes`unlinked, inodes`free, inodes`size
      ensures Tables.SameTree(old(db.tables), db.tables)
      ensures Valid()
      ensures log == old(log) + events && model == After(old(model), events)
      ensures Fallocated(old(model), events, ino, offset, length, mode, now, r)
      ensures r == Fail(ENODEV) ==> ino in db.tables.inodes && db.tables.inodes[ino].kind != RegularFile
      ensures r == Fail(ENOENT) ==> ino !in db.tables.inodes
      ensures r.Fail? && IsStorageErrno(r.errno) ==> !db.healthy
      ensures old(NoIdleSlot(model)) ==>
                (NoIdleSlot(model) <==> !(r.Fail? && events == [Flush(ino)] && Refs(old(model), ino) == 0))
    {
      hide Tables.DirsOf, NoIdleSlot, IsIdle, Table, Base, Inv, Step, Enabled, IsRun, After, OpenInodes.Valid,
           Truncating, Tables.NodesOf, Db.Valid;
      events := [];
      AfterNothing(model);
      assert log == log + [];
      if offset < 0 || length <= 0 {
        return Fail(EINVAL), events;
      }
      if mode != 0 && mode != FALLOC_FL_KEEP_SIZE {
        return Fail(EOPNOTSUPP), events;
      }
      IsNode(ino);
      var head := db.InodeHead(ino);
      if head.Err? {
        return Fail(ErrnoOf(head.error)), events;
      }
      if head.value.0 != RegularFile {
        return Fail(ENODEV), events;
      }
      if offset + length > I64_MAX || offset + length > MAX_FILE_SIZE {
        return Fail(EFBIG), events;
      }
      var end: nat := offset + length;
      if mode == FALLOC_FL_KEEP_SIZE {
        return Done(()), events;
      }
      var size := SizeNow(ino);
      if size.Fail? {
        return Fail(size.errno), events;
      }
      if end <= size.value {
        return Done(()), events;
      }
      HistoryFacts({});
      FlushPartIs(model, ino);
      r, events := TruncateLocked(ino, end, now);
      FallocateNeeds(old(model), events, ino, end, now, r.Done?);
    }

    lemma IsNode(ino: nat)
      requires Valid()
      ensures ino in db.tables.inodes && db.tables.inodes[ino].kind != Directory ==>
                ino in model.nodes && model.nodes[ino].kind == db.tables.inodes[ino].kind
                && model.nodes[ino].file.size == db.tables.inodes[ino].size
      ensures ino in model.nodes ==> ino in db.tables.inodes && model.nodes[ino].kind == db.tables.inodes[ino].kind
    {
      NodeHead(db.tables, ino);
    }

    /** The size of an inode: the slot's if it has one, else the stored one. */
    method SizeNow(ino: nat) returns (r: Reply<nat>)
      requires Valid() && ino in model.nodes
      ensures r.Done? ==> r.value == ReportedSize(model, ino)
      ensures r.Fail? ==> StoreFails(r.errno)
    {
      hide Table, Inv, OpenInodes.Valid, Tables.NodesOf, Db.Valid, DirtyIs, Injective, SortedByChunk;
      NotOpenNotIndexed(model.open, {}, ino);
      NodeHead(db.tables, ino);
      var slot := inodes.Find(ino);
      if slot.Some? {
        IndexedIsLive(model.open, {}, ino);
        LiveFacts(slot.value, model.open, {});
        return Done(inodes.size[slot.value]);
      }
      var head := db.InodeHead(ino);
      r := if head.Ok? then Done(head.value.1) else Fail(ErrnoOf(head.error));
    }

    /** Sets size and mtime. Buffered writes are stored first, so the answer includes them and no
        later flush overwrites the mtime set here. */
    method SetAttr(ino: nat, size: Option<nat>, mtime: Option<Timestamp>, now: Time)
        returns (r: Reply<(nat, Time)>, ghost events: seq<Event>)
      requires Valid() && (mtime.Some? ==> mtime.value.IsMachine())
      modifies this`log, this`model, this`owner, db, arena`free, inodes.dirty, inodes`byIno, inodes`refs,
               inodes`unlinked, inodes`free, inodes`size
      ensures Valid()
      ensures log == old(log) + events
      ensures var whole := SettingAttrs(old(model), ino, size, StoredTime(mtime), now);
              if r.Done? then events == whole else events <= whole
      ensures r.Done? ==> AttrsSet(old(model), model, ino, size)
      ensures r.Done? ==> (size.Some? ==> r.value.0 == size.value) && (mtime.Some? ==> r.value.1 == mtime.value.ToNs())
      ensures r.Done? && ino in model.nodes ==> r.value == (ReportedSize(model, ino), ReportedMtime(model, ino))
      ensures r.Done? && ino !in model.nodes ==>
                && ino in db.tables.inodes
                && r.value == (db.tables.inodes[ino].size, db.tables.inodes[ino].mtime)
      ensures r.Fail? ==>
                || StoreFails(r.errno) || (r.errno == ENOENT && ino !in db.tables.inodes)
                || (size.Some? && r.errno == EFBIG && size.value > MAX_FILE_SIZE)
                || (size.Some? && ino in db.tables.inodes && RegularFileError(db.tables.inodes[ino].kind).Some?
                    && r.errno == ErrnoOf(RegularFileError(db.tables.inodes[ino].kind).value))
      ensures TreeDated(old(db.tables), db.tables, ino, StoredTime(mtime))
              || (r.Fail? && Tables.SameTree(old(db.tables), db.tables))
      ensures r.Fail? ==> AttrsSet(old(model), model, ino, None) || AttrsSet(old(model), model, ino, size)
      ensures old(NoIdleSlot(model)) ==> NoIdleSlot(model)
    {
      hide Tables.DirsOf, Tables.WithTime, Table, Base, Inv, Step, Enabled, After, OpenInodes.Valid, OnlyChanges,
           NoIdleSlot, IsIdle, Settled, AttrsSet, Settling, Truncating, SettingAttrs, Dating, Timestamp.ToNs;
      ghost var before := model;
      SettingInParts(before, ino, size, StoredTime(mtime), now);
      HistoryFacts({});
      SettlingOnlyMoves(model, ino, Persist);
      SettledNeededIf(model, After(model, Settling(model, ino, Persist)), ino);
      SettledSets(before, After(model, Settling(model, ino, Persist)), ino);
      var flushed := SettleInode(ino, Persist);
      events := [];
      assert log == old(log) + if flushed.Done? then Settling(before, ino, Persist) else [];
      if flushed.Fail? {
        NothingSet(before, ino);
        return Fail(flushed.errno), events;
      }
      events := Settling(before, ino, Persist);
      ghost var clean := model;
      HistoryFacts({});
      if size.Some? {
        var truncated;
        ghost var more;
        truncated, more := TruncateLocked(ino, size.value, now);
        assert log == old(log) + (events + more);
        events := events + more;
        HistoryFacts({});
        CleanTruncation(clean, model, more, ino, size.value, now, truncated.Done?);
        AttrsSetTrans(before, clean, model, ino, if truncated.Done? then size else None);
        if truncated.Fail? {
          return Fail(truncated.errno), events;
        }
      } else {
        NothingSet(clean, ino);
        AttrsSetTrans(before, clean, model, ino, None);
      }
      ghost var cut := model;
      ghost var dated;
      r, dated := SetMetadata(ino, mtime);
      assert log == old(log) + (events + dated);
      events := events + dated;
      AttrsSetThen(before, cut, model, ino, size);
      SameNodesSet(before, cut, ino, size);
      SettingIsParts(before, cut, ino, size, StoredTime(mtime), now);
    }

    /** Stores the time, and reads the attributes back. */
    method SetMetadata(ino: nat, mtime: Option<Timestamp>) returns (r: Reply<(nat, Time)>, ghost events: seq<Event>)
      requires Valid() && (mtime.Some? ==> mtime.value.IsMachine())
               && (ino in model.open ==> model.open[ino].dirty == map[])
      modifies this`log, this`model, db
      ensures Valid()
      ensures log == old(log) + events
      ensures if r.Done? then events == Dating(old(model), ino, StoredTime(mtime))
              else events <= Dating(old(model), ino, StoredTime(mtime))
      ensures OnlyChanges(old(model), model, {}) && (old(NoIdleSlot(model)) ==> NoIdleSlot(model))
      ensures ino in old(model).nodes ==>
                ino in model.nodes && ReportedSize(model, ino) == ReportedSize(old(model), ino)
      ensures r.Done? ==> mtime.Some? ==> r.value.1 == mtime.value.ToNs()
      ensures r.Done? && ino in model.nodes ==> r.value == (ReportedSize(model, ino), ReportedMtime(model, ino))
      ensures r.Done? ==> ino in db.tables.inodes
      ensures r.Done? && ino !in model.nodes ==> r.value == (db.tables.inodes[ino].size, db.tables.inodes[ino].mtime)
      ensures r.Fail? ==> StoreFails(r.errno) || (r.errno == ENOENT && ino !in db.tables.inodes)
      ensures TreeDated(old(db.tables), db.tables, ino, StoredTime(mtime))
              || (r.Fail? && Tables.SameTree(old(db.tables), db.tables))
    {
      hide Tables.DirsOf, Tables.WithTime, Table, Db.Valid, Inv, Step, Enabled, IsRun, After, Tables.NodesOf,
           OnlyChanges, NoIdleSlot, Timestamp.ToNs;
      events := [];
      OnlyChangesRefl(model, {});
      assert log == log + [];
      var updated;
      var metadata;
      metadata, updated := db.UpdateMetadata(ino, mtime);
      NodeHead(old(db.tables), ino);
      NodeHead(db.tables, ino);
      if ino in model.nodes {
        CleanSizeIf(model, ino);
        if updated && mtime.Some? {
          SetTimeOnlyDates(model, ino, mtime.value.ToNs());
          NoteTime(ino, mtime.value.ToNs());
          events := [SetTime(ino, mtime.value.ToNs())];
        }
      }
      r := if metadata.Ok? then Done(metadata.value) else Fail(ErrnoOf(metadata.error));
    }

    ghost method NoteTime(ino: nat, t: Time)
      requires db.Valid() && History() && Enabled(model, SetTime(ino, t))
               && db.Nodes() == Step(model, SetTime(ino, t)).nodes
      modifies this`log, this`model
      ensures Base() && log == old(log) + [SetTime(ino, t)] && model == Step(old(model), SetTime(ino, t))
    {
      hide Db.Valid, Db.Nodes, Step, Enabled, Inv, IsRun, After;
      Record(SetTime(ino, t));
    }

    /** Stops accepting buffered writes. */
    method RefuseWrites()
      requires Valid()
      modifies this`closing, this`log, this`model
      ensures Valid() && closing && log == old(log) + [StopWrites] && model == old(model).(closing := true)
    {
      hide Table, Db.Valid, Db.Nodes, Step, Enabled, Inv, IsRun, After;
      StopWritesStep(model);
      ExtendRun(init, log, StopWrites);
      closing := true;
      log := log + [StopWrites];
      model := Step(model, StopWrites);
    }

    /** The slots from `k` on are live, and theirs are the inodes still to be flushed. */
    ghost predicate IsPending(slots: seq<Slot>, k: nat, pending: set<nat>)
      requires k <= |slots|
      reads inodes`ino, inodes`byIno
    {
      && (forall j :: k <= j < |slots| ==> inodes.Live(slots[j]) && inodes.ino[slots[j]] in pending)
      && (forall i, j :: k <= i < j < |slots| ==> slots[i] != slots[j])
      && (forall i :: i in pending ==>
            exists j :: k <= j < |slots| && slots[j] < |inodes.ino| && inodes.ino[slots[j]] == i)
    }

    lemma AllPending(slots: seq<Slot>)
      requires Table(model.open, {})
      requires forall s: Slot :: s in slots <==> inodes.Live(s)
      requires forall i, j :: 0 <= i < j < |slots| ==> slots[i] != slots[j]
      ensures IsPending(slots, 0, model.open.Keys)
    {
      hide OwnersOk, DirtyIs, ChunkArena.Valid, Handles.Valid;
      NotOpenNotIndexed(model.open, {}, 0);
      forall j | 0 <= j < |slots| ensures inodes.Live(slots[j]) && inodes.ino[slots[j]] in model.open {
        assert slots[j] in slots;
        LiveFacts(slots[j], model.open, {});
      }
      forall i | i in model.open.Keys
        ensures exists j :: 0 <= j < |slots| && slots[j] < |inodes.ino| && inodes.ino[slots[j]] == i
      {
        IndexedIsLive(model.open, {}, i);
        assert inodes.byIno[i] in slots;
      }
    }

    lemma NextPending(slots: seq<Slot>, k: nat, pending: set<nat>)
      requires k < |slots| && IsPending(slots, k, pending)
      ensures inodes.Live(slots[k]) && inodes.ino[slots[k]] in pending
      ensures IsPending(slots, k + 1, pending - {inodes.ino[slots[k]]})
    {
    }

    lemma NonePending(slots: seq<Slot>, pending: set<nat>)
      requires IsPending(slots, |slots|, pending)
      ensures pending == {}
    {
    }

    /** Tries one commit for every inode with a name and buffered writes. Those refused keep their
        writes; all others are stored. The reply tells of the first refusal. */
    method FlushAll() returns (r: Reply<()>, ghost tried: seq<Attempt>, ghost events: seq<Event>)
      requires Valid()
      modifies this`log, this`model, this`owner, db, arena`free, inodes.dirty, inodes`byIno, inodes`refs,
               inodes`unlinked, inodes`free
      ensures Tables.SameTree(old(db.tables), db.tables)
      ensures Valid()
      ensures db.attempts == old(db.attempts) + tried && FlushedAll(old(model), model, tried)
      ensures log == old(log) + events && OnlyFlushes(events)
      ensures FirstRefusal(tried).Some? ==> r == Fail(ErrnoOf(FirstRefusal(tried).value))
      ensures r.Fail? ==> StoreFails(r.errno)
      ensures r.Done? ==> Refused(tried) == {} && AllLinkedClean(model)
    {
      hide Tables.DirsOf, Table, Base, Inv, FlushedSome, AllLinkedClean, OpenInodes.Valid, IsPending, Refused,
           FirstRefusal, OnlyFlushes;
      tried, events := [], [];
      var firstError: Option<Errno> := None;
      HistoryFacts({});
      NothingFlushed(model);
      NothingTried();
      assert log == log + [] && db.attempts == db.attempts + [];
      var slots := PendingSlots();
      ghost var pending := model.open.Keys;
      var k := 0;
      while k < |slots|
        invariant 0 <= k <= |slots|
        invariant Valid() && inodes.dirty == old(inodes.dirty) && |inodes.ino| == |inodes.dirty|
        invariant Tables.SameTree(old(db.tables), db.tables)
        invariant FlushedSome(old(model), model, tried, pending) && IsPending(slots, k, pending)
        invariant db.attempts == old(db.attempts) + tried
        invariant log == old(log) + events && OnlyFlushes(events)
        invariant firstError.Some? ==> StoreFails(firstError.value)
        invariant firstError == match FirstRefusal(tried) case None => None case Some(e) => Some(ErrnoOf(e))
      {
        var flushed;
        flushed, pending, tried, events := FlushNext(slots, k, old(model), old(db.attempts), old(log), pending, tried,
            events);
        if flushed.Fail? && firstError.None? {
          firstError := Some(flushed.errno);
        }
        k := k + 1;
      }
      NonePending(slots, pending);
      FirstOfRefused(tried);
      if firstError.Some? {
        return Fail(firstError.value), tried, events;
      }
      FlushedAllIsClean(old(model), model, tried);
      var synced := db.StorageOutcome();
      r := if synced.None? then Done(()) else Fail(ErrnoOf(synced.value));
    }

    /** Flushes the next of the slots. */
    method FlushNext(slots: seq<Slot>, k: nat, ghost before: Fs, ghost had: seq<Attempt>, ghost ran: seq<Event>,
                     ghost pending: set<nat>, ghost tried: seq<Attempt>, ghost events: seq<Event>)
        returns (r: Reply<()>, ghost pending': set<nat>, ghost tried': seq<Attempt>, ghost events': seq<Event>)
      requires k < |slots| && |inodes.ino| == |inodes.dirty| && Valid()
      requires FlushedSome(before, model, tried, pending) && IsPending(slots, k, pending)
      requires db.attempts == had + tried && log == ran + events && OnlyFlushes(events)
      modifies this`log, this`model, this`owner, db, arena`free, inodes.dirty, inodes`byIno, inodes`refs,
               inodes`unlinked, inodes`free
      ensures Tables.SameTree(old(db.tables), db.tables)
      ensures Valid()
      ensures FlushedSome(before, model, tried', pending') && IsPending(slots, k + 1, pending')
      ensures db.attempts == had + tried' && log == ran + events' && OnlyFlushes(events')
      ensures r.Fail? ==> StoreFails(r.errno)
      ensures r.Done? || FirstRefusal(tried).Some? ==> FirstRefusal(tried') == FirstRefusal(tried)
      ensures r.Fail? && FirstRefusal(tried).None? ==>
                FirstRefusal(tried').Some? && r == Fail(ErrnoOf(FirstRefusal(tried').value))
    {
      hide Tables.DirsOf, Table, Base, Inv, Step, Enabled, After, OnlyChanges, NoIdleSlot, IsIdle, FlushedSome,
           Settling, OpenInodes.Valid, Tries, FirstRefusal, OnlyFlushes;
      ghost var i, was, has := inodes.ino[slots[k]], model, db.attempts;
      NextPending(slots, k, pending);
      r := Settle(slots[k], Skip, i);
      tried' := OneFlushed(before, was, model, has, db.attempts, tried, pending, i, r);
      TriedInOrder(had, has, tried, db.attempts, tried');
      events' := if r.Done? then events + Settling(was, i, Skip) else events;
      assert log == ran + events';
      SettlingOnlyFlushes(events, was, i);
      pending' := pending - {i};
    }

    /** Every live slot once. */
    method PendingSlots() returns (slots: seq<Slot>)
      requires Valid()
      ensures IsPending(slots, 0, model.open.Keys) && |inodes.ino| == |inodes.dirty|
    {
      hide Base, OwnersOk, OpenTied, ChunkArena.Valid, Handles.Valid, RefsOk;
      NotOpenNotIndexed(model.open, {}, 0);
      slots := inodes.LiveSlots();
      AllPending(slots);
    }

    /** Refuses writes from now on, flushes everything, and notes the reply. */
    method FlushForShutdown() returns (r: Reply<()>, ghost tried: seq<Attempt>, ghost events: seq<Event>)
      requires Valid()
      modifies this`closing, this`lastFlush, this`log, this`model, this`owner, db, arena`free, inodes.dirty,
               inodes`byIno, inodes`refs, inodes`unlinked, inodes`free
      ensures Tables.SameTree(old(db.tables), db.tables)
      ensures Valid() && closing && lastFlush == r
      ensures db.attempts == old(db.attempts) + tried && FlushedAll(old(model).(closing := true), model, tried)
      ensures log == old(log) + [StopWrites] + events && OnlyFlushes(events)
      ensures FirstRefusal(tried).Some? ==> r == Fail(ErrnoOf(FirstRefusal(tried).value))
      ensures r.Done? ==> Refused(tried) == {} && AllLinkedClean(model)
      ensures r.Fail? ==> StoreFails(r.errno)
    {
      hide Tables.DirsOf, Table, Base, FlushedSome, AllLinkedClean, OnlyFlushes, Refused, FirstRefusal;
      RefuseWrites();
      r, tried, events := FlushAll();
      lastFlush := r;
    }

    /** The end of the session: flushes everything, and notes the reply. */
    method Destroy() returns (ghost tried: seq<Attempt>, ghost events: seq<Event>)
      requires Valid()
      modifies this`lastFlush, this`log, this`model, this`owner, db, arena`free, inodes.dirty, inodes`byIno,
               inodes`refs, inodes`unlinked, inodes`free
      ensures Tables.SameTree(old(db.tables), db.tables)
      ensures Valid()
      ensures db.attempts == old(db.attempts) + tried && FlushedAll(old(model), model, tried)
      ensures log == old(log) + events && OnlyFlushes(events)
      ensures FirstRefusal(tried).Some? ==> lastFlush == Fail(ErrnoOf(FirstRefusal(tried).value))
      ensures lastFlush.Done? ==> Refused(tried) == {} && AllLinkedClean(model)
      ensures lastFlush.Fail? ==> StoreFails(lastFlush.errno)
    {
      hide Tables.DirsOf, Table, Base, FlushedSome, AllLinkedClean, OnlyFlushes, Refused, FirstRefusal;
      var r;
      r, tried, events := FlushAll();
      lastFlush := r;
    }

    /* ----- What all operations together promise ----- */

    /** Whatever ran before, a read by handle or by inode returns the bytes of the plain array that
        the writes and truncations of the mount so far have made of the file. */
    lemma ReadsArePlainBytes(ino: nat, offset: nat, size: nat, bytes: Blob)
      requires Valid() && ReadOutcome(ino, offset, size, Done(bytes)) && Reachable(model, ino)
      ensures var plain := FoldBytes(ContentsOf(LogicalFiles(init)), log);
              ino in plain && bytes == Window(plain[ino], offset, size)
    {
      hide Table, Db.Valid, Db.Nodes, Inv, Contents, FoldBytes;
      RunOfMount();
      RunRefinesBytes(init, log);
      hide IsRun, After;
      assert ContentsOf(LogicalFiles(model))[ino] == Contents(Logical(model, ino));
    }

    /** The events an operation has added to the log are a run from the state it found to the state
        it left, so every theorem about runs applies to each operation and to any sequence of them. */
    lemma OperationIsARun(before: seq<Event>, events: seq<Event>)
      requires Base() && log == before + events
      ensures IsRun(After(init, before), events) && model == After(After(init, before), events)
    {
      hide Db.Valid, Db.Nodes, Inv, IsRun, After;
      RunOfMount();
      SuffixRun(init, before, events);
    }

    lemma RunOfMount()
      requires Base()
      ensures IsRun(init, log) && model == After(init, log) && init.open == map[] && model.nodes == db.Nodes()
    {
    }

    /** A crash at this moment would leave, of every file, what the file was at an earlier point of
        the mount. */
    lemma CrashLeavesAnEarlierState(ino: nat) returns (k: nat)
      requires Valid() && ino in db.Nodes()
      ensures StoredSince(init, log, ino, k) && db.Nodes()[ino].file == Logical(After(init, log[..k]), ino)
    {
      hide Table, Db.Valid, Db.Nodes, Inv, IsRun, After, Logical;
      RunOfMount();
      k := StoredIsAnEarlierState(init, log, ino);
    }

    /** Buffers writes one by one and flushes them: when all succeed, the store holds exactly the
        rows and the size one unbuffered batch would have left. */
    method BufferAndFlush(ino: nat, writes: seq<(nat, Blob)>, now: Time) returns (r: Reply<()>)
      requires Valid() && ino in model.nodes && model.nodes[ino].nlink > 0
      requires forall w :: w in writes ==> w.0 + |w.1| <= U64_MAX
      modifies this`log, this`model, this`owner, db, arena, inodes, inodes.dirty
      ensures Tables.SameTree(old(db.tables), db.tables)
      ensures Valid()
      ensures r.Done? ==>
                && ino in db.Nodes() && ino in old(model).nodes
                && db.Nodes()[ino].file == WriteBatch(old(Logical(model, ino)), writes)
      ensures db.healthy ==>
                (r.Done? <==> forall w :: w in writes && w.1 != [] ==> MayWrite(old(model), ino, w.0, w.1))
    {
      hide Tables.DirsOf, Table, Db.Valid, Db.Nodes, Inv, IsRun, After, Logical, WriteBatch, Wrote, OpenInodes.Valid;
      NoBatch(Logical(model, ino));
      assert writes[..0] == [];
      var k := 0;
      while k < |writes|
        invariant 0 <= k <= |writes|
        invariant Valid() && ino in model.nodes && model.nodes[ino].nlink > 0
        invariant Tables.SameTree(old(db.tables), db.tables)
        invariant Logical(model, ino) == WriteBatch(old(Logical(model, ino)), writes[..k])
        invariant model.nodes[ino].kind == old(model).nodes[ino].kind && model.closing == old(model).closing
        invariant forall j :: 0 <= j < k && writes[j].1 != [] ==> MayWrite(old(model), ino, writes[j].0, writes[j].1)
        invariant fresh(set d | d in inodes.dirty && d !in old(inodes.dirty))
      {
        var (offset, data) := writes[k];
        NextWrite(old(Logical(model, ino)), writes, k);
        ghost var before := model;
        var written;
        ghost var events;
        written, events := Write(ino, offset, data, now);
        if written.Fail? {
          return Fail(written.errno);
        }
        WroteWholeFile(before, model, events, ino, offset, data, written);
        k := k + 1;
      }
      assert writes[..k] == writes;
      ghost var buffered := model;
      HistoryFacts({});
      r := FlushFile(ino);
      HistoryFacts({});
      if r.Done? {
        SettledIsStored(buffered, model, ino);
      }
    }
  }

  /** A crash and the next start. Only what is stored survives: the new mount is valid, has the
      entries and directories of the old one and exactly its inodes with names, and each file is what
      it was at an earlier point of the old mount. */
  method Restart(crashed: Shared, now: Time, healthy: bool, budget: nat) returns (s: Shared)
    requires crashed.Valid()
    ensures fresh(s) && s.Valid() && s.log == [] && s.model.open == map[]
    ensures s.db.tables.dirents == crashed.db.tables.dirents
    ensures forall i :: i in s.model.nodes <==> i in crashed.model.nodes && crashed.model.nodes[i].nlink != 0
    ensures forall i :: i in crashed.db.tables.inodes && crashed.db.tables.inodes[i].kind == Directory ==>
                          i in s.db.tables.inodes && s.db.tables.inodes[i] == crashed.db.tables.inodes[i]
    ensures forall i :: i in s.model.nodes ==> IsEarlierFile(crashed.init, crashed.log, i, Logical(s.model, i))
  {
    hide Shared.Table, Db.Valid, Tables.TablesOk, Tables.Repairable, Tables.NodesOf, Tables.NsOf, Namespace.LinksOk,
         IsRun, After, NodeOk, SlotOk, StoredSince;
    ghost var nodes := crashed.db.Nodes();
    forall i | i in nodes ensures IsEarlierFile(crashed.init, crashed.log, i, nodes[i].file) {
      var k := crashed.CrashLeavesAnEarlierState(i);
    }
    crashed.db.TablesAreOk();
    Tables.ValidIsRepairable(crashed.db.tables);
    var store := new Db.Open(crashed.db.tables, now, healthy);
    s := new Shared(store, budget);
  }

  ghost predicate IsEarlierFile(init: Fs, log: seq<Event>, i: nat, f: File) {
    exists k: nat :: StoredSince(init, log, i, k) && f == Logical(After(init, log[..k]), i)
  }

  const RENAME_NOREPLACE: nat := 1

  /** The entries are the same, and the directories but for the time of at most one. */
  ghost predicate TreeDated(before: Tables.Tables, after: Tables.Tables, i: nat, t: Option<Time>) {
    && after.dirents == before.dirents
    && Tables.DirsOf(after) == Tables.WithTime(Tables.DirsOf(before), i, t)
  }

  function StoredTime(t: Option<Timestamp>): Option<Time>
    requires t.Some? ==> t.value.IsMachine()
  {
    if t.Some? then Some(t.value.ToNs()) else None
  }

  lemma TargetIsNode(t: Tables.Tables, target: Tables.Found)
    requires Tables.IsCurrent(t, target) && target.kind != Directory
    ensures target.ino in Tables.NodesOf(t) && Tables.NodesOf(t)[target.ino].nlink == target.nlink
  {
    hide Tables.RowsOf;
  }

  lemma LinkedNode(t: Tables.Tables, ino: nat)
    requires ino in t.inodes && !Namespace.IsDir(Tables.NsOf(t), ino)
    ensures ino in Tables.NodesOf(t) && Tables.NodesOf(t)[ino].nlink == t.inodes[ino].nlink
  {
    hide Tables.RowsOf;
  }
}
