/** Inodes with open handles or unflushed data, and the handles that map to them. */
module OpenTable {
  import opened Basics
  import opened Chunking
  import opened Model
  import opened Arena

  /** A position in the columns of `OpenInodes`. */
  type Slot = nat

  /** The scalar fields of one slot, read across the arrays. */
  datatype OpenRow = OpenRow(kind: FileKind, size: nat, mtime: int, refs: nat, unlinked: bool)

  predicate LiveIn(ino: seq<nat>, byIno: map<nat, Slot>, s: Slot) {
    s < |ino| && ino[s] in byIno && byIno[ino[s]] == s
  }

  /** The index maps inode numbers to live slots one to one, and every other slot is free, once. */
  ghost predicate IndexOk(ino: seq<nat>, byIno: map<nat, Slot>, free: seq<Slot>) {
    && (forall i :: i in byIno ==> byIno[i] < |ino| && ino[byIno[i]] == i)
    && (forall k :: 0 <= k < |free| ==> free[k] < |ino| && !LiveIn(ino, byIno, free[k]))
    && (forall j, k :: 0 <= j < k < |free| ==> free[j] != free[k])
    && (forall s :: 0 <= s < |ino| && !LiveIn(ino, byIno, s) ==> s in free)
  }

  lemma ReuseKeepsIndex(ino: seq<nat>, byIno: map<nat, Slot>, free: seq<Slot>, i: nat)
    requires IndexOk(ino, byIno, free) && i !in byIno && free != []
    ensures var slot := free[|free| - 1];
            var now := ino[slot := i];
            && IndexOk(now, byIno[i := slot], free[..|free| - 1])
            && LiveIn(now, byIno[i := slot], slot)
            && forall s :: 0 <= s < |ino| && s != slot ==> (LiveIn(now, byIno[i := slot], s) <==> LiveIn(ino, byIno, s))
  {
    var slot := free[|free| - 1];
    var now, index := ino[slot := i], byIno[i := slot];
    forall s | 0 <= s < |ino| && s != slot ensures LiveIn(now, index, s) <==> LiveIn(ino, byIno, s) {
    }
    forall s | 0 <= s < |ino| && !LiveIn(now, index, s) ensures s in free[..|free| - 1] {
      assert s in free;
    }
  }

  lemma GrowKeepsIndex(ino: seq<nat>, byIno: map<nat, Slot>, i: nat)
    requires IndexOk(ino, byIno, []) && i !in byIno
    ensures IndexOk(ino + [i], byIno[i := |ino|], [])
    ensures LiveIn(ino + [i], byIno[i := |ino|], |ino|)
    ensures forall s :: 0 <= s < |ino| ==> LiveIn(ino + [i], byIno[i := |ino|], s) && LiveIn(ino, byIno, s)
  {
    forall s | 0 <= s < |ino| ensures LiveIn(ino + [i], byIno[i := |ino|], s) && LiveIn(ino, byIno, s) {
      assert LiveIn(ino, byIno, s);
    }
  }

  lemma RemoveKeepsIndex(ino: seq<nat>, byIno: map<nat, Slot>, free: seq<Slot>, slot: Slot)
    requires IndexOk(ino, byIno, free) && LiveIn(ino, byIno, slot)
    ensures IndexOk(ino, byIno - {ino[slot]}, free + [slot])
    ensures !LiveIn(ino, byIno - {ino[slot]}, slot)
    ensures forall s :: 0 <= s < |ino| && s != slot ==> (LiveIn(ino, byIno - {ino[slot]}, s) <==> LiveIn(ino, byIno, s))
  {
  }

  class OpenInodes {
    var ino: seq<nat>
    var kind: seq<FileKind>
    var size: seq<nat>
    /** Nothing is said of it for a slot whose index is empty. */
    var mtime: seq<int>
    var refs: seq<nat>
    /** The inode has no entry; such slots hold at least one reference. */
    var unlinked: seq<bool>
    var dirty: seq<DirtyIdx>
    var byIno: map<nat, Slot>
    var free: seq<Slot>

    ghost predicate SameLengths()
      reads this
    {
      |kind| == |ino| && |size| == |ino| && |mtime| == |ino| && |refs| == |ino| && |unlinked| == |ino|
          && |dirty| == |ino|
    }

    predicate Live(s: Slot)
      reads this`ino, this`byIno
    {
      LiveIn(ino, byIno, s)
    }

    /** Slots that are not live are blank, and no two slots share a dirty index. */
    ghost predicate Valid()
      reads this, dirty
    {
      && SameLengths()
      && IndexOk(ino, byIno, free)
      && (forall s :: 0 <= s < |ino| && !Live(s) ==> refs[s] == 0 && !unlinked[s] && dirty[s].entries == [])
      && (forall s, t :: 0 <= s < t < |dirty| ==> dirty[s] != dirty[t])
      && (forall s :: 0 <= s < |dirty| ==> dirty[s].Valid())
    }

    function Row(s: Slot): OpenRow
      requires SameLengths() && s < |ino|
      reads this
    {
      OpenRow(kind[s], size[s], mtime[s], refs[s], unlinked[s])
    }

    ghost function Rows(): (r: seq<OpenRow>)
      requires SameLengths()
      reads this
      ensures |r| == |ino| && forall s :: 0 <= s < |ino| ==> r[s] == Row(s)
    {
      seq(|ino|, s requires SameLengths() && 0 <= s < |ino| reads this => Row(s))
    }

    /** The dirty index of every slot. */
    ghost function Entries(): (r: seq<seq<DirtyEntry>>)
      reads this`dirty, dirty
      ensures |r| == |dirty| && forall s :: 0 <= s < |dirty| ==> r[s] == dirty[s].entries
    {
      var indices := dirty;
      seq(|indices|, s requires 0 <= s < |indices| reads indices => indices[s].entries)
    }

    constructor ()
      ensures Valid() && byIno == map[] && ino == []
    {
      ino, kind, size, mtime, refs, unlinked, dirty := [], [], [], [], [], [], [];
      byIno, free := map[], [];
    }

    function Find(i: nat): (r: Option<Slot>)
      reads this
      ensures r.Some? <==> i in byIno
      ensures r.Some? ==> r.value == byIno[i]
    {
      if i in byIno then Some(byIno[i]) else None
    }

    predicate IsOpen(s: Slot)
      requires s < |refs|
      reads this
    {
      refs[s] > 0
    }

    lemma FreeIsNotLive(k: nat)
      requires Valid() && k < |free|
      ensures free[k] < |ino| && !Live(free[k])
    {
    }

    /** Takes a free place for a new slot. */
    method Reuse(i: nat, k: FileKind, n: nat) returns (slot: Slot)
      requires Valid() && i !in byIno && free != []
      modifies this
      ensures Valid()
      ensures byIno == old(byIno)[i := slot] && Live(slot) && !old(Live(slot))
      ensures dirty == old(dirty) && ino == old(ino)[slot := i]
      ensures Row(slot) == OpenRow(k, n, 0, 0, false) && dirty[slot].entries == []
      ensures forall s :: 0 <= s < |ino| && s != slot ==> Row(s) == old(Row(s)) && (Live(s) <==> old(Live(s)))
    {
      hide IndexOk, LiveIn;
      ReuseKeepsIndex(ino, byIno, free, i);
      FreeIsNotLive(|free| - 1);
      slot := free[|free| - 1];
      free := free[..|free| - 1];
      ino := ino[slot := i];
      kind := kind[slot := k];
      size := size[slot := n];
      mtime := mtime[slot := 0];
      refs := refs[slot := 0];
      unlinked := unlinked[slot := false];
      byIno := byIno[i := slot];
    }

    /** Makes a new place for a new slot. */
    method Grow(i: nat, k: FileKind, n: nat) returns (slot: Slot)
      requires Valid() && i !in byIno && free == []
      modifies this
      ensures Valid()
      ensures byIno == old(byIno)[i := slot] && Live(slot)
      ensures slot == old(|ino|) && ino == old(ino) + [i]
      ensures dirty == old(dirty) + [dirty[slot]] && fresh(dirty[slot])
      ensures Row(slot) == OpenRow(k, n, 0, 0, false) && dirty[slot].entries == []
      ensures forall s :: 0 <= s < slot ==> Row(s) == old(Row(s)) && (Live(s) <==> old(Live(s)))
    {
      hide IndexOk, LiveIn;
      GrowKeepsIndex(ino, byIno, i);
      slot := |ino|;
      var idx := new DirtyIdx();
      ino := ino + [i];
      kind := kind + [k];
      size := size + [n];
      mtime := mtime + [0];
      refs := refs + [0];
      unlinked := unlinked + [false];
      dirty := dirty + [idx];
      byIno := byIno[i := slot];
    }

    /** A blank row for `i`, at a position that was not live. */
    method Insert(i: nat, k: FileKind, n: nat) returns (slot: Slot)
      requires Valid() && i !in byIno
      modifies this
      ensures Valid()
      ensures byIno == old(byIno)[i := slot] && Live(slot) && !old(Live(slot))
      ensures ino[slot] == i && Row(slot) == OpenRow(k, n, 0, 0, false) && dirty[slot].entries == []
      ensures |ino| == old(|ino|) || (slot == old(|ino|) && |ino| == slot + 1)
      ensures forall s :: 0 <= s < |ino| && s != slot ==>
                s < old(|ino|) && ino[s] == old(ino[s]) && Row(s) == old(Row(s))
      ensures forall s :: 0 <= s < |ino| && s != slot ==> (Live(s) <==> old(Live(s)))
      ensures dirty == old(dirty) || (dirty == old(dirty) + [dirty[slot]] && fresh(dirty[slot]))
    {
      if free != [] {
        slot := Reuse(i, k, n);
      } else {
        slot := Grow(i, k, n);
      }
    }

    /** Frees a slot whose dirty chunks the caller has dealt with. */
    method Remove(slot: Slot)
      requires Valid() && Live(slot) && dirty[slot].entries == []
      modifies this`byIno, this`refs, this`unlinked, this`free
      ensures Valid() && !Live(slot)
      ensures byIno == old(byIno) - {old(ino[slot])}
      ensures Rows() == old(Rows())[slot := old(Row(slot)).(refs := 0, unlinked := false)]
      ensures forall s :: 0 <= s < |ino| && s != slot ==> (Live(s) <==> old(Live(s)))
      ensures refs == old(refs)[slot := 0]
    {
      hide IndexOk;
      RemoveKeepsIndex(ino, byIno, free, slot);
      byIno := byIno - {ino[slot]};
      refs := refs[slot := 0];
      unlinked := unlinked[slot := false];
      free := free + [slot];
    }

    /** Overwrites one reference count. */
    method SetRefs(slot: Slot, n: nat)
      requires Valid() && Live(slot)
      modifies this`refs
      ensures Valid() && refs == old(refs)[slot := n]
      ensures Rows() == old(Rows())[slot := old(Row(slot)).(refs := n)]
    {
      hide IndexOk;
      refs := refs[slot := n];
    }

    /** Overwrites one size. */
    method SetSize(slot: Slot, n: nat)
      requires Valid() && Live(slot)
      modifies this`size
      ensures Valid() && Rows() == old(Rows())[slot := old(Row(slot)).(size := n)]
    {
      hide IndexOk;
      size := size[slot := n];
    }

    /** Overwrites one time of the latest write. */
    method SetMtime(slot: Slot, t: int)
      requires Valid() && Live(slot)
      modifies this`mtime
      ensures Valid() && Rows() == old(Rows())[slot := old(Row(slot)).(mtime := t)]
    {
      hide IndexOk;
      mtime := mtime[slot := t];
    }

    method MarkUnlinked(slot: Slot)
      requires Valid() && Live(slot)
      modifies this`unlinked
      ensures Valid() && Rows() == old(Rows())[slot := old(Row(slot)).(unlinked := true)]
    {
      hide IndexOk;
      unlinked := unlinked[slot := true];
    }

    /** Inserts an entry into one dirty index. */
    method InsertDirty(slot: Slot, position: nat, chunk: nat, a: ArenaSlot)
      requires Valid() && slot < |dirty| && position <= |dirty[slot].entries|
      requires forall k :: 0 <= k < position ==> dirty[slot].entries[k].0 < chunk
      requires forall k :: position <= k < |dirty[slot].entries| ==> dirty[slot].entries[k].0 > chunk
      requires Live(slot)
      modifies dirty[slot]
      ensures Valid()
      ensures Entries() == old(Entries())[slot := old(dirty[slot].entries)[..position] + [(chunk, a)]
              + old(dirty[slot].entries)[position..]]
    {
      hide IndexOk;
      dirty[slot].Insert(position, chunk, a);
    }

    /** Returns the arena slots of one dirty index and empties it. */
    method ReleaseDirty(slot: Slot, arena: ChunkArena)
      requires Valid() && slot < |dirty| && arena.Valid()
      requires forall k :: 0 <= k < |dirty[slot].entries| ==>
                             dirty[slot].entries[k].1 < |arena.len| && dirty[slot].entries[k].1 !in arena.FreeSet()
      requires forall j, k :: 0 <= j < k < |dirty[slot].entries| ==>
                 dirty[slot].entries[j].1 != dirty[slot].entries[k].1
      modifies dirty[slot], arena`free
      ensures Valid() && Entries() == old(Entries())[slot := []]
      ensures arena.Valid() && arena.Chunks() == old(arena.Chunks())
      ensures |arena.free| == |old(arena.free)| + |old(dirty[slot].entries)|
      ensures arena.FreeSet() == old(arena.FreeSet()) + SlotsOf(old(dirty[slot].entries))
    {
      hide IndexOk;
      forall k | 0 <= k < |dirty[slot].entries| ensures dirty[slot].entries[k].1 !in arena.free {
        assert dirty[slot].entries[k].1 !in arena.FreeSet();
      }
      dirty[slot].ReleaseInto(arena);
    }

    /** Every live slot once, in no particular order. */
    method LiveSlots() returns (slots: seq<Slot>)
      requires Valid()
      ensures forall s: Slot :: s in slots <==> Live(s)
      ensures forall j, k :: 0 <= j < k < |slots| ==> slots[j] != slots[k]
    {
      slots := [];
      var todo := byIno.Keys;
      while todo != {}
        invariant todo <= byIno.Keys
        invariant forall s: Slot :: s in slots <==> Live(s) && ino[s] !in todo
        invariant forall j, k :: 0 <= j < k < |slots| ==> slots[j] != slots[k]
        decreases |todo|
      {
        var i :| i in todo;
        todo := todo - {i};
        slots := slots + [byIno[i]];
      }
    }

    /** No live slot has more dirty chunks, and this one has some. */
    ghost predicate MostDirty(slot: Slot)
      reads this, dirty
    {
      && SameLengths() && Live(slot) && dirty[slot].entries != []
      && forall s: Slot :: Live(s) ==> |dirty[s].entries| <= |dirty[slot].entries|
    }

    /** A live slot whose index is as long as any; which one, if several are, is left open. */
    method LargestDirty() returns (r: Option<Slot>)
      requires Valid()
      ensures r.None? ==> forall s: Slot :: Live(s) ==> dirty[s].entries == []
      ensures r.Some? ==> MostDirty(r.value)
    {
      r := None;
      var todo := byIno.Keys;
      while todo != {}
        invariant todo <= byIno.Keys
        invariant r.None? ==> forall s: Slot :: Live(s) && ino[s] !in todo ==> dirty[s].entries == []
        invariant r.Some? ==> Live(r.value) && dirty[r.value].entries != []
        invariant r.Some? ==> forall s: Slot :: Live(s) && ino[s] !in todo ==>
                    |dirty[s].entries| <= |dirty[r.value].entries|
        decreases |todo|
      {
        var i :| i in todo;
        todo := todo - {i};
        var s := byIno[i];
        if dirty[s].entries != [] && (r.None? || |dirty[r.value].entries| <= |dirty[s].entries|) {
          r := Some(s);
        }
      }
    }
  }

  datatype SlotRef = NoSlot | At(slot: Slot)

  /** Handles are positions in `slot`. */
  class Handles {
    var slot: seq<SlotRef>
    var free: seq<nat>

    ghost predicate Valid()
      reads this
    {
      && (forall k :: 0 <= k < |free| ==> free[k] < |slot| && slot[free[k]] == NoSlot)
      && (forall j, k :: 0 <= j < k < |free| ==> free[j] != free[k])
      && (forall fh :: 0 <= fh < |slot| && slot[fh] == NoSlot ==> fh in free)
    }

    constructor ()
      ensures Valid() && slot == []
    {
      slot, free := [], [];
    }

    /** How many handles map to a slot. */
    ghost function Count(s: Slot): nat
      reads this
    {
      multiset(slot)[At(s)]
    }

    method Alloc(s: Slot) returns (fh: nat)
      requires Valid()
      modifies this
      ensures Valid()
      ensures Get(fh) == Some(s) && old(Get(fh)).None?
      ensures forall h: nat :: h != fh ==> Get(h) == old(Get(h))
      ensures Count(s) == old(Count(s)) + 1 && forall t: Slot :: t != s ==> Count(t) == old(Count(t))
    {
      if free != [] {
        fh := free[|free| - 1];
        free := free[..|free| - 1];
        slot := slot[fh := At(s)];
      } else {
        slot := slot + [At(s)];
        fh := |slot| - 1;
      }
    }

    function Get(fh: nat): (r: Option<Slot>)
      reads this
      ensures r.Some? <==> fh < |slot| && slot[fh].At?
      ensures r.Some? ==> slot[fh] == At(r.value)
    {
      if fh < |slot| && slot[fh].At? then Some(slot[fh].slot) else None
    }

    /** Undoes `Alloc`: the handle leads nowhere and its slot counts one less. `None` if it led nowhere. */
    method Release(fh: nat) returns (r: Option<Slot>)
      requires Valid()
      modifies this
      ensures Valid()
      ensures r == old(Get(fh)) && Get(fh).None?
      ensures forall h: nat :: h != fh ==> Get(h) == old(Get(h))
      ensures r.None? ==> slot == old(slot)
      ensures r.Some? ==> old(Count(r.value)) >= 1 && Count(r.value) == old(Count(r.value)) - 1
                          && forall t: Slot :: t != r.value ==> Count(t) == old(Count(t))
    {
      r := Get(fh);
      if r.None? {
        return;
      }
      assert slot[fh] in multiset(slot);
      slot := slot[fh := NoSlot];
      free := free + [fh];
    }

    /** A slot is counted exactly when some handle maps to it. */
    lemma CountedIffMapped(s: Slot)
      ensures Count(s) > 0 <==> exists fh: nat :: Get(fh) == Some(s)
    {
      if Count(s) > 0 {
        assert At(s) in multiset(slot);
        var fh :| 0 <= fh < |slot| && slot[fh] == At(s);
        assert Get(fh) == Some(s);
      }
      if fh: nat :| Get(fh) == Some(s) {
        assert slot[fh] in multiset(slot);
      }
    }
  }
}
