/** Memory for dirty chunks: one arena of chunk-sized slots, and a sorted index per inode. */
module Arena {
  import opened Basics
  import opened Chunking
  import opened Files

  /** Index of a slot in the arena. */
  type ArenaSlot = nat

  lemma OverwriteElsewhere(bytes: Blob, at: nat, d: Blob, from: nat, to: nat)
    requires at + |d| <= |bytes| && from <= to <= |bytes|
    requires to <= at || at + |d| <= from
    ensures Overwrite(bytes, at, d)[from..to] == bytes[from..to]
  {
  }

  lemma SlotsApart(a: nat, b: nat)
    requires a != b
    ensures a * CHUNK_SIZE + CHUNK_SIZE <= b * CHUNK_SIZE || b * CHUNK_SIZE + CHUNK_SIZE <= a * CHUNK_SIZE
  {
  }

  class ChunkArena {
    var bytes: Blob
    /** The chunk of slot `a` is the first `len[a]` bytes of its array. */
    var len: seq<nat>
    var free: seq<ArenaSlot>
    /** How many slots the arena may ever have; at least one. */
    const maxSlots: nat

    ghost predicate Valid()
      reads this
    {
      && |bytes| == |len| * CHUNK_SIZE
      && 1 <= maxSlots && |len| <= maxSlots
      && (forall a :: 0 <= a < |len| ==> len[a] <= CHUNK_SIZE)
      && (forall k :: 0 <= k < |free| ==> free[k] < |len|)
      && (forall j, k :: 0 <= j < k < |free| ==> free[j] != free[k])
    }

    /** The whole chunk-sized buffer of a slot. */
    function Buffer(a: ArenaSlot): (b: Blob)
      requires a * CHUNK_SIZE + CHUNK_SIZE <= |bytes|
      reads this
    {
      bytes[a * CHUNK_SIZE..a * CHUNK_SIZE + CHUNK_SIZE]
    }

    /** The valid bytes of a slot. */
    function Chunk(a: ArenaSlot): (b: Blob)
      requires Valid() && a < |len|
      reads this
      ensures b == Buffer(a)[..len[a]]
    {
      bytes[a * CHUNK_SIZE..a * CHUNK_SIZE + len[a]]
    }

    /** The valid bytes of every slot. */
    ghost function Chunks(): (r: seq<Blob>)
      requires Valid()
      reads this
      ensures |r| == |len| && forall a :: 0 <= a < |len| ==> r[a] == Chunk(a)
    {
      seq(|len|, a requires Valid() && 0 <= a < |len| reads this => Chunk(a))
    }

    ghost function FreeSet(): set<ArenaSlot>
      reads this
    {
      set k | 0 <= k < |free| :: free[k]
    }

    /** No slot exists yet. `maxSlots` is the number of whole chunks in `budget`, but never zero. */
    constructor (budget: nat)
      ensures Valid() && len == [] && free == []
      ensures maxSlots == Max(budget / CHUNK_SIZE, 1)
    {
      bytes, len, free := [], [], [];
      maxSlots := Max(budget / CHUNK_SIZE, 1);
    }

    /** Takes a slot out of the free list or makes a new one; `None` exactly if neither is possible. */
    method Alloc() returns (r: Option<ArenaSlot>)
      requires Valid()
      modifies this
      ensures Valid()
      ensures r.None? <==> old(free) == [] && |old(len)| == maxSlots
      ensures r.None? ==> len == old(len) && bytes == old(bytes) && free == old(free)
      ensures r.Some? ==>
                && r.value < |len| && len[r.value] == 0 && Chunk(r.value) == []
                && (if old(free) == [] then r.value == |old(len)| && |len| == |old(len)| + 1 && free == []
                    else free + [r.value] == old(free) && |len| == |old(len)|)
      ensures forall b :: 0 <= b < |old(len)| && r != Some(b) ==> Chunks()[b] == old(Chunks()[b])
    {
      var slot;
      if free != [] {
        slot := free[|free| - 1];
        free := free[..|free| - 1];
      } else if |len| < maxSlots {
        bytes := bytes + Zeros(CHUNK_SIZE);
        len := len + [0];
        slot := |len| - 1;
      } else {
        return None;
      }
      len := len[slot := 0];
      assert forall b :: 0 <= b < |old(len)| && b != slot ==> Chunk(b) == old(Chunk(b));
      return Some(slot);
    }

    method Release(a: ArenaSlot)
      requires Valid() && a < |len| && a !in free
      modifies this`free
      ensures Valid() && free == old(free) + [a] && Chunks() == old(Chunks())
      ensures FreeSet() == old(FreeSet()) + {a}
    {
      free := free + [a];
      assert forall b :: 0 <= b < |len| ==> Chunk(b) == old(Chunk(b));
      forall b ensures b in FreeSet() <==> b in old(FreeSet()) + {a} {
        if b == a {
          assert free[|free| - 1] == a;
        }
        if k :| 0 <= k < |old(free)| && old(free)[k] == b {
          assert free[k] == b;
        }
      }
    }

    /** Copies `data` into the buffer of a slot, whatever its valid length. */
    method CopyInto(a: ArenaSlot, at: nat, data: Blob)
      requires Valid() && a < |len| && at + |data| <= CHUNK_SIZE
      modifies this`bytes
      ensures Valid() && |bytes| == old(|bytes|)
      ensures bytes == Overwrite(old(bytes), a * CHUNK_SIZE + at, data)
      ensures forall b :: 0 <= b < |len| && b != a ==> Chunk(b) == old(Chunk(b))
    {
      ghost var was := bytes;
      bytes := Overwrite(bytes, a * CHUNK_SIZE + at, data);
      forall b | 0 <= b < |len| && b != a ensures Chunk(b) == old(Chunk(b)) {
        SlotsApart(a, b);
        OverwriteElsewhere(was, a * CHUNK_SIZE + at, data, b * CHUNK_SIZE, b * CHUNK_SIZE + len[b]);
      }
    }

    /** Fills the start of a slot's buffer from storage. The valid length is set after. */
    method Fill(a: ArenaSlot, data: Blob)
      requires Valid() && a < |len| && |data| <= CHUNK_SIZE
      modifies this`bytes
      ensures Valid() && |bytes| == old(|bytes|)
      ensures Buffer(a)[..|data|] == data
      ensures forall b :: 0 <= b < |len| && b != a ==> Chunks()[b] == old(Chunks()[b])
    {
      CopyInto(a, 0, data);
    }

    method SetLen(a: ArenaSlot, n: nat)
      requires Valid() && a < |len| && n <= CHUNK_SIZE
      modifies this`len
      ensures Valid() && len == old(len)[a := n] && Chunk(a) == Buffer(a)[..n]
      ensures forall b :: 0 <= b < |len| && b != a ==> Chunks()[b] == old(Chunks()[b])
    {
      len := len[a := n];
      assert forall b :: 0 <= b < |len| && b != a ==> Chunk(b) == old(Chunk(b));
    }

    /** Slot `a` becomes the patched chunk, whatever bytes its array held past the old length; the
        other slots keep theirs. */
    method Write(a: ArenaSlot, start: nat, data: Blob)
      requires Valid() && a < |len| && start + |data| <= CHUNK_SIZE
      modifies this`bytes, this`len
      ensures Valid() && |len| == old(|len|)
      ensures Chunks() == old(Chunks())[a := Patch(old(Chunk(a)), start, data)]
    {
      hide Patch, Overwrite, Zeros;
      var n := len[a];
      ghost var was := bytes;
      if start > n {
        CopyInto(a, n, Zeros(start - n));
      }
      ghost var gap := bytes;
      CopyInto(a, start, data);
      OverwrittenIsPatch(was, gap, bytes, a * CHUNK_SIZE, n, start, data);
      len := len[a := Max(n, start + |data|)];
      assert forall b :: 0 <= b < |len| && b != a ==> Chunk(b) == old(Chunk(b));
    }
  }

  lemma OverwrittenIsPatch(was: Blob, gap: Blob, now: Blob, base: nat, n: nat, start: nat, d: Blob)
    requires base + Max(n, start + |d|) <= |was| == |gap| == |now|
    requires gap == if start > n then Overwrite(was, base + n, Zeros(start - n)) else was
    requires now == Overwrite(gap, base + start, d)
    ensures now[base..base + Max(n, start + |d|)] == Patch(was[base..base + n], start, d)
  {
    hide Overwrite, Zeros;
    var a, b := now[base..base + Max(n, start + |d|)], Patch(was[base..base + n], start, d);
    assert |a| == |b|;
    forall k | 0 <= k < |a| ensures a[k] == b[k] {
      assert a[k] == now[base + k];
    }
  }

  /* ----- The dirty index of one inode ----- */

  /** `(chunk index, arena slot)`. */
  type DirtyEntry = (nat, ArenaSlot)

  ghost predicate SortedByChunk(entries: seq<DirtyEntry>) {
    forall j, k :: 0 <= j < k < |entries| ==> entries[j].0 < entries[k].0
  }

  function SlotsOf(entries: seq<DirtyEntry>): set<ArenaSlot> {
    set k | 0 <= k < |entries| :: entries[k].1
  }

  lemma SlotsOfPrefix(entries: seq<DirtyEntry>, i: nat)
    requires i < |entries|
    ensures SlotsOf(entries[..i + 1]) == SlotsOf(entries[..i]) + {entries[i].1}
  {
    var a, b := entries[..i + 1], entries[..i];
    forall x ensures x in SlotsOf(a) <==> x in SlotsOf(b) + {entries[i].1} {
      if x in SlotsOf(a) {
        var k :| 0 <= k < |a| && a[k].1 == x;
        assert k < i ==> b[k].1 == x;
      }
      if x in SlotsOf(b) {
        var k :| 0 <= k < |b| && b[k].1 == x;
        assert a[k].1 == x;
      }
      assert a[i].1 == entries[i].1;
    }
  }

  /** Where a chunk is in a sorted index, or where it would go. */
  datatype Search = Found(position: nat) | Missing(position: nat)

  class DirtyIdx {
    var entries: seq<DirtyEntry>

    constructor ()
      ensures entries == []
    {
      entries := [];
    }

    ghost predicate Valid()
      reads this
    {
      SortedByChunk(entries)
    }

    /** How many entries have a chunk index below `bound`, by binary search. */
    method PartitionPoint(bound: nat) returns (p: nat)
      requires Valid()
      ensures p <= |entries| && (p < |entries| ==> entries[p].0 >= bound)
      ensures forall k :: 0 <= k < p ==> entries[k].0 < bound
      ensures forall k :: p <= k < |entries| ==> entries[k].0 >= bound
    {
      var lo, hi := 0, |entries|;
      while lo < hi
        invariant 0 <= lo <= hi <= |entries|
        invariant forall k :: 0 <= k < lo ==> entries[k].0 < bound
        invariant forall k :: hi <= k < |entries| ==> entries[k].0 >= bound
      {
        var mid := (lo + hi) / 2;
        if entries[mid].0 < bound {
          lo := mid + 1;
        } else {
          hi := mid;
        }
      }
      p := lo;
    }

    /** Where `chunk` is, or the one position that keeps the entries sorted. Looks at the last entry,
        then searches by halves. */
    method Find(chunk: nat) returns (r: Search)
      requires Valid()
      ensures r.Found? ==> r.position < |entries| && entries[r.position].0 == chunk
      ensures r.Missing? ==>
                && r.position <= |entries|
                && (forall k :: 0 <= k < r.position ==> entries[k].0 < chunk)
                && (forall k :: r.position <= k < |entries| ==> entries[k].0 > chunk)
    {
      if entries == [] {
        return Missing(0);
      }
      var last := entries[|entries| - 1].0;
      if last == chunk {
        return Found(|entries| - 1);
      }
      if last < chunk {
        return Missing(|entries|);
      }
      var lo, hi := 0, |entries|;
      while lo < hi
        invariant 0 <= lo <= hi <= |entries|
        invariant forall k :: 0 <= k < lo ==> entries[k].0 < chunk
        invariant forall k :: hi <= k < |entries| ==> entries[k].0 > chunk
      {
        var mid := (lo + hi) / 2;
        if entries[mid].0 == chunk {
          return Found(mid);
        } else if entries[mid].0 < chunk {
          lo := mid + 1;
        } else {
          hi := mid;
        }
      }
      return Missing(lo);
    }

    method Insert(position: nat, chunk: nat, a: ArenaSlot)
      requires Valid() && position <= |entries|
      requires forall k :: 0 <= k < position ==> entries[k].0 < chunk
      requires forall k :: position <= k < |entries| ==> entries[k].0 > chunk
      modifies this
      ensures Valid()
      ensures entries == old(entries)[..position] + [(chunk, a)] + old(entries)[position..]
    {
      entries := entries[..position] + [(chunk, a)] + entries[position..];
    }

    /** Exactly the entries of the chunks `first` to `last`, sorted as they are in the index. */
    method Range(first: nat, last: nat) returns (r: seq<DirtyEntry>)
      requires Valid() && first <= last
      ensures SortedByChunk(r)
      ensures forall e :: e in r <==> e in entries && first <= e.0 <= last
    {
      var start := PartitionPoint(first);
      var end := PartitionPoint(last + 1);
      r := entries[start..end];
      forall e | e in entries && first <= e.0 <= last ensures e in r {
        var k :| 0 <= k < |entries| && entries[k] == e;
        assert start <= k < end;
        assert r[k - start] == e;
      }
    }

    /** All slots of the index become free ones, and the index has no entries left. */
    method ReleaseInto(arena: ChunkArena)
      requires Valid() && arena.Valid()
      requires forall k :: 0 <= k < |entries| ==> entries[k].1 < |arena.len| && entries[k].1 !in arena.free
      requires forall j, k :: 0 <= j < k < |entries| ==> entries[j].1 != entries[k].1
      modifies this, arena`free
      ensures Valid() && entries == []
      ensures arena.Valid() && arena.Chunks() == old(arena.Chunks())
      ensures |arena.free| == |old(arena.free)| + |old(entries)|
      ensures arena.FreeSet() == old(arena.FreeSet()) + SlotsOf(old(entries))
    {
      var i := 0;
      while i < |entries|
        invariant 0 <= i <= |entries| && entries == old(entries)
        invariant arena.Valid() && |arena.free| == |old(arena.free)| + i && arena.Chunks() == old(arena.Chunks())
        invariant forall a :: a in arena.free
                    <==> a in old(arena.free) || exists k :: 0 <= k < i && old(entries)[k].1 == a
        invariant arena.FreeSet() == old(arena.FreeSet()) + SlotsOf(old(entries)[..i])
      {
        SlotsOfPrefix(entries, i);
        arena.Release(entries[i].1);
        i := i + 1;
      }
      assert old(entries)[..i] == old(entries);
      entries := [];
    }
  }
}
