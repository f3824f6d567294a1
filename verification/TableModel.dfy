/** The open-inode table and the arena, seen as values: who owns which arena slot, and which
    abstract open files the arrays stand for. */
module TableModel {
  import opened Basics
  import opened Chunking
  import opened Files
  import opened Model
  import opened CacheModel
  import opened Arena
  import opened OpenTable

  /* ----- Ownership of arena slots ----- */

  type Owners = map<ArenaSlot, (Slot, nat)>

  /** Every arena slot is free, in exactly one place of exactly one dirty index, or in the hands of
      the running operation (`limbo`). `owner` maps a slot in use to its inode slot and chunk. */
  ghost predicate OwnersOk(entries: seq<seq<DirtyEntry>>, owner: Owners, free: set<ArenaSlot>, n: nat,
      limbo: set<ArenaSlot>) {
    && (forall s, k :: 0 <= s < |entries| && 0 <= k < |entries[s]| ==>
          entries[s][k].1 in owner && owner[entries[s][k].1] == (s, entries[s][k].0))
    && (forall a :: a in owner ==> a < n && a !in free && a !in limbo
                                   && owner[a].0 < |entries| && (owner[a].1, a) in entries[owner[a].0])
    && (forall a :: 0 <= a < n ==> a in free || a in owner || a in limbo)
    && (forall a :: a in limbo ==> a < n && a !in free)
  }

  function DropOwned(owner: Owners, s: Slot): Owners {
    map a | a in owner && owner[a].0 != s :: owner[a]
  }

  lemma AllocKeepsOwners(entries: seq<seq<DirtyEntry>>, owner: Owners, free: set<ArenaSlot>, n: nat, a: ArenaSlot,
      free': set<ArenaSlot>, n': nat)
    requires OwnersOk(entries, owner, free, n, {})
    requires (a in free && free' == free - {a} && n' == n) || (a == n && free' == free && n' == n + 1 && a !in free)
    requires a < n'
    ensures OwnersOk(entries, owner, free', n', {a})
  {
  }

  lemma TakenFromFree(before: seq<ArenaSlot>, after: seq<ArenaSlot>, a: ArenaSlot, n: nat)
    requires before != [] ==> after + [a] == before
    requires forall j, k :: 0 <= j < k < |before| ==> before[j] != before[k]
    ensures before != [] ==>
              && (set k | 0 <= k < |after| :: after[k]) == (set k | 0 <= k < |before| :: before[k]) - {a}
              && a in set k | 0 <= k < |before| :: before[k]
  {
    if before != [] {
      var x, y := set k | 0 <= k < |after| :: after[k], set k | 0 <= k < |before| :: before[k];
      assert before[|before| - 1] == a;
      forall b ensures b in x <==> b in y - {a} {
        if k :| 0 <= k < |after| && after[k] == b {
          assert before[k] == b;
        }
        if b != a {
          if k :| 0 <= k < |before| && before[k] == b {
            assert after[k] == b;
          }
        }
      }
    }
  }

  lemma NotOwned(entries: seq<seq<DirtyEntry>>, owner: Owners, free: set<ArenaSlot>, n: nat, a: ArenaSlot)
    requires OwnersOk(entries, owner, free, n, {}) && (a in free || a >= n)
    ensures a !in owner
  {
  }

  lemma GiveBackKeepsOwners(entries: seq<seq<DirtyEntry>>, owner: Owners, free: set<ArenaSlot>, n: nat, a: ArenaSlot)
    requires OwnersOk(entries, owner, free, n, {a})
    ensures OwnersOk(entries, owner, free + {a}, n, {})
  {
  }

  lemma InsertKeepsOwners(entries: seq<seq<DirtyEntry>>, owner: Owners, free: set<ArenaSlot>, n: nat, a: ArenaSlot,
                          s: Slot, position: nat, c: nat)
    requires OwnersOk(entries, owner, free, n, {a}) && s < |entries| && position <= |entries[s]|
    ensures OwnersOk(entries[s := entries[s][..position] + [(c, a)] + entries[s][position..]], owner[a := (s, c)],
            free, n, {})
  {
    var es := entries[s];
    var more := es[..position] + [(c, a)] + es[position..];
    var now: seq<seq<DirtyEntry>> := entries[s := more];
    forall e | e in es ensures e in more {
      assert e in es[..position] || e in es[position..];
    }
    forall k | 0 <= k < |more| ensures more[k] == (c, a) || more[k] in es {
      if k < position {
        assert more[k] == es[k];
      } else if k > position {
        assert more[k] == es[k - 1];
      }
    }
    assert more[position] == (c, a);
    forall t: nat, k: nat | t < |now| && k < |now[t]|
      ensures now[t][k].1 in owner[a := (s, c)] && owner[a := (s, c)][now[t][k].1] == (t, now[t][k].0)
    {
      if t == s && more[k] != (c, a) {
        var j :| 0 <= j < |es| && es[j] == more[k];
      }
    }
  }

  lemma ReleaseKeepsOwners(entries: seq<seq<DirtyEntry>>, owner: Owners, free: set<ArenaSlot>, n: nat, s: Slot)
    requires OwnersOk(entries, owner, free, n, {}) && s < |entries|
    ensures OwnersOk(entries[s := []], DropOwned(owner, s), free + SlotsOf(entries[s]), n, {})
  {
    forall a | a in owner && owner[a].0 == s ensures a in SlotsOf(entries[s]) {
      var k :| 0 <= k < |entries[s]| && entries[s][k] == (owner[a].1, a);
    }
  }

  lemma NewSlotKeepsOwners(entries: seq<seq<DirtyEntry>>, owner: Owners, free: set<ArenaSlot>, n: nat)
    requires OwnersOk(entries, owner, free, n, {})
    ensures OwnersOk(entries + [[]], owner, free, n, {})
  {
  }

  /** The slots of one index are distinct and out on loan, so releasing them is safe. */
  lemma OwnedAreDistinct(entries: seq<seq<DirtyEntry>>, owner: Owners, free: set<ArenaSlot>, n: nat,
      limbo: set<ArenaSlot>, s: Slot)
    requires OwnersOk(entries, owner, free, n, limbo) && s < |entries| && SortedByChunk(entries[s])
    ensures forall k :: 0 <= k < |entries[s]| ==> entries[s][k].1 < n && entries[s][k].1 !in free
    ensures forall j, k :: 0 <= j < k < |entries[s]| ==> entries[s][j].1 != entries[s][k].1
  {
    forall j, k | 0 <= j < k < |entries[s]| ensures entries[s][j].1 != entries[s][k].1 {
      assert owner[entries[s][j].1].1 == entries[s][j].0;
    }
  }

  /** With the arena full, some inode has something to flush. */
  lemma FullArenaHasAVictim(entries: seq<seq<DirtyEntry>>, owner: Owners, free: set<ArenaSlot>, n: nat)
    requires OwnersOk(entries, owner, free, n, {}) && free == {} && n >= 1
    ensures exists s :: 0 <= s < |entries| && entries[s] != []
  {
    assert 0 in owner;
    assert entries[owner[0].0] != [];
  }

  /* ----- The open files the arrays stand for ----- */

  function RowOfFile(o: OpenFile): OpenRow {
    OpenRow(o.kind, o.size, o.mtime, o.refs, o.unlinked)
  }

  /** `d` is what the entries and the arena's chunks spell out. */
  ghost predicate DirtyIs(d: Rows, entries: seq<DirtyEntry>, chunks: seq<Blob>) {
    && (forall k :: 0 <= k < |entries| ==>
          entries[k].0 in d && entries[k].1 < |chunks| && d[entries[k].0] == chunks[entries[k].1])
    && (forall c :: c in d ==> exists k :: 0 <= k < |entries| && entries[k].0 == c)
  }

  ghost predicate OpenTied(open: map<nat, OpenFile>, byIno: map<nat, Slot>, rows: seq<OpenRow>,
                           entries: seq<seq<DirtyEntry>>, chunks: seq<Blob>) {
    && (forall i :: i in open <==> i in byIno)
    && (forall i :: i in byIno ==>
          && byIno[i] < |rows| && byIno[i] < |entries|
          && rows[byIno[i]] == RowOfFile(open[i])
          && DirtyIs(open[i].dirty, entries[byIno[i]], chunks))
  }

  lemma IndexIsInjective(ino: seq<nat>, byIno: map<nat, Slot>, free: seq<Slot>)
    requires IndexOk(ino, byIno, free)
    ensures Injective(byIno)
  {
  }

  ghost predicate Injective(byIno: map<nat, Slot>) {
    forall i, j :: i in byIno && j in byIno && byIno[i] == byIno[j] ==> i == j
  }

  lemma DirtyAt(d: Rows, entries: seq<DirtyEntry>, chunks: seq<Blob>, k: nat)
    requires DirtyIs(d, entries, chunks) && k < |entries|
    ensures entries[k].0 in d && entries[k].1 < |chunks| && d[entries[k].0] == chunks[entries[k].1]
  {
  }

  /** An index is empty exactly when nothing is dirty. */
  lemma EmptyIffClean(d: Rows, entries: seq<DirtyEntry>, chunks: seq<Blob>)
    requires DirtyIs(d, entries, chunks)
    ensures d == map[] <==> entries == []
  {
    if entries != [] {
      assert entries[0].0 in d;
    }
  }

  lemma RowChangeKeepsTie(open: map<nat, OpenFile>, byIno: map<nat, Slot>, rows: seq<OpenRow>,
                          entries: seq<seq<DirtyEntry>>, chunks: seq<Blob>, i: nat, o: OpenFile)
    requires OpenTied(open, byIno, rows, entries, chunks) && Injective(byIno)
    requires i in byIno && o.dirty == open[i].dirty
    ensures OpenTied(open[i := o], byIno, rows[byIno[i] := RowOfFile(o)], entries, chunks)
  {
    hide DirtyIs;
  }

  lemma ReleaseKeepsTie(open: map<nat, OpenFile>, byIno: map<nat, Slot>, rows: seq<OpenRow>,
                        entries: seq<seq<DirtyEntry>>, chunks: seq<Blob>, i: nat)
    requires OpenTied(open, byIno, rows, entries, chunks) && Injective(byIno) && i in byIno
    ensures OpenTied(open[i := open[i].(dirty := map[])], byIno, rows, entries[byIno[i] := []], chunks)
  {
    assert DirtyIs(map[], [], chunks);
    hide DirtyIs;
  }

  lemma DropKeepsTie(open: map<nat, OpenFile>, byIno: map<nat, Slot>, rows: seq<OpenRow>,
                     entries: seq<seq<DirtyEntry>>, chunks: seq<Blob>, i: nat, row: OpenRow, es: seq<DirtyEntry>)
    requires OpenTied(open, byIno, rows, entries, chunks) && Injective(byIno) && i in byIno
    ensures OpenTied(open - {i}, byIno - {i}, rows[byIno[i] := row], entries[byIno[i] := es], chunks)
  {
    hide DirtyIs;
  }

  lemma LoadKeepsTie(open: map<nat, OpenFile>, byIno: map<nat, Slot>, rows: seq<OpenRow>,
                     entries: seq<seq<DirtyEntry>>, chunks: seq<Blob>, i: nat, s: Slot, o: OpenFile,
                     rows': seq<OpenRow>, entries': seq<seq<DirtyEntry>>)
    requires OpenTied(open, byIno, rows, entries, chunks) && i !in byIno
    requires s < |rows'| && s < |entries'| && |rows| <= |rows'| && |entries| <= |entries'|
    requires forall t :: 0 <= t < |rows| && t != s ==> rows'[t] == rows[t]
    requires forall t :: 0 <= t < |entries| && t != s ==> entries'[t] == entries[t]
    requires forall j :: j in byIno ==> byIno[j] != s
    requires rows'[s] == RowOfFile(o) && entries'[s] == [] && o.dirty == map[]
    ensures OpenTied(open[i := o], byIno[i := s], rows', entries', chunks)
  {
    assert DirtyIs(map[], [], chunks);
    hide DirtyIs;
  }

  /** Chunks that no index uses, and new ones at the end, are nobody's data. */
  lemma OtherChunksKeepTie(open: map<nat, OpenFile>, byIno: map<nat, Slot>, rows: seq<OpenRow>,
                           entries: seq<seq<DirtyEntry>>, owner: Owners, free: set<ArenaSlot>, n: nat,
                           limbo: set<ArenaSlot>, chunks: seq<Blob>, chunks': seq<Blob>)
    requires OpenTied(open, byIno, rows, entries, chunks) && OwnersOk(entries, owner, free, n, limbo) && n == |chunks|
    requires |chunks| <= |chunks'| && forall a :: 0 <= a < |chunks| && a in owner ==> chunks'[a] == chunks[a]
    ensures OpenTied(open, byIno, rows, entries, chunks')
  {
    forall i | i in byIno ensures DirtyIs(open[i].dirty, entries[byIno[i]], chunks') {
      assert DirtyIs(open[i].dirty, entries[byIno[i]], chunks);
    }
  }

  /** Writing the chunk of entry `k` of one index changes that dirty chunk and no other. */
  lemma ChunkWriteKeepsTie(open: map<nat, OpenFile>, byIno: map<nat, Slot>, rows: seq<OpenRow>,
                           entries: seq<seq<DirtyEntry>>, owner: Owners, free: set<ArenaSlot>, n: nat,
                           chunks: seq<Blob>, i: nat, k: nat, row: Blob)
    requires OpenTied(open, byIno, rows, entries, chunks) && OwnersOk(entries, owner, free, n, {}) && n == |chunks|
    requires Injective(byIno) && i in byIno && k < |entries[byIno[i]]| && SortedByChunk(entries[byIno[i]])
    ensures var (c, a) := entries[byIno[i]][k];
            && a < |chunks|
            && OpenTied(open[i := open[i].(dirty := open[i].dirty[c := row])], byIno, rows, entries, chunks[a := row])
  {
    var s := byIno[i];
    var (c, a) := entries[s][k];
    var now := chunks[a := row];
    forall j | j in byIno && j != i ensures DirtyIs(open[j].dirty, entries[byIno[j]], now) {
      assert DirtyIs(open[j].dirty, entries[byIno[j]], chunks);
      forall m | 0 <= m < |entries[byIno[j]]| ensures entries[byIno[j]][m].1 != a {
        assert owner[entries[byIno[j]][m].1].0 == byIno[j];
      }
    }
    forall m | 0 <= m < |entries[s]| && m != k ensures entries[s][m].1 != a && entries[s][m].0 != c {
      assert owner[entries[s][m].1] == (s, entries[s][m].0);
    }
    assert DirtyIs(open[i].dirty, entries[s], chunks);
    assert DirtyIs(open[i].dirty[c := row], entries[s], now);
  }

  /** A new entry adds its chunk to the dirty ones. */
  lemma InsertKeepsTie(open: map<nat, OpenFile>, byIno: map<nat, Slot>, rows: seq<OpenRow>,
                       entries: seq<seq<DirtyEntry>>, chunks: seq<Blob>, i: nat, position: nat, c: nat, a: ArenaSlot)
    requires OpenTied(open, byIno, rows, entries, chunks) && Injective(byIno) && i in byIno
    requires position <= |entries[byIno[i]]| && a < |chunks| && c !in open[i].dirty
    ensures var es := entries[byIno[i]];
            OpenTied(open[i := open[i].(dirty := open[i].dirty[c := chunks[a]])], byIno, rows,
                     entries[byIno[i] := es[..position] + [(c, a)] + es[position..]], chunks)
  {
    var es := entries[byIno[i]];
    InsertKeepsDirty(open[i].dirty, es, chunks, position, c, a);
    hide DirtyIs;
  }

  lemma InsertKeepsDirty(d: Rows, es: seq<DirtyEntry>, chunks: seq<Blob>, position: nat, c: nat, a: ArenaSlot)
    requires DirtyIs(d, es, chunks) && position <= |es| && a < |chunks| && c !in d
    ensures DirtyIs(d[c := chunks[a]], es[..position] + [(c, a)] + es[position..], chunks)
  {
    var more := es[..position] + [(c, a)] + es[position..];
    forall k | 0 <= k < |more| ensures more[k] == (c, a) || exists j :: 0 <= j < |es| && es[j] == more[k] {
      if k < position {
        assert more[k] == es[k];
      } else if k > position {
        assert more[k] == es[k - 1];
      }
    }
    var now := d[c := chunks[a]];
    forall e | e in now ensures exists k :: 0 <= k < |more| && more[k].0 == e {
      if e == c {
        assert more[position].0 == c;
      } else {
        var j :| 0 <= j < |es| && es[j].0 == e;
        assert more[if j < position then j else j + 1] == es[j];
      }
    }
  }
}
