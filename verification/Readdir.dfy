/** Paged directory listings with stable cookies. */
module Readdir {
  import opened Basics
  import opened Chunking
  import opened Model
  import opened Namespace
  import opened Tables
  import opened Database

  const DOT: int := 1
  const DOTDOT: int := 2

  /** One directory entry as a listing returns it; `next` is the offset to continue from. */
  datatype Listed = Listed(ino: nat, next: int, kind: FileKind, name: Name)

  /** The cookies a directory offers: those of its entries, and of `.` and `..`. */
  predicate HasCookie(dirents: Dirents, dir: nat, c: int) {
    c == DOT || c == DOTDOT || (c > DOTDOT && EntryOf(c) in dirents && dirents[EntryOf(c)].parent == dir)
  }

  /** The id of the entry a cookie stands for. */
  function EntryOf(c: int): nat {
    if c > DOTDOT then c - DOTDOT else 0
  }

  predicate Increasing(cookies: seq<int>) {
    forall j, k :: 0 <= j < k < |cookies| ==> cookies[j] < cookies[k]
  }

  /** What one page holds: cookies after `offset` in increasing order, and all of them unless the
      page is full, when the rest come later. */
  ghost predicate IsPage(dirents: Dirents, dir: nat, offset: int, room: nat, cookies: seq<int>) {
    && Increasing(cookies) && |cookies| <= room
    && (forall c :: c in cookies ==> c > offset && HasCookie(dirents, dir, c))
    && (forall c :: HasCookie(dirents, dir, c) && c > offset ==>
                      c in cookies || (|cookies| == room && forall d :: d in cookies ==> d < c))
  }

  function Cookies(listed: seq<Listed>): (cookies: seq<int>)
    ensures |cookies| == |listed| && forall k :: 0 <= k < |listed| ==> cookies[k] == listed[k].next
  {
    seq(|listed|, k requires 0 <= k < |listed| => listed[k].next)
  }

  lemma {:induction false} HasLeast(s: set<nat>) returns (least: nat)
    requires s != {}
    ensures least in s && forall j :: j in s ==> least <= j
    decreases |s|
  {
    var x :| x in s;
    least := x;
    if s != {x} {
      assert s - {x} != {};
      var y := HasLeast(s - {x});
      least := if x <= y then x else y;
      assert forall j :: j in s ==> j == x || j in s - {x};
    }
  }

  /** The entries of a directory with an id greater than `after`, in id order, as many as fit. */
  method ReadDirAfter(db: Db, ino: nat, after: nat, room: nat) returns (r: Result<seq<Listed>>)
    requires db.Valid()
    ensures r.Err? && !db.MayFail(r.error) ==>
              (r.error == NotFound && ino !in db.tables.inodes)
                  || (r.error == NotDirectory && !IsDir(NsOf(db.tables), ino))
    ensures r.Ok? ==>
              && IsDir(NsOf(db.tables), ino)
              && IsPage(db.tables.dirents, ino, after + DOTDOT, room, Cookies(r.value))
    ensures r.Ok? ==> forall e :: e in r.value ==> IsListed(db.tables, ino, e)
  {
    hide TablesOk, NsOf, PageSoFar, IsPage;
    InodeViews(db.tables, ino);
    var head := db.InodeHead(ino);
    if head.Err? {
      return Err(head.error);
    }
    if head.value.0 != Directory {
      return Err(NotDirectory);
    }
    var dirents := db.tables.dirents;
    var todo: set<nat> := set id | id in dirents && dirents[id].parent == ino && id > after;
    var listed: seq<Listed> := [];
    StartOfPage(dirents, ino, after, Cookies(listed), todo);
    while todo != {} && |listed| < room
      invariant |listed| <= room && PageSoFar(dirents, ino, after, Cookies(listed), todo)
      invariant forall e :: e in listed ==> IsListed(db.tables, ino, e)
      decreases |todo|
    {
      ghost var least := HasLeast(todo);
      var id :| id in todo && forall j :: j in todo ==> id <= j;
      NextEntry(dirents, ino, after, Cookies(listed), todo, id);
      assert EntryOf(id + DOTDOT) == id;
      ChildExists(db.tables, id);
      var child := dirents[id].child;
      var entry := Listed(child, id + DOTDOT, db.tables.inodes[child].kind, dirents[id].name);
      CookiesAppend(listed, [entry]);
      assert Cookies([entry]) == [entry.next];
      listed := listed + [entry];
      todo := todo - {id};
    }
    PageOfIds(dirents, ino, after, room, Cookies(listed), todo);
    return Ok(listed);
  }

  lemma ChildExists(t: Tables, id: nat)
    requires TablesOk(t) && id in t.dirents
    ensures t.dirents[id].child in t.inodes
  {
    assert t.dirents[id].child in NsOf(t).nodes;
  }

  /** The entries of the directory after `after` that are not in `todo` have been listed, in order. */
  ghost predicate PageSoFar(dirents: Dirents, dir: nat, after: nat, cookies: seq<int>, todo: set<nat>) {
    && Increasing(cookies)
    && (forall c :: c in cookies ==> c > after + DOTDOT && HasCookie(dirents, dir, c))
    && (forall id :: id in todo ==> id > after && id in dirents && dirents[id].parent == dir)
    && (forall id: nat, d :: id in todo && d in cookies ==> d < id + DOTDOT)
    && (forall id: nat :: id in dirents && dirents[id].parent == dir && id > after ==>
          id in todo || id + DOTDOT in cookies)
  }

  lemma StartOfPage(dirents: Dirents, dir: nat, after: nat, cookies: seq<int>, todo: set<nat>)
    requires cookies == [] && forall id: nat :: id in todo <==> id in dirents && dirents[id].parent == dir && id > after
    ensures PageSoFar(dirents, dir, after, cookies, todo)
  {
  }

  lemma NextEntry(dirents: Dirents, dir: nat, after: nat, cookies: seq<int>, todo: set<nat>, id: nat)
    requires PageSoFar(dirents, dir, after, cookies, todo) && id in todo && forall j :: j in todo ==> id <= j
    ensures PageSoFar(dirents, dir, after, cookies + [id + DOTDOT], todo - {id})
    ensures id > after && id in dirents && dirents[id].parent == dir
  {
    IncreasingAppend(cookies, id + DOTDOT);
    assert EntryOf(id + DOTDOT) == id;
    hide Increasing;
  }

  lemma PageOfIds(dirents: Dirents, dir: nat, after: nat, room: nat, cookies: seq<int>, todo: set<nat>)
    requires PageSoFar(dirents, dir, after, cookies, todo) && |cookies| <= room && (todo == {} || |cookies| == room)
    ensures IsPage(dirents, dir, after + DOTDOT, room, cookies)
  {
    hide PageSoFar, HasCookie, Increasing;
    SoFarIsSound(dirents, dir, after, cookies, todo);
    forall c | HasCookie(dirents, dir, c) && c > after + DOTDOT
      ensures c in cookies || (|cookies| == room && forall d :: d in cookies ==> d < c)
    {
      SoFarIsComplete(dirents, dir, after, cookies, todo, c);
    }
  }

  lemma SoFarIsSound(dirents: Dirents, dir: nat, after: nat, cookies: seq<int>, todo: set<nat>)
    requires PageSoFar(dirents, dir, after, cookies, todo)
    ensures Increasing(cookies) && forall c :: c in cookies ==> c > after + DOTDOT && HasCookie(dirents, dir, c)
  {
    hide HasCookie, Increasing;
  }

  lemma SoFarIsComplete(dirents: Dirents, dir: nat, after: nat, cookies: seq<int>, todo: set<nat>, c: int)
    requires PageSoFar(dirents, dir, after, cookies, todo) && HasCookie(dirents, dir, c) && c > after + DOTDOT
    ensures c in cookies || (todo != {} && forall d :: d in cookies ==> d < c)
  {
    hide Increasing;
    var id := EntryOf(c);
    assert id in todo || id + DOTDOT in cookies;
    if id in todo {
      forall d | d in cookies ensures d < c {
        assert d < id + DOTDOT;
      }
    }
  }

  lemma CookiesAppend(a: seq<Listed>, b: seq<Listed>)
    ensures Cookies(a + b) == Cookies(a) + Cookies(b)
  {
  }

  lemma IncreasingAppend(cookies: seq<int>, c: int)
    requires Increasing(cookies) && forall d :: d in cookies ==> d < c
    ensures Increasing(cookies + [c])
  {
    forall j, k | 0 <= j < k < |cookies + [c]| ensures (cookies + [c])[j] < (cookies + [c])[k] {
      assert (cookies + [c])[j] == cookies[j] && cookies[j] in cookies;
    }
  }

  /** An entry of the directory as its cookie names it. */
  predicate IsListed(t: Tables, dir: nat, e: Listed) {
    && e.next > DOTDOT
    && EntryOf(e.next) in t.dirents && t.dirents[EntryOf(e.next)] == Dirent(dir, e.name, e.ino)
    && e.ino in t.inodes && e.kind == t.inodes[e.ino].kind
  }

  /** The parent a directory shows as `..`; the root is its own. */
  method ParentOfDir(db: Db, ino: nat) returns (r: Result<nat>)
    ensures r.Ok? ==> if ino == ROOT then r.value == ROOT else IsParent(db.tables.dirents, r.value, ino)
    ensures r.Err? ==>
              || db.MayFail(r.error)
              || (r.error == NotFound && ino != ROOT && forall p :: !IsParent(db.tables.dirents, p, ino))
  {
    if ino == ROOT {
      return Ok(ROOT);
    }
    var failure := db.StorageOutcome();
    if failure.Some? {
      return Err(failure.value);
    }
    if id :| id in db.tables.dirents && db.tables.dirents[id].child == ino {
      return Ok(db.tables.dirents[id].parent);
    }
    return Err(NotFound);
  }

  predicate IsParent(dirents: Dirents, parent: nat, ino: nat) {
    exists id :: id in dirents && dirents[id].child == ino && dirents[id].parent == parent
  }

  const DOT_NAME: Name := [46]
  const DOTDOT_NAME: Name := [46, 46]

  /** What a listing says of each entry: itself, its parent, or an entry of the tables. */
  ghost predicate IsStreamed(t: Tables, dir: nat, e: Listed) {
    if e.next == DOT then e == Listed(dir, DOT, Directory, DOT_NAME)
    else if e.next == DOTDOT then
      && e.kind == Directory && e.name == DOTDOT_NAME
      && (IsParent(t.dirents, e.ino, dir)
         || (e.ino == dir && (dir == ROOT || forall p :: !IsParent(t.dirents, p, dir))))
    else IsListed(t, dir, e)
  }

  /** One page of a directory from an offset on, with room for `room` entries. */
  method ReadDirStream(db: Db, ino: nat, offset: int, room: nat) returns (r: Result<seq<Listed>>)
    requires db.Valid()
    ensures r.Ok? ==> IsPage(db.tables.dirents, ino, offset, room, Cookies(r.value))
    ensures r.Ok? ==> forall e :: e in r.value ==> IsStreamed(db.tables, ino, e)
    ensures r.Ok? && |r.value| < room ==> IsDir(NsOf(db.tables), ino)
    ensures r.Err? && !db.MayFail(r.error) ==>
              (r.error == NotFound && ino !in db.tables.inodes)
                  || (r.error == NotDirectory && !IsDir(NsOf(db.tables), ino))
  {
    hide Db.Valid, NsOf, IsPage, IsListed, HasCookie, IsParent;
    var parent := ParentOfDir(db, ino);
    if parent.Err? && parent.error != NotFound {
      return Err(parent.error);
    }
    var listed: seq<Listed> := [];
    if offset < DOT {
      if |listed| == room {
        FullPage(db.tables.dirents, ino, offset, []);
        return Ok(listed);
      }
      listed := listed + [Listed(ino, DOT, Directory, DOT_NAME)];
    }
    if offset < DOTDOT {
      if |listed| == room {
        FullPage(db.tables.dirents, ino, Max(offset, DOT), []);
        if offset < DOT {
          DotPage(db.tables.dirents, ino, offset, 0, []);
          assert Cookies(listed) == [DOT] + [];
        }
        return Ok(listed);
      }
      listed := listed + [Listed(if parent.Ok? then parent.value else ino, DOTDOT, Directory, DOTDOT_NAME)];
    }
    var left: nat := room - |listed|;
    var rest := ReadDirAfter(db, ino, if offset > DOTDOT then offset - DOTDOT else 0, left);
    if rest.Err? {
      return Err(rest.error);
    }
    CookiesAppend(listed, rest.value);
    if offset < DOTDOT {
      DotDotPage(db.tables.dirents, ino, Max(offset, DOT), left, Cookies(rest.value));
      if offset < DOT {
        DotPage(db.tables.dirents, ino, offset, left + 1, [DOTDOT] + Cookies(rest.value));
        assert Cookies(listed) + Cookies(rest.value) == [DOT] + ([DOTDOT] + Cookies(rest.value));
      } else {
        assert Cookies(listed) + Cookies(rest.value) == [DOTDOT] + Cookies(rest.value);
      }
    } else {
      assert Cookies(listed) + Cookies(rest.value) == Cookies(rest.value);
    }
    forall e | e in listed + rest.value ensures IsStreamed(db.tables, ino, e) {
      if e in rest.value {
        ListedIsStreamed(db.tables, ino, e);
      }
    }
    return Ok(listed + rest.value);
  }

  lemma ListedIsStreamed(t: Tables, dir: nat, e: Listed)
    requires IsListed(t, dir, e)
    ensures IsStreamed(t, dir, e)
  {
  }

  lemma FullPage(dirents: Dirents, dir: nat, offset: int, cookies: seq<int>)
    requires cookies == []
    ensures IsPage(dirents, dir, offset, 0, cookies)
  {
  }

  lemma DotPage(dirents: Dirents, dir: nat, offset: int, room: nat, cookies: seq<int>)
    requires offset < DOT && IsPage(dirents, dir, DOT, room, cookies)
    ensures IsPage(dirents, dir, offset, room + 1, [DOT] + cookies)
  {
    PageCons(dirents, dir, offset, DOT, room, cookies);
  }

  lemma DotDotPage(dirents: Dirents, dir: nat, offset: int, room: nat, cookies: seq<int>)
    requires offset == DOT && IsPage(dirents, dir, DOTDOT, room, cookies)
    ensures IsPage(dirents, dir, offset, room + 1, [DOTDOT] + cookies)
  {
    PageCons(dirents, dir, offset, DOTDOT, room, cookies);
  }

  lemma PageCons(dirents: Dirents, dir: nat, offset: int, c: int, room: nat, cookies: seq<int>)
    requires offset < c && HasCookie(dirents, dir, c) && IsPage(dirents, dir, c, room, cookies)
    requires forall d :: offset < d < c ==> !HasCookie(dirents, dir, d)
    ensures IsPage(dirents, dir, offset, room + 1, [c] + cookies)
  {
    var more := [c] + cookies;
    forall j, k | 0 <= j < k < |more| ensures more[j] < more[k] {
      assert more[k] == cookies[k - 1] && cookies[k - 1] in cookies;
    }
    forall d | HasCookie(dirents, dir, d) && d > offset
      ensures d in more || (|more| == room + 1 && forall e :: e in more ==> e < d)
    {
      assert d >= c;
    }
  }

  /* ----- Whole listings ----- */

  /** One `readdir` call and the entries of the store when it was made. */
  datatype Page = Page(dirents: Dirents, room: nat, cookies: seq<int>)

  /** Where a page continues: after the last cookie of the pages before it. */
  function OffsetAt(pages: seq<Page>, t: nat): int
    requires t <= |pages|
  {
    if t == 0 then 0
    else if pages[t - 1].cookies == [] then OffsetAt(pages, t - 1)
    else pages[t - 1].cookies[|pages[t - 1].cookies| - 1]
  }

  ghost predicate ArePages(dir: nat, pages: seq<Page>) {
    forall t :: 0 <= t < |pages| ==> IsPage(pages[t].dirents, dir, OffsetAt(pages, t), pages[t].room, pages[t].cookies)
  }

  /** A directory read page by page, while anything may be created, removed or renamed between the
      calls. It is over when a page is not full. */
  ghost predicate IsListing(dir: nat, pages: seq<Page>) {
    && pages != [] && ArePages(dir, pages)
    && |pages[|pages| - 1].cookies| < pages[|pages| - 1].room
  }

  /** An entry that stays in the directory under every call. */
  predicate Stays(dir: nat, pages: seq<Page>, c: int) {
    forall t :: 0 <= t < |pages| ==> HasCookie(pages[t].dirents, dir, c)
  }

  lemma PageAt(dir: nat, pages: seq<Page>, t: nat)
    requires IsListing(dir, pages) && t < |pages|
    ensures IsPage(pages[t].dirents, dir, OffsetAt(pages, t), pages[t].room, pages[t].cookies)
    ensures |pages[|pages| - 1].cookies| < pages[|pages| - 1].room
  {
    hide IsPage, OffsetAt, ArePages;
    OnePage(dir, pages, t);
  }

  lemma LastIsLargest(cookies: seq<int>, c: int)
    requires Increasing(cookies) && c in cookies
    ensures c <= cookies[|cookies| - 1]
  {
    var k :| 0 <= k < |cookies| && cookies[k] == c;
  }

  lemma OffsetStep(dir: nat, pages: seq<Page>, t: nat)
    requires IsListing(dir, pages) && t < |pages|
    ensures OffsetAt(pages, t) <= OffsetAt(pages, t + 1)
    ensures forall c :: c in pages[t].cookies ==> OffsetAt(pages, t) < c <= OffsetAt(pages, t + 1)
  {
    hide HasCookie, IsListing, Increasing;
    var cookies := pages[t].cookies;
    PageAt(dir, pages, t);
    if cookies != [] {
      assert cookies[|cookies| - 1] in cookies;
      forall c | c in cookies ensures c <= cookies[|cookies| - 1] {
        LastIsLargest(cookies, c);
      }
    }
  }

  lemma {:induction false} OffsetsGrow(dir: nat, pages: seq<Page>, t: nat, u: nat)
    requires IsListing(dir, pages) && t <= u <= |pages|
    ensures OffsetAt(pages, t) <= OffsetAt(pages, u)
    ensures t < u ==> forall c :: c in pages[t].cookies ==> OffsetAt(pages, t) < c <= OffsetAt(pages, u)
    decreases u - t
  {
    hide IsListing, OffsetAt;
    if t < u {
      OffsetStep(dir, pages, t);
      OffsetsGrow(dir, pages, t + 1, u);
    }
  }

  /** Cookies only grow, within a page and from page to page, so none is ever returned twice. */
  lemma NoCookieRepeats(dir: nat, pages: seq<Page>, t: nat, j: nat, u: nat, k: nat)
    requires IsListing(dir, pages)
    requires t < |pages| && j < |pages[t].cookies| && u < |pages| && k < |pages[u].cookies|
    requires t < u || (t == u && j < k)
    ensures pages[t].cookies[j] < pages[u].cookies[k]
  {
    hide HasCookie;
    assert IsPage(pages[t].dirents, dir, OffsetAt(pages, t), pages[t].room, pages[t].cookies);
    if t < u {
      OffsetsGrow(dir, pages, t, u);
      assert pages[t].cookies[j] in pages[t].cookies;
      assert IsPage(pages[u].dirents, dir, OffsetAt(pages, u), pages[u].room, pages[u].cookies);
      assert pages[u].cookies[k] in pages[u].cookies;
    }
  }

  ghost predicate Returned(pages: seq<Page>, t: nat, c: int)
    requires t <= |pages|
  {
    exists u: nat :: u < t && c in pages[u].cookies
  }

  lemma AheadStep(dir: nat, pages: seq<Page>, c: int, t: nat)
    requires IsListing(dir, pages) && t < |pages| && HasCookie(pages[t].dirents, dir, c) && c > OffsetAt(pages, t)
    ensures c in pages[t].cookies || (c > OffsetAt(pages, t + 1) && t < |pages| - 1)
  {
    hide HasCookie, IsListing, Increasing;
    var page := pages[t];
    PageAt(dir, pages, t);
    if page.cookies != [] {
      assert page.cookies[|page.cookies| - 1] in page.cookies;
    }
  }

  lemma {:induction false} ReturnedOrAhead(dir: nat, pages: seq<Page>, c: int, t: nat)
    requires IsListing(dir, pages) && Stays(dir, pages, c) && c > 0 && t <= |pages|
    ensures Returned(pages, t, c) || (c > OffsetAt(pages, t) && t < |pages|)
    decreases t
  {
    hide IsListing, HasCookie, OffsetAt, Stays, Returned;
    if t == 0 {
      StartsAtZero(dir, pages);
    } else {
      StaysAt(dir, pages, c, t - 1);
      ReturnedOrAhead(dir, pages, c, t - 1);
      if Returned(pages, t - 1, c) {
        ReturnedLater(pages, t - 1, c);
      } else {
        AheadStep(dir, pages, c, t - 1);
        if c in pages[t - 1].cookies {
          ReturnedNow(pages, t - 1, c);
        }
      }
    }
  }

  lemma StartsAtZero(dir: nat, pages: seq<Page>)
    requires IsListing(dir, pages)
    ensures OffsetAt(pages, 0) == 0 && pages != []
  {
  }

  lemma StaysAt(dir: nat, pages: seq<Page>, c: int, t: nat)
    requires Stays(dir, pages, c) && t < |pages|
    ensures HasCookie(pages[t].dirents, dir, c)
  {
  }

  lemma ReturnedLater(pages: seq<Page>, t: nat, c: int)
    requires t < |pages| && Returned(pages, t, c)
    ensures Returned(pages, t + 1, c)
  {
  }

  lemma ReturnedNow(pages: seq<Page>, t: nat, c: int)
    requires t < |pages| && c in pages[t].cookies
    ensures Returned(pages, t + 1, c)
  {
  }

  lemma ReturnedOnce(dir: nat, pages: seq<Page>, c: int, t: nat, u: nat)
    requires IsListing(dir, pages) && t < u < |pages| && c in pages[t].cookies
    ensures c !in pages[u].cookies
  {
    hide IsListing;
    if c in pages[u].cookies {
      var j :| 0 <= j < |pages[t].cookies| && pages[t].cookies[j] == c;
      var k :| 0 <= k < |pages[u].cookies| && pages[u].cookies[k] == c;
      NoCookieRepeats(dir, pages, t, j, u, k);
    }
  }

  /** An entry that stays in the directory throughout is returned by exactly one call, and so are
      `.` and `..`. */
  lemma StayingEntriesAreReturnedOnce(dir: nat, pages: seq<Page>, c: int)
    requires IsListing(dir, pages) && Stays(dir, pages, c)
    ensures exists t :: 0 <= t < |pages| && c in pages[t].cookies
    ensures forall t, u :: 0 <= t < |pages| && 0 <= u < |pages| && c in pages[t].cookies && c in pages[u].cookies ==>
              t == u
  {
    assert HasCookie(pages[0].dirents, dir, c);
    ReturnedOrAhead(dir, pages, c, |pages|);
    hide IsListing;
    forall t: nat, u: nat | t < u < |pages| && c in pages[t].cookies ensures c !in pages[u].cookies {
      ReturnedOnce(dir, pages, c, t, u);
    }
  }

  /* ----- Listing and deleting ----- */

  ghost function EntriesOf(dirents: Dirents, dir: nat): set<nat> {
    set id | id in dirents && dirents[id].parent == dir
  }

  /** A client that removes what each page returned while nobody adds to the directory. */
  ghost predicate ListsAndDeletes(dir: nat, pages: seq<Page>) {
    forall t, u :: 0 <= t < u < |pages| && u == t + 1 ==> Deleted(dir, pages[t], pages[u])
  }

  /** Between two calls what the first returned has gone, and nothing has come. */
  ghost predicate Deleted(dir: nat, page: Page, next: Page) {
    forall id :: id in EntriesOf(next.dirents, dir) ==>
        id in EntriesOf(page.dirents, dir) && id + DOTDOT !in page.cookies
  }

  /** It ends with an empty directory: what is left at the last call is in the last page. */
  lemma ListAndDeleteEmpties(dir: nat, pages: seq<Page>, id: nat)
    requires IsListing(dir, pages) && ListsAndDeletes(dir, pages) && id >= 1
    requires id in EntriesOf(pages[|pages| - 1].dirents, dir)
    ensures id + DOTDOT in pages[|pages| - 1].cookies
  {
    hide ListsAndDeletes, EntriesOf, HasCookie, IsPage, Stays;
    assert pages != [];
    hide IsListing;
    LeftoversStay(dir, pages, id);
    var t: nat := ReturnedBy(dir, pages, id + DOTDOT);
    NeverDeleted(dir, pages, id, t);
  }

  lemma LeftoversStay(dir: nat, pages: seq<Page>, id: nat)
    requires pages != [] && ListsAndDeletes(dir, pages) && id >= 1
    requires id in EntriesOf(pages[|pages| - 1].dirents, dir)
    ensures Stays(dir, pages, id + DOTDOT)
  {
    hide ListsAndDeletes, EntriesOf, HasCookie;
    forall t: nat | t < |pages| ensures HasCookie(pages[t].dirents, dir, id + DOTDOT) {
      NeverDeleted(dir, pages, id, t);
      EntryHasCookie(pages[t].dirents, dir, id);
    }
  }

  lemma ReturnedBy(dir: nat, pages: seq<Page>, c: int) returns (t: nat)
    requires IsListing(dir, pages) && Stays(dir, pages, c)
    ensures t < |pages| && c in pages[t].cookies
  {
    StayingEntriesAreReturnedOnce(dir, pages, c);
    hide IsListing, Stays;
    t :| t < |pages| && c in pages[t].cookies;
  }

  lemma EntryHasCookie(dirents: Dirents, dir: nat, id: nat)
    requires id in EntriesOf(dirents, dir) && id >= 1
    ensures HasCookie(dirents, dir, id + DOTDOT)
  {
    assert EntryOf(id + DOTDOT) == id;
  }

  lemma {:induction false} NeverDeleted(dir: nat, pages: seq<Page>, id: nat, t: nat)
    requires ListsAndDeletes(dir, pages) && t < |pages|
    requires id in EntriesOf(pages[|pages| - 1].dirents, dir)
    ensures id in EntriesOf(pages[t].dirents, dir) && (t < |pages| - 1 ==> id + DOTDOT !in pages[t].cookies)
    decreases |pages| - t
  {
    hide EntriesOf;
    if t < |pages| - 1 {
      NeverDeleted(dir, pages, id, t + 1);
      assert Deleted(dir, pages[t], pages[t + 1]);
    }
  }

  /** It ends: with `n` entries at the start, at most `n + 2` calls return anything, since two can
      return the dots alone and every other one an entry that goes. */
  lemma ListAndDeleteTerminates(dir: nat, pages: seq<Page>)
    requires pages != [] && ArePages(dir, pages) && ListsAndDeletes(dir, pages)
    requires forall t :: 0 <= t < |pages| - 1 ==> pages[t].cookies != []
    ensures |pages| - 1 <= |EntriesOf(pages[0].dirents, dir)| + 2
  {
    hide ArePages, ListsAndDeletes, EntriesOf;
    EntriesGoDown(dir, pages, |pages| - 1);
  }

  lemma {:induction false} EntriesGoDown(dir: nat, pages: seq<Page>, t: nat)
    requires ArePages(dir, pages) && ListsAndDeletes(dir, pages) && t < |pages|
    requires forall u :: 0 <= u < t ==> pages[u].cookies != []
    ensures |EntriesOf(pages[t].dirents, dir)| + Max(t - 2, 0) <= |EntriesOf(pages[0].dirents, dir)|
    decreases t
  {
    hide ArePages, ListsAndDeletes, EntriesOf, ReturnsAnEntry, OffsetAt;
    if t > 0 {
      EntriesGoDown(dir, pages, t - 1);
      DeletedBetween(dir, pages, t - 1);
      if t > 2 {
        OffsetsCount(dir, pages, t - 1);
        LaterPagesHaveEntries(dir, pages, t - 1);
        ReturnedEntryGoes(dir, pages[t - 1], pages[t]);
      } else {
        NothingComes(dir, pages[t - 1], pages[t]);
      }
    }
  }

  lemma DeletedBetween(dir: nat, pages: seq<Page>, t: nat)
    requires ListsAndDeletes(dir, pages) && t + 1 < |pages|
    ensures Deleted(dir, pages[t], pages[t + 1])
  {
    hide Deleted;
  }

  /** Each page that returns something moves the offset on by one at least. */
  lemma {:induction false} OffsetsCount(dir: nat, pages: seq<Page>, t: nat)
    requires ArePages(dir, pages) && t < |pages| && forall u :: 0 <= u < t ==> pages[u].cookies != []
    ensures OffsetAt(pages, t) >= t
    decreases t
  {
    hide ArePages, IsPage;
    if t > 0 {
      OffsetsCount(dir, pages, t - 1);
      OnePage(dir, pages, t - 1);
      EndsAreAfter(dir, pages[t - 1], OffsetAt(pages, t - 1));
    }
  }

  lemma OnePage(dir: nat, pages: seq<Page>, t: nat)
    requires ArePages(dir, pages) && t < |pages|
    ensures IsPage(pages[t].dirents, dir, OffsetAt(pages, t), pages[t].room, pages[t].cookies)
  {
    hide IsPage, OffsetAt;
  }

  lemma EndsAreAfter(dir: nat, page: Page, offset: int)
    requires IsPage(page.dirents, dir, offset, page.room, page.cookies) && page.cookies != []
    ensures page.cookies[|page.cookies| - 1] > offset
    ensures page.cookies[0] > offset && HasCookie(page.dirents, dir, page.cookies[0])
  {
    hide HasCookie, Increasing;
    assert page.cookies[|page.cookies| - 1] in page.cookies && page.cookies[0] in page.cookies;
  }

  lemma LaterPagesHaveEntries(dir: nat, pages: seq<Page>, t: nat)
    requires ArePages(dir, pages) && t < |pages| && OffsetAt(pages, t) >= DOTDOT && pages[t].cookies != []
    ensures ReturnsAnEntry(dir, pages[t])
  {
    hide ArePages, IsPage, HasCookie, OffsetAt;
    OnePage(dir, pages, t);
    EndsAreAfter(dir, pages[t], OffsetAt(pages, t));
    assert pages[t].cookies[0] in pages[t].cookies;
  }

  lemma ReturnedEntryGoes(dir: nat, page: Page, next: Page)
    requires ReturnsAnEntry(dir, page) && Deleted(dir, page, next)
    ensures |EntriesOf(next.dirents, dir)| < |EntriesOf(page.dirents, dir)|
  {
    hide EntriesOf;
    var c :| c in page.cookies && c > DOTDOT && HasCookie(page.dirents, dir, c);
    CookieIsEntry(page.dirents, dir, c);
    OneLess(EntriesOf(next.dirents, dir), EntriesOf(page.dirents, dir), EntryOf(c));
  }

  lemma NothingComes(dir: nat, page: Page, next: Page)
    requires Deleted(dir, page, next)
    ensures |EntriesOf(next.dirents, dir)| <= |EntriesOf(page.dirents, dir)|
  {
    hide EntriesOf;
    Smaller(EntriesOf(next.dirents, dir), EntriesOf(page.dirents, dir));
  }

  predicate ReturnsAnEntry(dir: nat, page: Page) {
    exists c :: c in page.cookies && c > DOTDOT && HasCookie(page.dirents, dir, c)
  }

  lemma CookieIsEntry(dirents: Dirents, dir: nat, c: int)
    requires c > DOTDOT && HasCookie(dirents, dir, c)
    ensures EntryOf(c) in EntriesOf(dirents, dir)
  {
  }

  lemma OneLess(a: set<nat>, b: set<nat>, x: nat)
    requires x in b && x !in a && forall y :: y in a ==> y in b
    ensures |a| < |b|
  {
    assert a <= b - {x};
    Smaller(a, b - {x});
  }

  lemma {:induction false} Smaller(a: set<nat>, b: set<nat>)
    requires a <= b
    ensures |a| <= |b|
    decreases |a|
  {
    if a != {} {
      var x :| x in a;
      Smaller(a - {x}, b - {x});
    }
  }
}
