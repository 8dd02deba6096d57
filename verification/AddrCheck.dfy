/** What the debug routine `Check_` tests, and that it tests for the invariant. */
module AddrCheck {
  import opened Basics
  import opened AddrBook
  import opened AddrOps

  /** The tests made of one entry, those of its statistics aside. */
  ghost predicate EntryOk(b: Book, id: int)
    requires id in b.info
  {
    var e := b.info[id];
    && (if e.inTried then e.refCount == 0 else 1 <= e.refCount <= NEW_BUCKETS_PER_ADDRESS)
    && e.service.addr in b.addr && b.addr[e.service.addr] == id
    && 0 <= e.randomPos < |b.random| && b.random[e.randomPos] == id
  }

  ghost predicate EntriesOk(b: Book) {
    forall id :: id in b.info ==> EntryOk(b, id)
  }

  ghost predicate CountsOk(b: Book) {
    && |b.random| == b.nTried + b.nNew
    && b.nTried == |TriedIds(b)| && b.nNew == |NewIds(b, {})|
  }

  /** Every "tried" entry is in a cell, and every cell is right for its entry. */
  ghost predicate TriedOk(h: Hashes, b: Book) {
    && (forall s :: s in b.tried && b.tried[s] != NONE ==> TriedCellOk(h, b, s))
    && (forall id :: id in TriedIds(b) ==> id != NONE && exists s :: s in b.tried && b.tried[s] == id)
  }

  ghost predicate TriedCellOk(h: Hashes, b: Book, s: Slot)
    requires s in b.tried
  {
    b.tried[s] in TriedIds(b) && s == h.TriedSlot(b.key, b.info[b.tried[s]].service)
  }

  ghost predicate NewCellOk(h: Hashes, b: Book, s: Slot)
    requires s in b.news
  {
    b.news[s] in NewIds(b, {}) && s.pos == h.Position(b.key, true, s.bucket, b.info[b.news[s]].service)
  }

  /** Every "new" entry is in as many cells as it has references. */
  ghost predicate NewOk(h: Hashes, b: Book) {
    && (forall s :: s in b.news && b.news[s] != NONE ==> NewCellOk(h, b, s))
    && (forall id :: id in NewIds(b, {}) ==> id != NONE && |SlotsOf(b.news, id)| == b.info[id].refCount)
  }

  /** All the structural tests. */
  ghost predicate Structural(h: Hashes, b: Book) {
    CountsOk(b) && EntriesOk(b) && TriedOk(h, b) && NewOk(h, b)
  }

  /** What is not tested: the shape of the tables, the range of the ids, and that the index by address has no
      entries to spare. */
  ghost predicate Untested(b: Book) {
    && IsGrid(b.news, NEW_BUCKET_COUNT) && IsGrid(b.tried, TRIED_BUCKET_COUNT) && IdsInRange(b)
    && (forall a :: a in b.addr ==> b.addr[a] in b.info && b.info[b.addr[a]].service.addr == a)
  }

  // ----- the counts

  lemma AllIds(b: Book)
    ensures |b.info.Keys| == |TriedIds(b)| + |NewIds(b, {})|
  {
    SameIds(b.info.Keys, TriedIds(b) + NewIds(b, {}));
    assert TriedIds(b) !! NewIds(b, {});
  }

  /** As many ids as places: a place that no entry knows of would be one too many. */
  lemma PlacesKnown(b: Book, i: int)
    requires EntriesOk(b) && |b.random| == |b.info.Keys| && 0 <= i < |b.random|
    ensures b.random[i] in b.info && b.info[b.random[i]].randomPos == i
  {
    if forall id :: id in b.info ==> b.info[id].randomPos != i {
      var f := map id | id in b.info :: Squeezed(b.info[id].randomPos, i);
      forall x, y | x in b.info.Keys && y in b.info.Keys && f[x] == f[y] ensures x == y {
        assert EntryOk(b, x) && EntryOk(b, y);
      }
      forall x | x in b.info.Keys ensures x in f && 0 <= f[x] < |b.random| - 1 {
        assert EntryOk(b, x);
      }
      Pigeonhole(b.info.Keys, f, |b.random| - 1);
    } else {
      var id :| id in b.info && b.info[id].randomPos == i;
      assert EntryOk(b, id);
    }
  }

  function Squeezed(p: int, i: int): int {
    if p < i then p else p - 1
  }

  /** The ids in the first n places. */
  ghost function IdsBelow(b: Book, n: int): set<int> {
    set id | id in b.info && b.info[id].randomPos < n
  }

  lemma {:induction false} IdsInVector(b: Book, n: nat)
    requires RandomIndexed(b) && n <= |b.random|
    ensures |IdsBelow(b, n)| == n
    decreases n
  {
    if n == 0 {
      SameIds(IdsBelow(b, n), {});
    } else {
      IdsInVector(b, n - 1);
      var id := b.random[n - 1];
      assert id in b.info && b.info[id].randomPos == n - 1;
      SameIds(IdsBelow(b, n), IdsBelow(b, n - 1) + {id});
    }
  }

  lemma VectorSize(b: Book)
    requires RandomIndexed(b)
    ensures |b.random| == |b.info.Keys|
  {
    IdsInVector(b, |b.random|);
    SameIds(IdsBelow(b, |b.random|), b.info.Keys);
  }

  // ----- both ways

  lemma InvIsStructural(h: Hashes, b: Book)
    requires Inv(h, b)
    ensures Structural(h, b) && Untested(b)
  {
    VectorSize(b);
    AllIds(b);
    assert NewOk(h, b) by {
      forall s | s in b.news && b.news[s] != NONE ensures NewCellOk(h, b, s) {}
    }
    assert TriedOk(h, b);
  }

  lemma StructuralIndexed(b: Book)
    requires CountsOk(b) && EntriesOk(b) && Untested(b)
    ensures Indexed(b)
  {
    AllIds(b);
    forall i | 0 <= i < |b.random| ensures b.random[i] in b.info && b.info[b.random[i]].randomPos == i {
      PlacesKnown(b, i);
    }
    forall id | id in b.info
      ensures 0 <= b.info[id].randomPos < |b.random| && b.random[b.info[id].randomPos] == id
      ensures b.info[id].service.addr in b.addr && b.addr[b.info[id].service.addr] == id
    {
      assert EntryOk(b, id);
    }
  }

  lemma StructuralRefs(h: Hashes, b: Book)
    requires EntriesOk(b) && NewOk(h, b) && NONE !in b.info
    ensures RefCounted(b, {})
  {
    forall id | id in b.info
      ensures b.info[id].refCount == |SlotsOf(b.news, id)| && b.info[id].refCount <= NEW_BUCKETS_PER_ADDRESS
      ensures b.info[id].inTried ==> b.info[id].refCount == 0
      ensures !b.info[id].inTried ==> 1 <= b.info[id].refCount
    {
      assert EntryOk(b, id);
      if b.info[id].inTried {
        forall s | s in b.news ensures b.news[s] != id {
          assert b.news[s] != NONE ==> NewCellOk(h, b, s);
        }
        assert SlotsOf(b.news, id) == {};
      } else {
        assert id in NewIds(b, {});
      }
    }
  }

  lemma StructuralTables(h: Hashes, b: Book)
    requires TriedOk(h, b) && NewOk(h, b) && NONE !in b.info
    ensures NewPlaced(h, b) && TriedPlaced(h, b)
  {
    forall s | s in b.news && b.news[s] != NONE
      ensures b.news[s] in b.info && !b.info[b.news[s]].inTried
      ensures s.pos == h.Position(b.key, true, s.bucket, b.info[b.news[s]].service)
    {
      assert NewCellOk(h, b, s);
    }
    forall id | id in b.info && b.info[id].inTried
      ensures h.TriedSlot(b.key, b.info[id].service) in b.tried
      ensures b.tried[h.TriedSlot(b.key, b.info[id].service)] == id
    {
      assert id in TriedIds(b);
      var s :| s in b.tried && b.tried[s] == id;
      assert TriedCellOk(h, b, s);
    }
    forall s | s in b.tried && b.tried[s] != NONE
      ensures b.tried[s] in b.info && b.info[b.tried[s]].inTried
      ensures s == h.TriedSlot(b.key, b.info[b.tried[s]].service)
    {
      assert TriedCellOk(h, b, s);
    }
  }

  /** The structural tests are passed exactly by the books of the invariant, as far as anything is tested. */
  lemma StructuralIsInv(h: Hashes, b: Book)
    requires Untested(b)
    ensures Structural(h, b) <==> Inv(h, b)
  {
    if Inv(h, b) {
      InvIsStructural(h, b);
    }
    if Structural(h, b) {
      StructuralIndexed(b);
      StructuralRefs(h, b);
      StructuralTables(h, b);
    }
  }

  /** An address that the index has without need is not noticed. */
  lemma SpareAddress(h: Hashes, key: nat, a: NetAddr)
    ensures var b := EmptyBook(key).(addr := map[a := 0]);
      Structural(h, b) && !Inv(h, b)
  {
    var b := EmptyBook(key).(addr := map[a := 0]);
    EmptyInv(h, key);
    InvIsStructural(h, EmptyBook(key));
    SameIds(TriedIds(b), TriedIds(EmptyBook(key)));
    SameIds(NewIds(b, {}), NewIds(EmptyBook(key), {}));
    assert !AddrIndexed(b) by {
      assert b.addr[a] !in b.info;
    }
  }

  /** Nor is an id that was not given out yet. */
  lemma SpareId(h: Hashes, b: Book, x: int)
    requires Inv(h, b) && x in b.info
    ensures Structural(h, b.(idCount := 0)) && !Inv(h, b.(idCount := 0))
  {
    InvIsStructural(h, b);
    var c := b.(idCount := 0);
    SameIds(TriedIds(c), TriedIds(b));
    SameIds(NewIds(c, {}), NewIds(b, {}));
    forall id | id in c.info ensures EntryOk(c, id) {
      assert EntryOk(b, id);
    }
    assert !IdsInRange(c) by {
      assert x in c.info;
    }
  }

  // ----- going through the tables

  /** The tests made of the statistics of the entries. */
  ghost predicate StatsOk(b: Book) {
    forall id :: id in b.info ==> EntryStatsOk(b.info[id])
  }

  ghost predicate EntryStatsOk(e: Info) {
    (e.inTried ==> e.lastSuccess != 0) && 0 <= e.lastTry && 0 <= e.lastSuccess
  }

  // ----- looking up the entries

  /** A lookup for entry `id` may have entered its host. */
  ghost predicate Grows(was: map<NetAddr, int>, now: map<NetAddr, int>, id: int, host: NetAddr) {
    now == was || (host !in was && now == was[host := 0])
  }

  /** Hosts entered on the way belong to the entry they lead to. */
  ghost predicate Extends(b: Book, addr: map<NetAddr, int>) {
    && (forall a :: a in b.addr ==> a in addr && addr[a] == b.addr[a])
    && (forall a :: a in addr && a !in b.addr ==> addr[a] in b.info && b.info[addr[a]].service.addr == a)
  }

  lemma ExtendedUntested(b: Book, c: Book)
    requires c == b.(addr := c.addr) && Extends(b, c.addr)
    ensures Untested(b) ==> Untested(c)
  {
  }

  lemma GrowsExtends(b: Book, c: Book, d: Book, id: int)
    requires c == b.(addr := c.addr) && d == c.(addr := d.addr) && id in c.info && EntryOk(d, id)
    requires Extends(b, c.addr) && Grows(c.addr, d.addr, id, c.info[id].service.addr)
    ensures Extends(b, d.addr)
  {
  }

  // ----- collecting what the tables should hold

  /** These entries passed their tests, and were collected by table. */
  ghost predicate Checked(b: Book, done: set<int>, tried: set<int>, news: map<int, int>) {
    && (forall id :: id in done ==> id in b.info && EntryOk(b, id) && EntryStatsOk(b.info[id]))
    && (forall id :: id in tried <==> id in done && id in b.info && b.info[id].inTried)
    && news == Collected(b, done)
  }

  /** The references of those of the entries that are not in "tried". */
  ghost function Collected(b: Book, done: set<int>): map<int, int> {
    map id | id in b.info && id in done && !b.info[id].inTried :: b.info[id].refCount
  }

  lemma NothingChecked(b: Book)
    ensures Checked(b, {}, {}, map[]) && Extends(b, b.addr)
  {
  }

  /** Entries that passed still pass. */
  lemma GrowsKeeps(b: Book, c: Book, id: int, done: set<int>, tried: set<int>, news: map<int, int>)
    requires id in b.info && c == b.(addr := c.addr) && Grows(b.addr, c.addr, id, b.info[id].service.addr)
    requires Checked(b, done, tried, news)
    ensures Checked(c, done, tried, news)
  {
    forall x | x in done ensures EntryOk(c, x) {
      assert EntryOk(b, x);
    }
    assert Collected(c, done) == Collected(b, done);
  }

  lemma CheckedNext(b: Book, id: int, done: set<int>, tried: set<int>, news: map<int, int>)
    requires Checked(b, done, tried, news)
    requires id in b.info && EntryOk(b, id) && EntryStatsOk(b.info[id])
    ensures b.info[id].inTried ==> Checked(b, done + {id}, tried + {id}, news)
    ensures !b.info[id].inTried ==> Checked(b, done + {id}, tried, news[id := b.info[id].refCount])
  {
    assert b.info[id].inTried ==> Collected(b, done + {id}) == news;
    assert !b.info[id].inTried ==> Collected(b, done + {id}) == news[id := b.info[id].refCount];
  }

  lemma CheckedAll(b: Book, ids: seq<int>, done: set<int>, tried: set<int>, news: map<int, int>)
    requires Checked(b, done, tried, news)
    requires forall x :: x in ids <==> x in b.info.Keys
    requires forall x :: x in done <==> x in ids
    ensures EntriesOk(b) && StatsOk(b) && tried == TriedIds(b) && news == References(b)
  {
    SameIds(done, b.info.Keys);
    forall id | id in b.info ensures EntryOk(b, id) && EntryStatsOk(b.info[id]) {
      assert id in b.info.Keys;
    }
    SameIds(tried, TriedIds(b));
  }

  /** The references of the "new" entries. */
  ghost function References(b: Book): map<int, int> {
    Collected(b, b.info.Keys)
  }

  lemma ReferencesSize(b: Book)
    ensures |References(b)| == |NewIds(b, {})|
  {
    SameIds(References(b).Keys, NewIds(b, {}));
    assert |References(b)| == |References(b).Keys|;
  }

  /** What the cells before position `p` of bucket `k` hold. */
  ghost function FoundIn(t: Table, k: int, p: int): set<int> {
    set s | s in t && Before(s, k, p) && t[s] != NONE :: t[s]
  }

  lemma FoundNext(t: Table, k: int, p: int)
    requires Slot(k, p) in t
    ensures FoundIn(t, k, p + 1) == FoundIn(t, k, p) + if t[Slot(k, p)] != NONE then {t[Slot(k, p)]} else {}
  {
    assert Before(Slot(k, p), k, p + 1);
    forall s | s in t && Before(s, k, p + 1) ensures Before(s, k, p) || s == Slot(k, p) {}
    SameIds(FoundIn(t, k, p + 1), FoundIn(t, k, p) + if t[Slot(k, p)] != NONE then {t[Slot(k, p)]} else {});
  }

  lemma WithoutMore(all: set<int>, some: set<int>, x: int)
    ensures all - (some + {x}) == all - some - {x}
    ensures some + {} == some
  {
    SameIds(all - (some + {x}), all - some - {x});
  }

  lemma FoundNextBucket(t: Table, buckets: int, k: int)
    requires IsGrid(t, buckets)
    ensures FoundIn(t, k, BUCKET_SIZE) == FoundIn(t, k + 1, 0)
  {
    SameIds(FoundIn(t, k, BUCKET_SIZE), FoundIn(t, k + 1, 0));
  }

  /** The "tried" cells before position `p` of bucket `k` are right. */
  ghost predicate TriedOkUpTo(h: Hashes, b: Book, k: int, p: int) {
    forall s :: s in b.tried && Before(s, k, p) && b.tried[s] != NONE ==> TriedCellOk(h, b, s)
  }

  lemma TriedOkNext(h: Hashes, b: Book, k: int, p: int)
    requires TriedOkUpTo(h, b, k, p) && Slot(k, p) in b.tried
    requires b.tried[Slot(k, p)] == NONE || TriedCellOk(h, b, Slot(k, p))
    ensures TriedOkUpTo(h, b, k, p + 1)
  {
    forall s | s in b.tried && Before(s, k, p + 1) && b.tried[s] != NONE ensures TriedCellOk(h, b, s) {
      assert Before(s, k, p) || s == Slot(k, p);
    }
  }

  /** An entry met a second time is in the wrong cell. */
  lemma FoundTwice(h: Hashes, b: Book, k: int, p: int)
    requires TriedOkUpTo(h, b, k, p) && Slot(k, p) in b.tried && b.tried[Slot(k, p)] != NONE
    requires b.tried[Slot(k, p)] in FoundIn(b.tried, k, p)
    ensures !TriedCellOk(h, b, Slot(k, p))
  {
    var s :| s in b.tried && Before(s, k, p) && b.tried[s] == b.tried[Slot(k, p)];
    assert TriedCellOk(h, b, s);
  }

  lemma Nothing(h: Hashes, b: Book)
    requires IsGrid(b.tried, TRIED_BUCKET_COUNT)
    ensures TriedOkUpTo(h, b, 0, 0) && TriedIds(b) - FoundIn(b.tried, 0, 0) == TriedIds(b)
  {
    SameIds(FoundIn(b.tried, 0, 0), {});
  }

  lemma TriedNextBucket(h: Hashes, b: Book, k: int)
    requires IsGrid(b.tried, TRIED_BUCKET_COUNT) && TriedOkUpTo(h, b, k, BUCKET_SIZE)
    ensures TriedOkUpTo(h, b, k + 1, 0)
  {
    forall s | s in b.tried && Before(s, k + 1, 0) && b.tried[s] != NONE ensures TriedCellOk(h, b, s) {
      assert Before(s, k, BUCKET_SIZE);
    }
  }

  lemma TriedEnd(h: Hashes, b: Book)
    requires IsGrid(b.tried, TRIED_BUCKET_COUNT) && TriedOkUpTo(h, b, TRIED_BUCKET_COUNT, 0)
    ensures TriedIds(b) - FoundIn(b.tried, TRIED_BUCKET_COUNT, 0) == {} <==> TriedOk(h, b)
  {
    var found := FoundIn(b.tried, TRIED_BUCKET_COUNT, 0);
    forall s | s in b.tried ensures Before(s, TRIED_BUCKET_COUNT, 0) {}
    if TriedOk(h, b) {
      forall id | id in TriedIds(b) ensures id in found {
        var s :| s in b.tried && b.tried[s] == id;
      }
    }
    if TriedIds(b) - found == {} {
      forall id | id in TriedIds(b) ensures id != NONE && exists s :: s in b.tried && b.tried[s] == id {
        assert id !in TriedIds(b) - found;
      }
    }
  }

  /** How often an entry is met in the given cells; an empty cell is no entry. */
  ghost function Met(t: Table, id: int): nat {
    if id == NONE then 0 else |SlotsOf(t, id)|
  }

  /** The references of the "new" entries that were not met in the given cells. */
  ghost function Left(b: Book, t: Table): map<int, int> {
    map id | id in NewIds(b, {}) && Met(t, id) < b.info[id].refCount :: b.info[id].refCount - Met(t, id)
  }

  /** The "new" cells before position `p` of bucket `k` are right, and no entry is met too often. */
  ghost predicate NewOkUpTo(h: Hashes, b: Book, k: int, p: int) {
    && (forall s :: s in b.news && Before(s, k, p) && b.news[s] != NONE ==> NewCellOk(h, b, s))
    && (forall id :: id in NewIds(b, {}) && id != NONE ==> Met(UpTo(b.news, k, p), id) <= b.info[id].refCount)
  }

  /** A free cell changes nothing. */
  lemma FreeCell(h: Hashes, b: Book, k: int, p: int)
    requires NewOkUpTo(h, b, k, p) && Slot(k, p) in b.news && b.news[Slot(k, p)] == NONE
    ensures NewOkUpTo(h, b, k, p + 1) && Left(b, UpTo(b.news, k, p + 1)) == Left(b, UpTo(b.news, k, p))
  {
    UpToNext(b.news, k, p);
    forall s | s in b.news && Before(s, k, p + 1) && b.news[s] != NONE ensures NewCellOk(h, b, s) {
      assert Before(s, k, p);
    }
  }

  /** A cell with an entry that may still be met takes one of its references. */
  lemma TakenCell(h: Hashes, b: Book, k: int, p: int)
    requires NewOkUpTo(h, b, k, p) && Slot(k, p) in b.news
    requires b.news[Slot(k, p)] != NONE && NewCellOk(h, b, Slot(k, p))
    requires b.news[Slot(k, p)] in Left(b, UpTo(b.news, k, p))
    ensures NewOkUpTo(h, b, k, p + 1)
    ensures var id, m := b.news[Slot(k, p)], Left(b, UpTo(b.news, k, p));
      Left(b, UpTo(b.news, k, p + 1)) == if m[id] == 1 then m - {id} else m[id := m[id] - 1]
  {
    hide Left;
    hide UpTo;
    hide SlotsOf;
    var s0, t := Slot(k, p), UpTo(b.news, k, p);
    var id := b.news[s0];
    LeftMeans(b, t);
    UpToNext(b.news, k, p);
    SameCells(b.news, k, p);
    var t' := UpTo(b.news, k, p + 1);
    forall x | x in NewIds(b, {})
      ensures Met(t', x) == Met(t, x) + if x == id then 1 else 0
    {
      if x != NONE {
        SlotsOfUpdate(t, s0, id, x);
      }
    }
    forall s | s in b.news && Before(s, k, p + 1) && b.news[s] != NONE ensures NewCellOk(h, b, s) {
      assert Before(s, k, p) || s == s0;
    }
    LeftTakes(b, t, t', id);
  }

  lemma LeftMeans(b: Book, t: Table)
    ensures forall id :: id in Left(b, t) ==> id in NewIds(b, {}) && Met(t, id) < b.info[id].refCount
  {
  }

  lemma SameCells(t: Table, k: int, p: int)
    ensures forall s :: s in UpTo(t, k, p) <==> s in t
  {
  }

  lemma LeftTakes(b: Book, t: Table, t': Table, id: int)
    requires id in Left(b, t)
    requires forall x :: x in NewIds(b, {}) ==> Met(t', x) == Met(t, x) + if x == id then 1 else 0
    ensures var m := Left(b, t);
      Left(b, t') == if m[id] == 1 then m - {id} else m[id := m[id] - 1]
  {
    hide Met;
    hide NewIds;
    var m := Left(b, t);
    var r := if m[id] == 1 then m - {id} else m[id := m[id] - 1];
    assert Left(b, t') == r;
  }

  /** An entry that may not be met any more is in too many cells, or does not belong here. */
  lemma MetTooOften(h: Hashes, b: Book, k: int, p: int)
    requires NewOkUpTo(h, b, k, p) && Slot(k, p) in b.news && b.news[Slot(k, p)] != NONE
    requires b.news[Slot(k, p)] !in Left(b, UpTo(b.news, k, p))
    ensures !NewOk(h, b)
  {
    var s0, t := Slot(k, p), UpTo(b.news, k, p);
    var id := b.news[s0];
    if id in NewIds(b, {}) {
      assert SlotsOf(t, id) <= SlotsOf(b.news, id) - {s0};
      SubsetSize(SlotsOf(t, id), SlotsOf(b.news, id) - {s0});
      assert s0 in SlotsOf(b.news, id);
    } else {
      assert !NewCellOk(h, b, s0);
    }
  }

  lemma NothingMet(h: Hashes, b: Book)
    requires IsGrid(b.news, NEW_BUCKET_COUNT) && EntriesOk(b)
    ensures NewOkUpTo(h, b, 0, 0) && References(b) == Left(b, UpTo(b.news, 0, 0))
  {
    var t := UpTo(b.news, 0, 0);
    forall id | id in NewIds(b, {}) ensures Met(t, id) == 0 && 1 <= b.info[id].refCount {
      assert EntryOk(b, id);
      assert id != NONE ==> SlotsOf(t, id) == {};
    }
    assert References(b) == Left(b, t);
  }

  lemma NewNextBucket(h: Hashes, b: Book, k: int)
    requires IsGrid(b.news, NEW_BUCKET_COUNT) && NewOkUpTo(h, b, k, BUCKET_SIZE)
    ensures NewOkUpTo(h, b, k + 1, 0) && UpTo(b.news, k, BUCKET_SIZE) == UpTo(b.news, k + 1, 0)
  {
    UpToNextBucket(b.news, NEW_BUCKET_COUNT, k);
    forall s | s in b.news && Before(s, k + 1, 0) && b.news[s] != NONE ensures NewCellOk(h, b, s) {
      assert Before(s, k, BUCKET_SIZE);
    }
  }

  lemma NewEnd(h: Hashes, b: Book)
    requires IsGrid(b.news, NEW_BUCKET_COUNT) && NewOkUpTo(h, b, NEW_BUCKET_COUNT, 0) && EntriesOk(b)
    ensures Left(b, UpTo(b.news, NEW_BUCKET_COUNT, 0)) == map[] <==> NewOk(h, b)
  {
    forall s | s in b.news ensures Before(s, NEW_BUCKET_COUNT, 0) {}
    assert UpTo(b.news, NEW_BUCKET_COUNT, 0) == b.news;
    var m := Left(b, b.news);
    if m == map[] {
      forall id | id in NewIds(b, {}) ensures id != NONE && |SlotsOf(b.news, id)| == b.info[id].refCount {
        assert EntryOk(b, id);
        assert id !in m;
      }
    }
    if NewOk(h, b) {
      assert forall id :: id !in m;
      assert m == map[];
    }
  }
}
