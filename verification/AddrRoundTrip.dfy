/** Reading back what was written gives the same manager up to the ids. */
module AddrRoundTrip {
  import opened Basics
  import opened AddrBook
  import opened AddrOps
  import opened AddrSerial

  /** What holds at `m` and is handed on by every step from `m` to `n` holds at `n`. */
  lemma {:induction false} Climb(p: int -> bool, m: int, n: int)
    requires m <= n && p(m)
    requires forall i :: m <= i < n && p(i) ==> p(i + 1)
    ensures p(n)
    decreases n - m
  {
    if m != n {
      Climb(p, m + 1, n);
    }
  }

  // ----- entries come back in the order of their records

  /** The entry that record `i` becomes; the first `m` records are those of the "new" table. */
  function Entry(records: seq<Record>, m: int, i: int): Info
    requires 0 <= i < |records|
  {
    InfoOf(records[i]).(inTried := m <= i, randomPos := i)
  }

  /** No two records of the same host, and no two of the "tried" table with the same cell. */
  ghost predicate Distinct(h: Hashes, key: nat, records: seq<Record>, m: int) {
    && (forall i, j :: 0 <= i < j < |records| ==> records[i].service.addr != records[j].service.addr)
    && (forall i, j :: 0 <= i < j < |records| && m <= i ==>
          h.TriedSlot(key, records[i].service) != h.TriedSlot(key, records[j].service))
  }

  /** The first `n` records are entries, under the ids 0 to n-1. */
  ghost predicate Holds(c: Book, records: seq<Record>, m: int, n: int) {
    && 0 <= n <= |records|
    && (forall i :: i in c.info <==> 0 <= i < n)
    && (forall i :: 0 <= i < n ==> c.info[i] == Entry(records, m, i))
    && |c.random| == n && (forall i :: 0 <= i < n ==> c.random[i] == i)
  }

  lemma AppendedHolds(c: Book, records: seq<Record>, m: int, n: int, e: Info)
    requires Holds(c, records, m, n) && n < |records|
    requires e.(randomPos := n) == Entry(records, m, n)
    ensures Holds(Appended(c, n, e), records, m, n + 1)
  {
  }

  lemma AppendedAddr(c: Book, records: seq<Record>, m: int, n: int, e: Info)
    requires Holds(c, records, m, n) && n < |records| && AddrIndexed(c)
    requires forall i :: 0 <= i < n ==> records[i].service.addr != e.service.addr
    ensures AddrIndexed(Appended(c, n, e))
  {
    var d := Appended(c, n, e);
    assert e.service.addr !in c.addr by {
      forall i | 0 <= i < n ensures c.info[i].service.addr != e.service.addr {
        assert c.info[i] == Entry(records, m, i);
      }
    }
    forall a | a in d.addr ensures d.addr[a] in d.info && d.info[d.addr[a]].service.addr == a {
      if a != e.service.addr {
        var i := c.addr[a];
        assert i in c.info;
      }
    }
  }

  /** `c` is what reading the first `n` records as "new" entries must give, starting from `b`. */
  ghost predicate Entered(b: Book, c: Book, records: seq<Record>, m: int, n: int) {
    && Holds(c, records, m, n) && AddrIndexed(c)
    && c == b.(info := c.info, addr := c.addr, random := c.random)
  }

  lemma EnteredStep(h: Hashes, b: Book, c: Book, key: nat, records: seq<Record>, m: int, n: int)
    requires Entered(b, c, records, m, n) && n < m <= |records| && Distinct(h, key, records, m)
    ensures Entered(b, WithNew(h, c, n, records[n], true), records, m, n + 1)
  {
    AppendedHolds(c, records, m, n, InfoOf(records[n]));
    AppendedAddr(c, records, m, n, InfoOf(records[n]));
  }

  lemma {:induction false} NewCome(h: Hashes, b: Book, key: nat, records: seq<Record>, m: int, n: nat)
    requires Entered(b, b, records, m, 0) && n <= m <= |records| && Distinct(h, key, records, m)
    ensures Entered(b, NewLoaded(h, b, records, n, true), records, m, n)
    decreases n
  {
    if n != 0 {
      NewCome(h, b, key, records, m, n - 1);
      var c := NewLoaded(h, b, records, n - 1, true);
      EnteredStep(h, b, c, key, records, m, n - 1);
      assert NewLoaded(h, b, records, n, true) == WithNew(h, c, n - 1, records[n - 1], true);
    }
  }

  /** The "tried" cells of records `m` to `n`-1 are taken, and no others. */
  ghost predicate Seats(h: Hashes, key: nat, t: Table, records: seq<Record>, m: int, n: int) {
    && IsGrid(t, TRIED_BUCKET_COUNT)
    && 0 <= m <= n <= |records|
    && (forall i :: m <= i < n ==>
          h.TriedSlot(key, records[i].service) in t && t[h.TriedSlot(key, records[i].service)] == i)
    && (forall s :: s in t && t[s] != NONE ==>
          m <= t[s] < n && s == h.TriedSlot(key, records[t[s]].service))
  }

  lemma SeatFree(h: Hashes, key: nat, t: Table, records: seq<Record>, m: int, n: int)
    requires Seats(h, key, t, records, m, n) && n < |records| && Distinct(h, key, records, m)
    ensures var s := h.TriedSlot(key, records[n].service);
      && s in t && t[s] == NONE
      && Seats(h, key, t[s := n], records, m, n + 1)
  {
    var s := h.TriedSlot(key, records[n].service);
    assert s in t && t[s] == NONE;
    forall i | m <= i < n ensures h.TriedSlot(key, records[i].service) != s {}
  }

  /** `c` is what reading the records up to `n` must give, starting from `c0` with the "new" ones read. */
  ghost predicate Seated(h: Hashes, c0: Book, c: Book, records: seq<Record>, m: int, n: int) {
    && Seats(h, c.key, c.tried, records, m, n)
    && Holds(c, records, m, n) && AddrIndexed(c)
    && c == c0.(info := c.info, addr := c.addr, random := c.random, tried := c.tried, idCount := n)
  }

  lemma TriedStep(h: Hashes, c: Book, records: seq<Record>, m: int, n: int)
    requires Seats(h, c.key, c.tried, records, m, n) && n < |records| && Distinct(h, c.key, records, m)
    requires c.idCount == n
    ensures WithTried(h, c, records[n]) ==
            Appended(c, n, InfoOf(records[n]).(inTried := true)).(
              tried := c.tried[h.TriedSlot(c.key, records[n].service) := n], idCount := n + 1)
  {
    SeatFree(h, c.key, c.tried, records, m, n);
  }

  lemma HoldsTables(c: Book, d: Book, records: seq<Record>, m: int, n: int)
    requires Holds(c, records, m, n) && AddrIndexed(c)
    requires d == c.(tried := d.tried, idCount := d.idCount)
    ensures Holds(d, records, m, n) && AddrIndexed(d)
  {
  }

  lemma SeatedStep(h: Hashes, c0: Book, c: Book, records: seq<Record>, m: int, n: int)
    requires Seated(h, c0, c, records, m, n) && n < |records| && Distinct(h, c0.key, records, m)
    ensures Seated(h, c0, WithTried(h, c, records[n]), records, m, n + 1)
  {
    var e := InfoOf(records[n]).(inTried := true);
    var a, d := Appended(c, n, e), WithTried(h, c, records[n]);
    TriedStep(h, c, records, m, n);
    assert Seats(h, d.key, d.tried, records, m, n + 1) by { SeatFree(h, c.key, c.tried, records, m, n); }
    assert Holds(a, records, m, n + 1) by { AppendedHolds(c, records, m, n, e); }
    assert AddrIndexed(a) by { AppendedAddr(c, records, m, n, e); }
    assert Holds(d, records, m, n + 1) && AddrIndexed(d) by { HoldsTables(a, d, records, m, n + 1); }
  }

  /** Reading the records up to `n` gives what it must. */
  ghost predicate TriedBack(h: Hashes, c0: Book, records: seq<Record>, m: nat, n: int) {
    m <= n <= |records| && Seated(h, c0, TriedLoaded(h, c0, records, m, n), records, m, n)
  }

  lemma TriedNext(h: Hashes, c0: Book, records: seq<Record>, m: nat, n: int)
    requires TriedBack(h, c0, records, m, n) && n < |records| && Distinct(h, c0.key, records, m)
    ensures TriedBack(h, c0, records, m, n + 1)
  {
    var c := TriedLoaded(h, c0, records, m, n);
    assert TriedLoaded(h, c0, records, m, n + 1) == WithTried(h, c, records[n]);
    SeatedStep(h, c0, c, records, m, n);
  }

  lemma TriedCome(h: Hashes, c0: Book, records: seq<Record>, m: nat, n: nat)
    requires TriedBack(h, c0, records, m, m) && m <= n <= |records| && Distinct(h, c0.key, records, m)
    ensures TriedBack(h, c0, records, m, n)
  {
    hide *;
    var p := (i: int) => TriedBack(h, c0, records, m, i);
    forall i | m <= i < n && p(i) ensures p(i + 1) {
      TriedNext(h, c0, records, m, i);
    }
    Climb(p, m, n);
  }

  // ----- "new" cells come back

  /** The table as it is written: ids replaced by the indexes of their records. */
  function Renamed(news: Table, index: map<int, int>): (t: Table)
    ensures forall s :: s in t <==> s in news
  {
    map s | s in news :: if news[s] in index then index[news[s]] else NONE
  }

  /** The indexes in the first `p` cells of a bucket. */
  function CellsOf(t: Table, k: int, p: nat): seq<int>
    requires forall q :: 0 <= q < p ==> Slot(k, q) in t
  {
    if p == 0 then [] else
    CellsOf(t, k, p - 1) + if t[Slot(k, p - 1)] != NONE then [t[Slot(k, p - 1)]] else []
  }

  /** What table `t` holds leads back to its own cells when read into `c`. */
  ghost predicate Fits(h: Hashes, c: Book, t: Table) {
    && IsGrid(t, NEW_BUCKET_COUNT)
    && NONE !in c.info
    && (forall s :: s in t && t[s] != NONE ==>
          && 0 <= t[s] < c.nNew && t[s] in c.info
          && s.pos == h.Position(c.key, true, s.bucket, c.info[t[s]].service))
    && (forall i :: i in c.info ==> |SlotsOf(t, i)| <= NEW_BUCKETS_PER_ADDRESS)
  }

  /** `d` is `c` with the cells of `news` filled and the references counted. */
  ghost predicate Filled(c: Book, d: Book, news: Table) {
    && d == c.(info := d.info, news := news)
    && (forall i :: i in c.info <==> i in d.info)
    && (forall i :: i in c.info ==> d.info[i] == c.info[i].(refCount := |SlotsOf(news, i)|))
  }

  lemma RoomForReference(t: Table, k: int, p: int, i: int)
    requires Slot(k, p) in t && t[Slot(k, p)] == i && i != NONE
    ensures |SlotsOf(UpTo(t, k, p), i)| < |SlotsOf(t, i)|
  {
    var s, u := Slot(k, p), UpTo(t, k, p);
    assert SlotsOf(u, i) <= SlotsOf(t, i) - {s};
    SubsetSize(SlotsOf(u, i), SlotsOf(t, i) - {s});
    assert s in SlotsOf(t, i);
  }

  lemma ReferencedFills(c: Book, d: Book, news: Table, s: Slot, i: int)
    requires Filled(c, d, news) && s in news && news[s] == NONE && i in c.info && NONE !in c.info
    ensures Filled(c, Referenced(d, i, s), news[s := i])
  {
    var e := Referenced(d, i, s);
    forall x | x in c.info ensures e.info[x] == c.info[x].(refCount := |SlotsOf(news[s := i], x)|) {
      SlotsOfUpdate(news, s, i, x);
    }
  }

  /** One index of a bucket goes to the cell it was found in. */
  lemma CellFills(h: Hashes, c: Book, d: Book, t: Table, k: int, p: int)
    requires Fits(h, c, t) && Filled(c, d, UpTo(t, k, p))
    requires Slot(k, p) in t && t[Slot(k, p)] != NONE
    ensures Filled(c, WithCell(h, d, k, t[Slot(k, p)], true), UpTo(t, k, p + 1))
  {
    var s := Slot(k, p);
    var i := t[s];
    UpToNext(t, k, p);
    RoomForReference(t, k, p, i);
    assert WithCell(h, d, k, i, true) == Referenced(d, i, s);
    ReferencedFills(c, d, UpTo(t, k, p), s, i);
  }

  lemma {:induction false} CellsOfPrefix(t: Table, k: int, p: nat, q: nat)
    requires p <= q && forall r :: 0 <= r < q ==> Slot(k, r) in t
    ensures |CellsOf(t, k, p)| <= |CellsOf(t, k, q)|
    ensures CellsOf(t, k, q)[..|CellsOf(t, k, p)|] == CellsOf(t, k, p)
  {
    if p != q {
      CellsOfPrefix(t, k, p, q - 1);
    }
  }

  /** The bucket's list read up to the indexes found in its first `p` cells. */
  ghost function BucketUpTo(h: Hashes, d: Book, t: Table, k: int, p: nat): Book
    requires p <= BUCKET_SIZE && forall q :: 0 <= q < BUCKET_SIZE ==> Slot(k, q) in t
  {
    CellsOfPrefix(t, k, p, BUCKET_SIZE);
    BucketLoaded(h, d, k, CellsOf(t, k, BUCKET_SIZE), |CellsOf(t, k, p)|, true)
  }

  lemma BucketUpToNext(h: Hashes, d: Book, t: Table, k: int, p: nat)
    requires p < BUCKET_SIZE && forall q :: 0 <= q < BUCKET_SIZE ==> Slot(k, q) in t
    ensures t[Slot(k, p)] == NONE ==> BucketUpTo(h, d, t, k, p + 1) == BucketUpTo(h, d, t, k, p)
    ensures t[Slot(k, p)] != NONE ==>
      BucketUpTo(h, d, t, k, p + 1) == WithCell(h, BucketUpTo(h, d, t, k, p), k, t[Slot(k, p)], true)
  {
    CellsOfPrefix(t, k, p, BUCKET_SIZE);
    CellsOfPrefix(t, k, p + 1, BUCKET_SIZE);
    var cells, n := CellsOf(t, k, BUCKET_SIZE), |CellsOf(t, k, p)|;
    if t[Slot(k, p)] != NONE {
      assert cells[n] == CellsOf(t, k, p + 1)[n] == t[Slot(k, p)];
    }
  }

  /** The indexes found in the first `p` cells of a bucket fill these cells. */
  ghost predicate BucketBack(h: Hashes, c: Book, d: Book, t: Table, k: int, p: int)
    requires forall q :: 0 <= q < BUCKET_SIZE ==> Slot(k, q) in t
  {
    0 <= p <= BUCKET_SIZE && Filled(c, BucketUpTo(h, d, t, k, p), UpTo(t, k, p))
  }

  lemma BucketNext(h: Hashes, c: Book, d: Book, t: Table, k: int, p: int)
    requires Fits(h, c, t) && p < BUCKET_SIZE && forall q :: 0 <= q < BUCKET_SIZE ==> Slot(k, q) in t
    requires BucketBack(h, c, d, t, k, p)
    ensures BucketBack(h, c, d, t, k, p + 1)
  {
    var e := BucketUpTo(h, d, t, k, p);
    BucketUpToNext(h, d, t, k, p);
    if t[Slot(k, p)] != NONE {
      CellFills(h, c, e, t, k, p);
    } else {
      UpToNext(t, k, p);
    }
  }

  lemma BucketStart(h: Hashes, c: Book, d: Book, t: Table, k: int)
    requires forall q :: 0 <= q < BUCKET_SIZE ==> Slot(k, q) in t
    requires Filled(c, d, UpTo(t, k, 0))
    ensures BucketBack(h, c, d, t, k, 0)
  {
    assert BucketUpTo(h, d, t, k, 0) == d;
  }

  lemma BucketFills(h: Hashes, c: Book, d: Book, t: Table, k: int)
    requires Fits(h, c, t) && forall q :: 0 <= q < BUCKET_SIZE ==> Slot(k, q) in t
    requires Filled(c, d, UpTo(t, k, 0))
    ensures BucketBack(h, c, d, t, k, BUCKET_SIZE)
  {
    hide *;
    BucketStart(h, c, d, t, k);
    var p := (i: int) => BucketBack(h, c, d, t, k, i);
    forall i | 0 <= i < BUCKET_SIZE && p(i) ensures p(i + 1) {
      BucketNext(h, c, d, t, k, i);
    }
    Climb(p, 0, BUCKET_SIZE);
  }

  lemma WholeBucketFills(h: Hashes, c: Book, d: Book, t: Table, k: nat, cells: seq<int>)
    requires Fits(h, c, t) && Filled(c, d, UpTo(t, k, 0)) && k < NEW_BUCKET_COUNT
    requires forall q :: 0 <= q < BUCKET_SIZE ==> Slot(k, q) in t
    requires cells == CellsOf(t, k, BUCKET_SIZE)
    ensures Filled(c, BucketLoaded(h, d, k, cells, |cells|, true), UpTo(t, k + 1, 0))
  {
    BucketFills(h, c, d, t, k);
    UpToNextBucket(t, NEW_BUCKET_COUNT, k);
    assert BucketUpTo(h, d, t, k, BUCKET_SIZE) == BucketLoaded(h, d, k, cells, |cells|, true);
  }

  lemma {:induction false} BucketsFill(h: Hashes, c: Book, t: Table, buckets: seq<seq<int>>, n: nat)
    requires Fits(h, c, t) && Filled(c, c, UpTo(t, 0, 0)) && n <= |buckets| <= NEW_BUCKET_COUNT
    requires forall s: Slot :: 0 <= s.bucket < NEW_BUCKET_COUNT && 0 <= s.pos < BUCKET_SIZE ==> s in t
    requires forall k :: 0 <= k < |buckets| ==> buckets[k] == CellsOf(t, k, BUCKET_SIZE)
    ensures Filled(c, BucketsLoaded(h, c, buckets, n, true), UpTo(t, n, 0))
    decreases n
  {
    hide Filled;
    hide Fits;
    hide CellsOf;
    hide UpTo;
    hide BucketLoaded;
    if n != 0 {
      BucketsFill(h, c, t, buckets, n - 1);
      var d := BucketsLoaded(h, c, buckets, n - 1, true);
      WholeBucketFills(h, c, d, t, n - 1, buckets[n - 1]);
      assert BucketsLoaded(h, c, buckets, n, true) ==
             BucketLoaded(h, d, n - 1, buckets[n - 1], |buckets[n - 1]|, true);
    }
  }

  // ----- what is written of a manager

  /** `records` are those of the entries of `b`, in the order of `w`. */
  ghost predicate Records(b: Book, w: Listing, records: seq<Record>) {
    && Lists(b, w) && |records| == |w.ids|
    && forall i :: 0 <= i < |w.ids| ==> records[i] == RecordOf(b.info[w.ids[i]])
  }

  lemma WrittenRecords(b: Book, w: Listing)
    requires Writable(b) && Lists(b, w) && w.ids == Order(b)
    ensures Records(b, w, Serialized(b).records)
  {
    hide Lists;
    hide NewOf;
    hide TriedOf;
    hide Ascending;
    hide Indexes;
    hide CellsUpTo;
    hide Writable;
  }

  lemma RecordsDistinct(h: Hashes, b: Book, w: Listing, records: seq<Record>)
    requires Records(b, w, records) && AddrIndexed(b) && TriedPlaced(h, b)
    ensures Distinct(h, b.key, records, b.nNew)
  {
    forall i, j | 0 <= i < j < |records|
      ensures records[i].service.addr != records[j].service.addr
      ensures b.nNew <= i ==> h.TriedSlot(b.key, records[i].service) != h.TriedSlot(b.key, records[j].service)
    {
      var x, y := w.ids[i], w.ids[j];
      assert w.rank[x] == i && w.rank[y] == j;
      assert b.addr[b.info[x].service.addr] == x && b.addr[b.info[y].service.addr] == y;
    }
  }

  /** Entries of the "new" table are written as their place in the whole order. */
  lemma IndexIsRank(b: Book, w: Listing, x: int)
    requires Lists(b, w) && w.ids == Order(b) && x in b.info && !b.info[x].inTried
    requires |NewOf(b.info, Ascending(b.info.Keys))| == b.nNew
    ensures x in Indexes(b.info, Ascending(b.info.Keys))
    ensures Indexes(b.info, Ascending(b.info.Keys))[x] == w.rank[x]
  {
    var ids := Ascending(b.info.Keys);
    var i := w.rank[x];
    assert i < b.nNew;
    assert NewOf(b.info, ids)[i] == w.ids[i] == x;
    IndexesFact(b.info, ids, i);
    assert x in b.info.Keys;
  }

  lemma {:induction false} WrittenCells(b: Book, w: Listing, index: map<int, int>, k: int, p: nat)
    requires Lists(b, w) && 0 <= k < NEW_BUCKET_COUNT && p <= BUCKET_SIZE && IsGrid(b.news, NEW_BUCKET_COUNT)
    requires forall s :: s in b.news && b.news[s] != NONE ==>
      b.news[s] in w.rank && b.news[s] in index && index[b.news[s]] == w.rank[b.news[s]]
    ensures CellsUpTo(b.news, index, k, p) == CellsOf(Renamed(b.news, w.rank), k, p)
  {
    if p != 0 {
      WrittenCells(b, w, index, k, p - 1);
      var s := Slot(k, p - 1);
      assert s in b.news;
    }
  }

  lemma RenamedSlots(b: Book, w: Listing, i: int)
    requires Lists(b, w) && 0 <= i < |w.ids|
    requires forall s :: s in b.news && b.news[s] != NONE ==> b.news[s] in b.info
    ensures SlotsOf(Renamed(b.news, w.rank), i) == SlotsOf(b.news, w.ids[i])
  {
    var t, x := Renamed(b.news, w.rank), w.ids[i];
    forall s | s in b.news ensures t[s] == i <==> b.news[s] == x {
      if b.news[s] in w.rank {
        assert w.ids[w.rank[b.news[s]]] == b.news[s];
      }
    }
  }

  /** `c` has the entries of `b`, as far as they are written, under their places in `w`. */
  ghost predicate Named(b: Book, w: Listing, c: Book) {
    && c.key == b.key && c.nNew == b.nNew && c.nTried == b.nTried && c.idCount == |w.ids|
    && (forall i :: i in c.info <==> 0 <= i < |w.ids|)
    && (forall i :: 0 <= i < |w.ids| ==> w.ids[i] in b.info && SameEntry(b.info[w.ids[i]], c.info[i], i))
  }

  /** The written fields and the mark are the same, and the place in the random order is `i`. */
  predicate SameEntry(e: Info, f: Info, i: int) {
    RecordOf(f) == RecordOf(e) && f.inTried == e.inTried && f.randomPos == i
  }

  /** The entries read are those written, with no cells of the "new" table yet. */
  ghost predicate EntriesBack(b: Book, w: Listing, c: Book) {
    && Named(b, w, c) && AddrIndexed(c)
    && (forall i :: i in c.info ==> c.info[i].refCount == 0)
    && (forall s :: s in c.news <==> s in b.news) && (forall s :: s in c.news ==> c.news[s] == NONE)
    && c.random == seq(|w.ids|, i => i)
    && c.tried == Renamed(b.tried, w.rank)
  }

  lemma RenamedCell(h: Hashes, b: Book, w: Listing, c: Book, s: Slot)
    requires Lists(b, w) && Named(b, w, c) && NewPlaced(h, b)
    requires s in b.news && b.news[s] in w.rank
    ensures var i := w.rank[b.news[s]];
      0 <= i < c.nNew && i in c.info && s.pos == h.Position(c.key, true, s.bucket, c.info[i].service)
  {
    var x := b.news[s];
    assert x != NONE;
    assert x in b.info && !b.info[x].inTried;
    assert SameEntry(b.info[x], c.info[w.rank[x]], w.rank[x]);
  }

  lemma RenamedFits(h: Hashes, b: Book, w: Listing, c: Book)
    requires Lists(b, w) && Named(b, w, c) && NewPlaced(h, b) && RefCounted(b, {})
    requires IsGrid(b.news, NEW_BUCKET_COUNT)
    ensures Fits(h, c, Renamed(b.news, w.rank))
  {
    var t := Renamed(b.news, w.rank);
    forall s | s in t && t[s] != NONE
      ensures 0 <= t[s] < c.nNew && t[s] in c.info
      ensures s.pos == h.Position(c.key, true, s.bucket, c.info[t[s]].service)
    {
      RenamedCell(h, b, w, c, s);
    }
    forall i | i in c.info ensures |SlotsOf(t, i)| <= NEW_BUCKETS_PER_ADDRESS {
      RenamedSlots(b, w, i);
      var x := w.ids[i];
      assert x in b.info;
    }
  }

  lemma NothingFilled(b: Book, w: Listing, c: Book)
    requires IsGrid(b.news, NEW_BUCKET_COUNT) && NONE !in c.info
    requires forall i :: i in c.info ==> c.info[i].refCount == 0
    requires forall s :: s in c.news <==> s in b.news
    requires forall s :: s in c.news ==> c.news[s] == NONE
    ensures Filled(c, c, UpTo(Renamed(b.news, w.rank), 0, 0))
  {
    var t := UpTo(Renamed(b.news, w.rank), 0, 0);
    assert t == c.news;
    forall i | i in c.info ensures c.info[i].refCount == |SlotsOf(t, i)| {
      assert SlotsOf(t, i) == {};
    }
  }

  lemma AllFilled(t: Table)
    requires IsGrid(t, NEW_BUCKET_COUNT)
    ensures UpTo(t, NEW_BUCKET_COUNT, 0) == t
  {
  }

  /** `d` is `b` with every id replaced by its place in `w`: the same entries as far as they are written,
      the same reference counts, the same two tables. */
  ghost predicate SameUpToIds(b: Book, w: Listing, d: Book) {
    && Lists(b, w) && Named(b, w, d)
    && (forall i :: 0 <= i < |w.ids| ==> d.info[i].refCount == b.info[w.ids[i]].refCount)
    && d.news == Renamed(b.news, w.rank)
    && d.tried == Renamed(b.tried, w.rank)
    && d.random == seq(|w.ids|, i => i)
  }

  lemma FilledNamed(b: Book, w: Listing, c: Book, d: Book, t: Table)
    requires Named(b, w, c) && AddrIndexed(c) && Filled(c, d, t)
    ensures Named(b, w, d) && AddrIndexed(d)
  {
    assert d.addr == c.addr;
    forall i | i in d.info ensures d.info[i].service == c.info[i].service {}
    forall a | a in d.addr ensures d.addr[a] in d.info && d.info[d.addr[a]].service.addr == a {
      var i := c.addr[a];
      assert i in c.info;
    }
  }

  lemma FilledIsSame(b: Book, w: Listing, c: Book, d: Book)
    requires Lists(b, w) && EntriesBack(b, w, c) && RefCounted(b, {})
    requires forall s :: s in b.news && b.news[s] != NONE ==> b.news[s] in b.info
    requires Filled(c, d, Renamed(b.news, w.rank))
    ensures SameUpToIds(b, w, d) && AddrIndexed(d)
  {
    FilledNamed(b, w, c, d, Renamed(b.news, w.rank));
    hide AddrIndexed;
    forall i | 0 <= i < |w.ids| ensures d.info[i].refCount == b.info[w.ids[i]].refCount {
      RenamedSlots(b, w, i);
      var x := w.ids[i];
      assert x in b.info;
    }
  }

  // ----- the result is a manager again

  lemma SameRandom(b: Book, w: Listing, d: Book)
    requires Named(b, w, d) && d.random == seq(|w.ids|, i => i)
    ensures IdsInRange(d) && RandomIndexed(d)
  {
    forall i | i in d.info ensures 0 <= d.info[i].randomPos < |d.random| && d.random[d.info[i].randomPos] == i {
      assert SameEntry(b.info[w.ids[i]], d.info[i], i);
    }
    forall k | 0 <= k < |d.random| ensures d.random[k] in d.info && d.info[d.random[k]].randomPos == k {
      assert d.random[k] == k;
      assert SameEntry(b.info[w.ids[k]], d.info[k], k);
    }
  }

  lemma SameNewPlaced(h: Hashes, b: Book, w: Listing, d: Book)
    requires SameUpToIds(b, w, d) && NewPlaced(h, b)
    ensures NewPlaced(h, d)
  {
    forall s | s in d.news && d.news[s] != NONE
      ensures d.news[s] in d.info && !d.info[d.news[s]].inTried
      ensures s.pos == h.Position(d.key, true, s.bucket, d.info[d.news[s]].service)
    {
      RenamedCell(h, b, w, d, s);
      var x := b.news[s];
      assert SameEntry(b.info[x], d.info[w.rank[x]], w.rank[x]);
    }
  }

  lemma SameTriedPlaced(h: Hashes, b: Book, w: Listing, d: Book)
    requires SameUpToIds(b, w, d) && TriedPlaced(h, b)
    ensures TriedPlaced(h, d)
  {
    forall s | s in d.tried && d.tried[s] != NONE
      ensures d.tried[s] in d.info && d.info[d.tried[s]].inTried
      ensures s == h.TriedSlot(d.key, d.info[d.tried[s]].service)
    {
      var x := b.tried[s];
      assert x in b.info;
      assert SameEntry(b.info[x], d.info[w.rank[x]], w.rank[x]);
    }
    forall i | i in d.info && d.info[i].inTried
      ensures h.TriedSlot(d.key, d.info[i].service) in d.tried
      ensures d.tried[h.TriedSlot(d.key, d.info[i].service)] == i
    {
      var x := w.ids[i];
      assert SameEntry(b.info[x], d.info[i], i);
      assert b.tried[h.TriedSlot(b.key, b.info[x].service)] == x;
    }
  }

  lemma SameRefCounted(h: Hashes, b: Book, w: Listing, d: Book)
    requires SameUpToIds(b, w, d) && RefCounted(b, {}) && NewPlaced(h, b)
    ensures RefCounted(d, {})
  {
    forall i | i in d.info
      ensures d.info[i].refCount == |SlotsOf(d.news, i)| && d.info[i].refCount <= NEW_BUCKETS_PER_ADDRESS
      ensures if d.info[i].inTried then d.info[i].refCount == 0 else 1 <= d.info[i].refCount
    {
      RenamedSlots(b, w, i);
      var x := w.ids[i];
      assert x in b.info && SameEntry(b.info[x], d.info[i], i);
    }
  }

  lemma {:induction false} RangeSize(s: set<int>, m: int, n: int)
    requires m <= n && forall i :: i in s <==> m <= i < n
    ensures |s| == n - m
    decreases n - m
  {
    if m == n {
      SameIds(s, {});
    } else {
      assert n - 1 in s;
      RangeSize(s - {n - 1}, m, n - 1);
    }
  }

  lemma SameMark(b: Book, w: Listing, d: Book, i: int)
    requires Lists(b, w) && Named(b, w, d)
    ensures i in TriedIds(d) <==> b.nNew <= i < |w.ids|
    ensures i in NewIds(d, {}) <==> 0 <= i < b.nNew
  {
    if 0 <= i < |w.ids| {
      assert SameEntry(b.info[w.ids[i]], d.info[i], i);
    }
  }

  lemma SameCounted(b: Book, w: Listing, d: Book)
    requires Lists(b, w) && Named(b, w, d)
    ensures Counted(d, {}, 0)
  {
    forall i ensures i in TriedIds(d) <==> b.nNew <= i < |w.ids| { SameMark(b, w, d, i); }
    forall i ensures i in NewIds(d, {}) <==> 0 <= i < b.nNew { SameMark(b, w, d, i); }
    assert 0 <= b.nNew <= |w.ids| && |w.ids| == b.nNew + b.nTried && d.nNew == b.nNew && d.nTried == b.nTried;
    hide Lists;
    hide Named;
    hide TriedIds;
    hide NewIds;
    RangeSize(TriedIds(d), b.nNew, |w.ids|);
    RangeSize(NewIds(d, {}), 0, b.nNew);
  }

  lemma SameGrids(b: Book, w: Listing, d: Book)
    requires SameUpToIds(b, w, d)
    requires IsGrid(b.news, NEW_BUCKET_COUNT) && IsGrid(b.tried, TRIED_BUCKET_COUNT)
    ensures IsGrid(d.news, NEW_BUCKET_COUNT) && IsGrid(d.tried, TRIED_BUCKET_COUNT)
  {
    hide Lists;
    hide Named;
  }

  lemma SameInv(h: Hashes, b: Book, w: Listing, d: Book)
    requires Inv(h, b) && SameUpToIds(b, w, d) && AddrIndexed(d)
    ensures Inv(h, d)
  {
    hide IdsInRange;
    hide AddrIndexed;
    hide RandomIndexed;
    hide NewPlaced;
    hide TriedPlaced;
    hide RefCounted;
    hide Counted;
    hide IsGrid;
    hide Lists;
    hide Named;
    hide Renamed;
    SameRandom(b, w, d);
    SameNewPlaced(h, b, w, d);
    SameTriedPlaced(h, b, w, d);
    SameRefCounted(h, b, w, d);
    SameCounted(b, w, d);
    SameGrids(b, w, d);
  }

  /** Nothing is pruned when every entry is in a table. */
  lemma {:induction false} PrunedNothing(d: Book, ids: seq<int>)
    requires RandomIndexed(d) && RefCounted(d, {})
    ensures Pruned(d, ids) == d
  {
    if ids != [] {
      PrunedNothing(d, ids[..|ids| - 1]);
    }
  }

  // ----- all of it put together

  lemma HeaderEntered(s: Saved, m: int)
    ensures var b := Header(s);
      && b.key == s.key && Entered(b, b, s.records, m, 0)
      && IsGrid(b.tried, TRIED_BUCKET_COUNT) && (forall s :: s in b.tried ==> b.tried[s] == NONE)
      && IsGrid(b.news, NEW_BUCKET_COUNT) && (forall s :: s in b.news ==> b.news[s] == NONE)
  {
  }

  /** Between the two kinds of entries: `nIdCount` is set, no "tried" cell is taken. */
  lemma TriedStarts(h: Hashes, b: Book, c: Book, records: seq<Record>, m: nat)
    requires Entered(b, c, records, m, m) && IsGrid(b.tried, TRIED_BUCKET_COUNT)
    requires forall s :: s in b.tried ==> b.tried[s] == NONE
    ensures TriedBack(h, c.(idCount := m), records, m, m)
  {
    var c0 := c.(idCount := m);
    assert TriedLoaded(h, c0, records, m, m) == c0;
    assert Holds(c0, records, m, m) && AddrIndexed(c0) by {
      forall a | a in c0.addr ensures c0.addr[a] in c0.info && c0.info[c0.addr[a]].service.addr == a {
        var i := c.addr[a];
        assert i in c.info;
      }
    }
    assert Seats(h, c0.key, c0.tried, records, m, m);
  }

  lemma TakenCell(h: Hashes, b: Book, w: Listing, records: seq<Record>, t: Table, s: Slot)
    requires Records(b, w, records) && TriedPlaced(h, b)
    requires Seats(h, b.key, t, records, b.nNew, |records|)
    requires s in t && t[s] != NONE
    ensures s in b.tried && b.tried[s] == w.ids[t[s]]
  {
    var i := t[s];
    var y := w.ids[i];
    assert y in b.info && b.info[y].inTried && records[i] == RecordOf(b.info[y]);
  }

  lemma TriedCellBack(h: Hashes, b: Book, w: Listing, records: seq<Record>, t: Table, s: Slot)
    requires Records(b, w, records) && TriedPlaced(h, b) && IsGrid(b.tried, TRIED_BUCKET_COUNT)
    requires Seats(h, b.key, t, records, b.nNew, |records|) && s in b.tried
    ensures s in t && t[s] == Renamed(b.tried, w.rank)[s]
  {
    var x := b.tried[s];
    if x != NONE {
      assert x in b.info && b.info[x].inTried;
      var i := w.rank[x];
      assert w.ids[i] == x && records[i] == RecordOf(b.info[x]);
    } else {
      assert s in t;
      if t[s] != NONE {
        TakenCell(h, b, w, records, t, s);
        assert false;
      }
    }
  }

  lemma TriedTableBack(h: Hashes, b: Book, w: Listing, records: seq<Record>, t: Table)
    requires Records(b, w, records) && TriedPlaced(h, b) && IsGrid(b.tried, TRIED_BUCKET_COUNT)
    requires Seats(h, b.key, t, records, b.nNew, |records|)
    ensures t == Renamed(b.tried, w.rank)
  {
    hide Records;
    hide TriedPlaced;
    forall s | s in b.tried ensures s in t && t[s] == Renamed(b.tried, w.rank)[s] {
      TriedCellBack(h, b, w, records, t, s);
    }
    assert IsGrid(t, TRIED_BUCKET_COUNT);
  }

  lemma HoldsNamed(b: Book, w: Listing, records: seq<Record>, c: Book)
    requires Records(b, w, records) && Holds(c, records, b.nNew, |records|)
    requires c.key == b.key && c.nNew == b.nNew && c.nTried == b.nTried && c.idCount == |w.ids|
    ensures Named(b, w, c)
    ensures forall i :: i in c.info ==> c.info[i].refCount == 0
    ensures c.random == seq(|w.ids|, i => i)
  {
    forall i | 0 <= i < |w.ids| ensures SameEntry(b.info[w.ids[i]], c.info[i], i) && c.info[i].refCount == 0 {
      assert c.info[i] == Entry(records, b.nNew, i);
    }
  }

  lemma SeatedIsBack(h: Hashes, b: Book, w: Listing, records: seq<Record>, c0: Book, c: Book)
    requires Records(b, w, records) && TriedPlaced(h, b)
    requires IsGrid(b.tried, TRIED_BUCKET_COUNT) && IsGrid(b.news, NEW_BUCKET_COUNT)
    requires Seated(h, c0, c, records, b.nNew, |records|)
    requires c0.key == b.key && c0.nNew == b.nNew && c0.nTried == b.nTried
    requires IsGrid(c0.news, NEW_BUCKET_COUNT) && forall s :: s in c0.news ==> c0.news[s] == NONE
    ensures EntriesBack(b, w, c)
  {
    hide Holds;
    hide Seats;
    hide Named;
    hide AddrIndexed;
    hide Renamed;
    hide TriedPlaced;
    hide Lists;
    TriedTableBack(h, b, w, records, c.tried);
    HoldsNamed(b, w, records, c);
  }

  lemma EnteredKeeps(b: Book, c: Book, records: seq<Record>, m: int, n: int)
    requires Entered(b, c, records, m, n)
    ensures c.key == b.key && c.nNew == b.nNew && c.nTried == b.nTried && c.news == b.news && c.tried == b.tried
  {
  }

  /** The manager once the entries of the "new" table are read. */
  function AfterNew(h: Hashes, s: Saved): Book
    requires 0 <= s.nNew <= |s.records|
  {
    var b := Header(s);
    NewLoaded(h, b, s.records, s.nNew, true).(idCount := s.nNew)
  }

  lemma NewComeBack(h: Hashes, s: Saved)
    requires 0 <= s.nNew <= |s.records| && Distinct(h, s.key, s.records, s.nNew)
    ensures var c := AfterNew(h, s);
      && TriedBack(h, c, s.records, s.nNew, s.nNew)
      && c.key == s.key && c.nNew == s.nNew && c.nTried == s.nTried
      && IsGrid(c.news, NEW_BUCKET_COUNT) && (forall s :: s in c.news ==> c.news[s] == NONE)
  {
    hide Distinct;
    hide IsGrid;
    hide NewLoaded;
    hide TriedBack;
    hide Entered;
    hide EmptyBook;
    var m := s.nNew;
    var b := Header(s);
    var c := NewLoaded(h, b, s.records, m, true);
    HeaderEntered(s, m);
    NewCome(h, b, s.key, s.records, m, m);
    EnteredKeeps(b, c, s.records, m, m);
    TriedStarts(h, b, c, s.records, m);
  }

  /** Reading the entries back. */
  lemma EntriesComeBack(h: Hashes, b: Book, w: Listing, s: Saved)
    requires Records(b, w, s.records) && AddrIndexed(b) && TriedPlaced(h, b)
    requires IsGrid(b.tried, TRIED_BUCKET_COUNT) && IsGrid(b.news, NEW_BUCKET_COUNT)
    requires Readable(s) && UsableTable(s)
    requires s.key == b.key && s.nNew == b.nNew && s.nTried == b.nTried && 0 <= b.nTried
    ensures EntriesBack(b, w, EntriesLoaded(h, s))
  {
    hide Distinct;
    hide Records;
    hide AddrIndexed;
    hide TriedPlaced;
    hide IsGrid;
    hide NewLoaded;
    hide TriedLoaded;
    hide Seated;
    hide EmptyBook;
    hide EntriesBack;
    var m, n := b.nNew, |s.records|;
    RecordsSize(b, w, s.records);
    RecordsDistinct(h, b, w, s.records);
    NewComeBack(h, s);
    TriedCome(h, AfterNew(h, s), s.records, m, n);
    SeatedIsBack(h, b, w, s.records, AfterNew(h, s), TriedLoaded(h, AfterNew(h, s), s.records, m, n));
  }

  lemma RecordsSize(b: Book, w: Listing, records: seq<Record>)
    requires Records(b, w, records)
    ensures 0 <= b.nNew <= |records| && |records| == b.nNew + b.nTried
  {
  }

  /** What is written of a bucket: the places of its entries. */
  ghost predicate BucketWritten(b: Book, w: Listing, k: int)
    requires Writable(b) && 0 <= k < NEW_BUCKET_COUNT
  {
    Serialized(b).buckets[k] == CellsOf(Renamed(b.news, w.rank), k, BUCKET_SIZE)
  }

  lemma WrittenBuckets(h: Hashes, b: Book, w: Listing, k: int)
    requires Writable(b) && 0 <= k < NEW_BUCKET_COUNT && Inv(h, b) && Lists(b, w) && w.ids == Order(b)
    ensures BucketWritten(b, w, k)
  {
    hide Ascending;
    hide NewOf;
    hide TriedOf;
    hide Indexes;
    hide CellsUpTo;
    hide CellsOf;
    hide Renamed;
    OrderSizes(h, b);
    var index := Indexes(b.info, Ascending(b.info.Keys));
    forall s | s in b.news && b.news[s] != NONE
      ensures b.news[s] in w.rank && b.news[s] in index && index[b.news[s]] == w.rank[b.news[s]]
    {
      var x := b.news[s];
      assert x in b.info && !b.info[x].inTried;
      IndexIsRank(b, w, x);
    }
    WrittenCells(b, w, index, k, BUCKET_SIZE);
  }

  // ----- the counts fit the tables, so what was written is never refused

  /** Cells numbered bucket by bucket. */
  function Number(s: Slot): int {
    s.bucket * BUCKET_SIZE + s.pos
  }

  lemma NumberInjective(s: Slot, t: Slot)
    requires 0 <= s.pos < BUCKET_SIZE && 0 <= t.pos < BUCKET_SIZE && Number(s) == Number(t)
    ensures s == t
  {
  }

  lemma TriedFits(h: Hashes, b: Book)
    requires IsGrid(b.tried, TRIED_BUCKET_COUNT) && TriedPlaced(h, b)
    ensures |TriedIds(b)| <= TRIED_BUCKET_COUNT * BUCKET_SIZE
  {
    var f := map x | x in b.info :: Number(h.TriedSlot(b.key, b.info[x].service));
    forall x, y | x in TriedIds(b) && y in TriedIds(b) && f[x] == f[y] ensures x == y {
      var s, t := h.TriedSlot(b.key, b.info[x].service), h.TriedSlot(b.key, b.info[y].service);
      assert s in b.tried && t in b.tried;
      NumberInjective(s, t);
    }
    forall x | x in TriedIds(b) ensures 0 <= f[x] < TRIED_BUCKET_COUNT * BUCKET_SIZE {
      assert h.TriedSlot(b.key, b.info[x].service) in b.tried;
    }
    Pigeonhole(TriedIds(b), f, TRIED_BUCKET_COUNT * BUCKET_SIZE);
  }

  /** Some cell of the "new" table that holds the entry. */
  ghost function SomeCell(b: Book, x: int): Slot
    requires RefCounted(b, {}) && x in b.info && !b.info[x].inTried
    ensures SomeCell(b, x) in b.news && b.news[SomeCell(b, x)] == x
  {
    var s :| s in SlotsOf(b.news, x);
    s
  }

  lemma NewFits(b: Book)
    requires IsGrid(b.news, NEW_BUCKET_COUNT) && RefCounted(b, {})
    ensures |NewIds(b, {})| <= NEW_BUCKET_COUNT * BUCKET_SIZE
  {
    var f := map x | x in b.info && !b.info[x].inTried :: Number(SomeCell(b, x));
    forall x, y | x in NewIds(b, {}) && y in NewIds(b, {}) && f[x] == f[y] ensures x == y {
      NumberInjective(SomeCell(b, x), SomeCell(b, y));
    }
    Pigeonhole(NewIds(b, {}), f, NEW_BUCKET_COUNT * BUCKET_SIZE);
  }

  lemma InvFits(h: Hashes, b: Book)
    requires Inv(h, b)
    ensures Writable(b) && AddrIndexed(b) && TriedPlaced(h, b) && NewPlaced(h, b) && RefCounted(b, {})
    ensures IsGrid(b.tried, TRIED_BUCKET_COUNT) && IsGrid(b.news, NEW_BUCKET_COUNT)
    ensures b.nNew <= NEW_BUCKET_COUNT * BUCKET_SIZE && 0 <= b.nTried <= TRIED_BUCKET_COUNT * BUCKET_SIZE
  {
    TriedFits(h, b);
    NewFits(b);
  }

  /** The header that is written is taken, and the written "new" table with it. */
  lemma WrittenHeader(h: Hashes, b: Book, w: Listing)
    requires Inv(h, b) && Lists(b, w) && w.ids == Order(b) && Writable(b)
    ensures var s := Serialized(b);
      && Readable(s) && UsableTable(s) && BucketCount(s) == NEW_BUCKET_COUNT
      && s.key == b.key && s.nNew == b.nNew && s.nTried == b.nTried
      && Records(b, w, s.records)
  {
    hide Inv;
    hide Ascending;
    hide NewOf;
    hide TriedOf;
    hide Indexes;
    hide CellsUpTo;
    hide Writable;
    InvFits(h, b);
    WrittenRecords(b, w);
    RecordsSize(b, w, Serialized(b).records);
    hide Lists;
  }

  /** `buckets` is table `t` as it is written. */
  ghost predicate BucketsOf(t: Table, buckets: seq<seq<int>>) {
    |buckets| == NEW_BUCKET_COUNT && forall k :: 0 <= k < NEW_BUCKET_COUNT ==> BucketOf(t, k, buckets[k])
  }

  ghost predicate BucketOf(t: Table, k: int, cells: seq<int>) {
    (forall q :: 0 <= q < BUCKET_SIZE ==> Slot(k, q) in t) && cells == CellsOf(t, k, BUCKET_SIZE)
  }

  lemma WrittenTable(h: Hashes, b: Book, w: Listing)
    requires Inv(h, b) && Lists(b, w) && w.ids == Order(b) && Writable(b)
    ensures BucketsOf(Renamed(b.news, w.rank), Serialized(b).buckets)
  {
    hide Inv;
    hide Lists;
    hide Order;
    hide CellsOf;
    hide CellsUpTo;
    hide Ascending;
    hide NewOf;
    hide TriedOf;
    hide Indexes;
    var t := Renamed(b.news, w.rank);
    forall k | 0 <= k < NEW_BUCKET_COUNT ensures BucketOf(t, k, Serialized(b).buckets[k]) {
      WrittenBuckets(h, b, w, k);
    }
  }

  lemma TablesComeBack(h: Hashes, b: Book, w: Listing, buckets: seq<seq<int>>, c: Book)
    requires Lists(b, w) && NewPlaced(h, b) && RefCounted(b, {}) && IsGrid(b.news, NEW_BUCKET_COUNT)
    requires EntriesBack(b, w, c) && BucketsOf(Renamed(b.news, w.rank), buckets)
    ensures Filled(c, BucketsLoaded(h, c, buckets, NEW_BUCKET_COUNT, true), Renamed(b.news, w.rank))
  {
    hide NewPlaced;
    hide RefCounted;
    hide Fits;
    hide CellsOf;
    hide UpTo;
    hide BucketsLoaded;
    hide Filled;
    hide AddrIndexed;
    hide Lists;
    var t := Renamed(b.news, w.rank);
    RenamedFits(h, b, w, c);
    NothingFilled(b, w, c);
    AllFilled(t);
    BucketsFill(h, c, t, buckets, NEW_BUCKET_COUNT);
  }

  lemma NewPlacedKnown(h: Hashes, b: Book)
    requires NewPlaced(h, b)
    ensures forall s :: s in b.news && b.news[s] != NONE ==> b.news[s] in b.info
  {
  }

  lemma InvRandom(h: Hashes, b: Book)
    requires Inv(h, b)
    ensures RandomIndexed(b) && RefCounted(b, {})
  {
  }

  lemma EntriesKeep(b: Book, w: Listing, c: Book)
    requires EntriesBack(b, w, c)
    ensures c.nTried == b.nTried
  {
  }

  /** What `Serialize` writes of a manager, `Unserialize` reads as the same manager up to the ids. */
  lemma RoundTrip(h: Hashes, b: Book) returns (w: Listing)
    requires Inv(h, b)
    ensures Writable(b)
    ensures var r := Unserialized(h, Serialized(b));
      r.Read? && r.lost == 0 && r.lostUnk == 0 && SameUpToIds(b, w, r.book) && Inv(h, r.book)
  {
    hide Inv;
    hide Lists;
    hide NewPlaced;
    hide TriedPlaced;
    hide RefCounted;
    hide AddrIndexed;
    hide RandomIndexed;
    hide EntriesBack;
    hide Filled;
    hide SameUpToIds;
    hide Serialized;
    hide SizesAllowed;
    hide RecordsThere;
    hide UsableTable;
    hide EntriesLoaded;
    hide BucketsLoaded;
    hide BucketsOf;
    hide BucketCount;
    hide Ascending;
    hide Renamed;
    hide Records;
    hide Order;
    hide Pruned;
    InvFits(h, b);
    OrderLists(h, b);
    w := ListingOf(Order(b));
    WrittenHeader(h, b, w);
    WrittenTable(h, b, w);
    var s := Serialized(b);
    var c := EntriesLoaded(h, s);
    var d := TablesLoaded(h, s);
    EntriesComeBack(h, b, w, s);
    TablesComeBack(h, b, w, s.buckets, c);
    NewPlacedKnown(h, b);
    FilledIsSame(b, w, c, d);
    SameInv(h, b, w, d);
    InvRandom(h, d);
    EntriesKeep(b, w, c);
    PrunedNothing(d, Ascending(d.info.Keys));
  }
}
