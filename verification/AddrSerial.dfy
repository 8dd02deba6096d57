/** Writing an address manager out and reading it back.

Only part of an entry is written, ids are not written at all, and of the tables only the "new" one is,
as indexes into the written entries.  Reading it back must still give the same manager up to the ids.
*/
module AddrSerial {
  import opened AddrBook
  import opened AddrOps

  /** The part of an entry that is written. */
  datatype Record = Record(
    service: Service, services: set<nat>, time: int, source: NetAddr, lastSuccess: int, attempts: int)

  /** The written form, in the order of the fields. `records` holds the "new" entries, then the "tried" ones;
      `buckets` holds for each bucket the indexes of its entries, after their number. */
  datatype Saved = Saved(
    version: nat, keySize: nat, key: nat, nNew: int, nTried: int, uBuckets: int,
    records: seq<Record>, buckets: seq<seq<int>>)

  function RecordOf(e: Info): Record {
    Record(e.service, e.services, e.time, e.source, e.lastSuccess, e.attempts)
  }

  function InfoOf(r: Record): Info {
    Info(r.service, r.services, r.time, r.source, r.lastSuccess, r.attempts, 0, 0, 0, false, -1)
  }

  const BIT30 := 0x4000_0000

  /** Exclusive or with 2^30 on a signed number. */
  function FlipBit30(x: int): int {
    if (x / BIT30) % 2 == 1 then x - BIT30 else x + BIT30
  }

  /** Flipping twice gives the number back; the number of buckets is written far above any that was written before
      bit 30 was flipped. */
  lemma FlippedTwice(x: int)
    ensures FlipBit30(FlipBit30(x)) == x && FlipBit30(NEW_BUCKET_COUNT) == 0x4000_0400
    ensures 0 <= x < BIT30 ==> BIT30 <= FlipBit30(x) == x + BIT30
  {
  }

  // ----- the order in which a map by id is walked

  ghost predicate Ordered(ids: seq<int>) {
    forall i, j :: 0 <= i < j < |ids| ==> ids[i] < ids[j]
  }

  lemma Inhabited(s: set<int>) returns (x: int)
    requires s != {}
    ensures x in s
  {
    if forall y :: y !in s {
      SameIds(s, {});
      assert false;
    }
    x :| x in s;
  }

  lemma {:induction false} MinExists(s: set<int>) returns (m: int)
    requires s != {}
    ensures m in s && forall y :: y in s ==> m <= y
  {
    var x := Inhabited(s);
    var s' := s - {x};
    if s' == {} {
      m := x;
      assert forall y :: y in s ==> y == x || y in s';
    } else {
      m := MinExists(s');
      if x < m {
        m := x;
      }
      assert forall y :: y in s ==> y == x || y in s';
    }
  }

  function Ascending(s: set<int>): (ids: seq<int>)
    ensures Ordered(ids)
    ensures forall x :: x in ids <==> x in s
  {
    if s == {} then [] else
    assert exists m :: m in s && forall y :: y in s ==> m <= y by { var m := MinExists(s); }
    var m :| m in s && forall y :: y in s ==> m <= y;
    var rest := Ascending(s - {m});
    OrderedCons(m, rest, s);
    [m] + rest
  }

  lemma OrderedCons(m: int, rest: seq<int>, s: set<int>)
    requires Ordered(rest) && m in s && (forall y :: y in s ==> m <= y)
    requires forall x :: x in rest <==> x in s - {m}
    ensures Ordered([m] + rest)
    ensures forall x :: x in [m] + rest <==> x in s
  {
    forall i, j | 0 <= i < j < |[m] + rest| ensures ([m] + rest)[i] < ([m] + rest)[j] {
      var y := ([m] + rest)[j];
      assert y == rest[j - 1];
      assert y in s - {m};
    }
    assert forall x :: x in [m] + rest <==> x == m || x in rest;
  }

  /** The ids with references, and the ids in "tried", in the order of the walk. */
  function NewOf(info: map<int, Info>, ids: seq<int>): (r: seq<int>)
    requires forall i :: 0 <= i < |ids| ==> ids[i] in info
    ensures forall i :: 0 <= i < |r| ==> r[i] in ids && r[i] in info && info[r[i]].refCount != 0
  {
    if ids == [] then [] else
    var l := |ids| - 1;
    NewOf(info, ids[..l]) + if info[ids[l]].refCount != 0 then [ids[l]] else []
  }

  function TriedOf(info: map<int, Info>, ids: seq<int>): (r: seq<int>)
    requires forall i :: 0 <= i < |ids| ==> ids[i] in info
    ensures forall i :: 0 <= i < |r| ==> r[i] in ids && r[i] in info && info[r[i]].inTried
  {
    if ids == [] then [] else
    var l := |ids| - 1;
    TriedOf(info, ids[..l]) + if info[ids[l]].inTried then [ids[l]] else []
  }

  /** The index every id is written as. */
  function Indexes(info: map<int, Info>, ids: seq<int>): (r: map<int, int>)
    requires forall i :: 0 <= i < |ids| ==> ids[i] in info
    ensures forall x :: x in r <==> x in ids
  {
    if ids == [] then map[] else
    var l := |ids| - 1;
    assert forall x :: x in ids <==> x in ids[..l] || x == ids[l];
    Indexes(info, ids[..l])[ids[l] := |NewOf(info, ids[..l])|]
  }

  function RecordsOf(info: map<int, Info>, ids: seq<int>): (r: seq<Record>)
    requires forall i :: 0 <= i < |ids| ==> ids[i] in info
  {
    seq(|ids|, i requires 0 <= i < |ids| => RecordOf(info[ids[i]]))
  }

  /** The indexes written for the first `n` cells of a bucket. */
  function CellsUpTo(news: Table, index: map<int, int>, bucket: int, n: nat): seq<int>
    requires forall p :: 0 <= p < n ==>
      Slot(bucket, p) in news && (news[Slot(bucket, p)] == NONE || news[Slot(bucket, p)] in index)
  {
    if n == 0 then [] else
    CellsUpTo(news, index, bucket, n - 1) +
      if news[Slot(bucket, n - 1)] != NONE then [index[news[Slot(bucket, n - 1)]]] else []
  }

  ghost predicate Writable(b: Book) {
    && IsGrid(b.news, NEW_BUCKET_COUNT)
    && forall s :: s in b.news ==> b.news[s] == NONE || b.news[s] in b.info
  }

  /** Every entry in the table has an index. */
  ghost predicate Numbered(news: Table, index: map<int, int>) {
    && IsGrid(news, NEW_BUCKET_COUNT)
    && forall s :: s in news ==> news[s] == NONE || news[s] in index
  }

  lemma IndexesNumber(b: Book)
    requires Writable(b)
    ensures Numbered(b.news, Indexes(b.info, Ascending(b.info.Keys)))
  {
  }

  /** The indexes written for every bucket. */
  function AllCells(news: Table, index: map<int, int>): (buckets: seq<seq<int>>)
    requires Numbered(news, index)
    ensures |buckets| == NEW_BUCKET_COUNT
    ensures forall k :: 0 <= k < NEW_BUCKET_COUNT ==> buckets[k] == CellsUpTo(news, index, k, BUCKET_SIZE)
  {
    seq(NEW_BUCKET_COUNT, k requires 0 <= k < NEW_BUCKET_COUNT => CellsUpTo(news, index, k, BUCKET_SIZE))
  }

  /** `Serialize`. */
  function Serialized(b: Book): (s: Saved)
    requires Writable(b)
    ensures |s.buckets| == NEW_BUCKET_COUNT
  {
    var ids := Ascending(b.info.Keys);
    IndexesNumber(b);
    Saved(1, 32, b.key, b.nNew, b.nTried, FlipBit30(NEW_BUCKET_COUNT),
          RecordsOf(b.info, NewOf(b.info, ids)) + RecordsOf(b.info, TriedOf(b.info, ids)),
          AllCells(b.news, Indexes(b.info, ids)))
  }

  // ----- Unserialize

  /** An entry is appended under the given id. */
  function Appended(b: Book, id: int, e: Info): Book {
    b.(info := b.info[id := e.(randomPos := |b.random|)],
       addr := b.addr[e.service.addr := id],
       random := b.random + [id])
  }

  /** One entry of the "new" table is read. When the written table cannot be used, the entry gets the cell
      its own source points to, if that is free. */
  function WithNew(h: Hashes, b: Book, n: int, r: Record, usable: bool): Book {
    var c := Appended(b, n, InfoOf(r));
    var s := h.NewSlot(b.key, r.service, r.source);
    if !usable && s in c.news && c.news[s] == NONE then Referenced(c, n, s) else c
  }

  function NewLoaded(h: Hashes, b: Book, records: seq<Record>, n: nat, usable: bool): Book
    requires n <= |records|
  {
    if n == 0 then b else WithNew(h, NewLoaded(h, b, records, n - 1, usable), n - 1, records[n - 1], usable)
  }

  /** One entry of the "tried" table is read; it is lost when its cell is taken. */
  function WithTried(h: Hashes, b: Book, r: Record): Book {
    var s := h.TriedSlot(b.key, r.service);
    if s in b.tried && b.tried[s] == NONE then
      Appended(b, b.idCount, InfoOf(r).(inTried := true)).(
        tried := b.tried[s := b.idCount], idCount := b.idCount + 1)
    else
      b.(nTried := b.nTried - 1)
  }

  /** Records `from` to `to`-1 are read as entries of the "tried" table. */
  function TriedLoaded(h: Hashes, b: Book, records: seq<Record>, from: nat, to: nat): Book
    requires from <= to <= |records|
  {
    if to == from then b else WithTried(h, TriedLoaded(h, b, records, from, to - 1), records[to - 1])
  }

  /** One index of a bucket of the "new" table is read. */
  function WithCell(h: Hashes, b: Book, bucket: int, index: int, usable: bool): Book {
    if 0 <= index < b.nNew && index in b.info then
      var s := Slot(bucket, h.Position(b.key, true, bucket, b.info[index].service));
      if usable && s in b.news && b.news[s] == NONE && b.info[index].refCount < NEW_BUCKETS_PER_ADDRESS
      then Referenced(b, index, s) else b
    else b
  }

  function BucketLoaded(h: Hashes, b: Book, bucket: int, cells: seq<int>, n: nat, usable: bool): Book
    requires n <= |cells|
  {
    if n == 0 then b else WithCell(h, BucketLoaded(h, b, bucket, cells, n - 1, usable), bucket, cells[n - 1], usable)
  }

  function BucketsLoaded(h: Hashes, b: Book, buckets: seq<seq<int>>, n: nat, usable: bool): Book
    requires n <= |buckets|
  {
    if n == 0 then b else
    BucketLoaded(h, BucketsLoaded(h, b, buckets, n - 1, usable), n - 1, buckets[n - 1], |buckets[n - 1]|, usable)
  }

  /** Entries that are in no table are dropped. */
  function Pruned(b: Book, ids: seq<int>): (r: Book)
    requires RandomIndexed(b)
    ensures RandomIndexed(r)
  {
    if ids == [] then b else
    var l := |ids| - 1;
    var c := Pruned(b, ids[..l]);
    if ids[l] in c.info && !c.info[ids[l]].inTried && c.info[ids[l]].refCount == 0 then
      DeletedRandom(c, ids[l]);
      Deleted(c, ids[l])
    else c
  }

  lemma DeletedRandom(b: Book, id: int)
    requires RandomIndexed(b) && id in b.info
    ensures RandomIndexed(Deleted(b, id))
  {
    hide Removed;
    var i, j := b.info[id].randomPos, |b.random| - 1;
    assert b.random[i] == id;
    SwappedFacts(b, i, j);
    SwappedRandom(b, i, j);
    RemovedRandom(Swapped(b, i, j), id);
  }

  // ----- whatever is read, the random order stays in step, so that pruning is always possible

  /** The ids given out so far are below `n`, and `vRandom` lists them. */
  ghost predicate InStep(b: Book, n: int) {
    RandomIndexed(b) && forall id :: id in b.info ==> id < n
  }

  lemma AppendedInStep(b: Book, id: int, e: Info)
    requires InStep(b, id)
    ensures InStep(Appended(b, id, e), id + 1)
  {
  }

  lemma WithNewInStep(h: Hashes, b: Book, n: int, r: Record, usable: bool)
    requires InStep(b, n)
    ensures InStep(WithNew(h, b, n, r, usable), n + 1)
  {
    AppendedInStep(b, n, InfoOf(r));
  }

  lemma {:induction false} NewLoadedInStep(h: Hashes, b: Book, records: seq<Record>, n: nat, usable: bool)
    requires n <= |records| && InStep(b, 0)
    ensures InStep(NewLoaded(h, b, records, n, usable), n)
  {
    if n != 0 {
      NewLoadedInStep(h, b, records, n - 1, usable);
      WithNewInStep(h, NewLoaded(h, b, records, n - 1, usable), n - 1, records[n - 1], usable);
    }
  }

  lemma WithTriedInStep(h: Hashes, b: Book, r: Record)
    requires InStep(b, b.idCount)
    ensures InStep(WithTried(h, b, r), WithTried(h, b, r).idCount)
  {
    AppendedInStep(b, b.idCount, InfoOf(r).(inTried := true));
  }

  lemma {:induction false} TriedLoadedInStep(h: Hashes, b: Book, records: seq<Record>, from: nat, to: nat)
    requires from <= to <= |records| && InStep(b, b.idCount)
    ensures var c := TriedLoaded(h, b, records, from, to); InStep(c, c.idCount)
  {
    if to != from {
      TriedLoadedInStep(h, b, records, from, to - 1);
      WithTriedInStep(h, TriedLoaded(h, b, records, from, to - 1), records[to - 1]);
    }
  }

  lemma {:induction false} BucketLoadedInStep(h: Hashes, b: Book, bucket: int, cells: seq<int>, n: nat, usable: bool)
    requires n <= |cells| && RandomIndexed(b)
    ensures RandomIndexed(BucketLoaded(h, b, bucket, cells, n, usable))
  {
    if n != 0 {
      BucketLoadedInStep(h, b, bucket, cells, n - 1, usable);
    }
  }

  lemma {:induction false} BucketsLoadedInStep(h: Hashes, b: Book, buckets: seq<seq<int>>, n: nat, usable: bool)
    requires n <= |buckets| && RandomIndexed(b)
    ensures RandomIndexed(BucketsLoaded(h, b, buckets, n, usable))
  {
    if n != 0 {
      BucketsLoadedInStep(h, b, buckets, n - 1, usable);
      BucketLoadedInStep(h, BucketsLoaded(h, b, buckets, n - 1, usable), n - 1, buckets[n - 1],
                         |buckets[n - 1]|, usable);
    }
  }

  // ----- the whole of Unserialize

  function AtLeast0(x: int): nat {
    if x < 0 then 0 else x
  }

  /** The number of buckets, which is written with bit 30 flipped from version 1 on. */
  function BucketCount(s: Saved): int {
    if s.version != 0 then FlipBit30(s.uBuckets) else s.uBuckets
  }

  /** Whether the written "new" table can be taken as it is. */
  predicate UsableTable(s: Saved) {
    s.version == 1 && BucketCount(s) == NEW_BUCKET_COUNT
  }

  /** Whether reading gets to its end: the sizes are allowed and the stream is long enough. */
  predicate Readable(s: Saved) {
    SizesAllowed(s) && RecordsThere(s) && AtLeast0(BucketCount(s)) <= |s.buckets|
  }

  predicate SizesAllowed(s: Saved) {
    && s.keySize == 32
    && s.nNew <= NEW_BUCKET_COUNT * BUCKET_SIZE && s.nTried <= TRIED_BUCKET_COUNT * BUCKET_SIZE
  }

  predicate RecordsThere(s: Saved) {
    AtLeast0(s.nNew) + AtLeast0(s.nTried) <= |s.records|
  }

  /** The cleared manager once the header is read. */
  function Header(s: Saved): Book {
    EmptyBook(s.key).(nNew := s.nNew, nTried := s.nTried)
  }

  /** The entries read, before the buckets are. */
  function EntriesLoaded(h: Hashes, s: Saved): Book
    requires RecordsThere(s)
  {
    var n := AtLeast0(s.nNew);
    var b := NewLoaded(h, Header(s), s.records, n, UsableTable(s));
    TriedLoaded(h, b.(idCount := s.nNew), s.records, n, n + AtLeast0(s.nTried))
  }

  /** The buckets read as well, before pruning. */
  function TablesLoaded(h: Hashes, s: Saved): Book
    requires Readable(s)
  {
    BucketsLoaded(h, EntriesLoaded(h, s), s.buckets, AtLeast0(BucketCount(s)), UsableTable(s))
  }

  datatype Reading = Refused | Read(book: Book, lost: int, lostUnk: int)

  lemma NewEntriesInStep(h: Hashes, s: Saved)
    requires Readable(s)
    ensures var b := NewLoaded(h, Header(s), s.records, AtLeast0(s.nNew), UsableTable(s));
      InStep(b.(idCount := s.nNew), s.nNew)
  {
    NewLoadedInStep(h, Header(s), s.records, AtLeast0(s.nNew), UsableTable(s));
  }

  /** However the stream was made, what is read can be pruned. */
  lemma LoadedInStep(h: Hashes, s: Saved)
    requires Readable(s)
    ensures RandomIndexed(TablesLoaded(h, s))
  {
    hide NewLoaded;
    hide TriedLoaded;
    hide BucketsLoaded;
    hide RandomIndexed;
    hide Header;
    hide UsableTable;
    NewEntriesInStep(h, s);
    var n := AtLeast0(s.nNew);
    var b := NewLoaded(h, Header(s), s.records, n, UsableTable(s));
    TriedLoadedInStep(h, b.(idCount := s.nNew), s.records, n, n + AtLeast0(s.nTried));
    BucketsLoadedInStep(h, EntriesLoaded(h, s), s.buckets, AtLeast0(BucketCount(s)), UsableTable(s));
  }

  /** `Unserialize`: a refusal stands for the exceptions. */
  function Unserialized(h: Hashes, s: Saved): Reading {
    if !Readable(s) then Refused else
    LoadedInStep(h, s);
    var b := TablesLoaded(h, s);
    var c := Pruned(b, Ascending(b.info.Keys));
    Read(c, s.nTried - EntriesLoaded(h, s).nTried, |b.info| - |c.info|)
  }

  // ----- reading step by step

  lemma AppendedKeeps(b: Book, id: int, e: Info)
    ensures var c := Appended(b, id, e);
      c == b.(info := c.info, addr := c.addr, random := c.random)
  {
  }

  lemma WithNewKeeps(h: Hashes, b: Book, n: int, r: Record, usable: bool)
    ensures var c := WithNew(h, b, n, r, usable);
      c.nNew == b.nNew && c.nTried == b.nTried && n in c.info && forall i :: i in b.info ==> i in c.info
  {
  }

  lemma WithTriedKeeps(h: Hashes, b: Book, r: Record)
    ensures var c := WithTried(h, b, r); c.nNew == b.nNew && forall i :: i in b.info ==> i in c.info
  {
  }

  /** The counter of "tried" entries is only counted down. */
  lemma TriedCounter(h: Hashes, b: Book, n: int, r: Record)
    ensures var c := WithTried(h, b, r);
      WithTried(h, b.(nTried := n), r) == c.(nTried := n + c.nTried - b.nTried)
  {
    hide Hashes.TriedSlot;
    var s := h.TriedSlot(b.key, r.service);
    assert b.(nTried := n).tried == b.tried;
  }

  lemma WithCellKeeps(h: Hashes, b: Book, bucket: int, index: int, usable: bool)
    ensures var c := WithCell(h, b, bucket, index, usable);
      c.nNew == b.nNew && c.nTried == b.nTried && c.info.Keys == b.info.Keys
  {
  }

  lemma PrunedNone(b: Book, ids: seq<int>)
    requires RandomIndexed(b)
    ensures Pruned(b, ids[..0]) == b
  {
  }

  lemma PrunedNext(b: Book, ids: seq<int>, i: nat)
    requires RandomIndexed(b) && i < |ids|
    ensures var c := Pruned(b, ids[..i]);
      if ids[i] in c.info && !c.info[ids[i]].inTried && c.info[ids[i]].refCount == 0
      then CanDelete(c, ids[i]) && Pruned(b, ids[..i + 1]) == Deleted(c, ids[i])
      else Pruned(b, ids[..i + 1]) == c
  {
    assert ids[..i + 1][..i] == ids[..i];
  }

  ghost predicate CanDelete(b: Book, id: int) {
    && id in b.info && 0 <= b.info[id].randomPos < |b.random|
    && forall i :: 0 <= i < |b.random| ==> b.random[i] in b.info
  }

  lemma PlacesGiven(b: Book)
    requires RandomIndexed(b)
    ensures forall id :: id in b.info ==> CanDelete(b, id)
  {
  }

  lemma DeletedSize(b: Book, id: int)
    requires RandomIndexed(b) && id in b.info
    ensures RandomIndexed(Deleted(b, id)) && |Deleted(b, id).info| == |b.info| - 1
  {
    DeletedRandom(b, id);
    var c := Deleted(b, id);
    SameIds(c.info.Keys, b.info.Keys - {id});
    assert |c.info| == |c.info.Keys| && |b.info| == |b.info.Keys|;
  }

  // ----- writing step by step

  lemma ValidWritable(h: Hashes, b: Book)
    requires Inv(h, b)
    ensures Writable(b)
  {
  }

  ghost predicate Known(info: map<int, Info>, ids: seq<int>) {
    forall i :: 0 <= i < |ids| ==> ids[i] in info
  }

  lemma NothingWritten(info: map<int, Info>, ids: seq<int>)
    ensures Known(info, ids[..0]) && NewOf(info, ids[..0]) == [] && TriedOf(info, ids[..0]) == []
    ensures Indexes(info, ids[..0]) == map[] && RecordsOf(info, []) == []
  {
  }

  lemma RecordsNext(info: map<int, Info>, ids: seq<int>, id: int)
    requires Known(info, ids) && id in info
    ensures RecordsOf(info, ids + [id]) == RecordsOf(info, ids) + [RecordOf(info[id])]
  {
  }

  lemma CellsNext(news: Table, index: map<int, int>, bucket: int, n: nat)
    requires Numbered(news, index) && 0 <= bucket < NEW_BUCKET_COUNT && n < BUCKET_SIZE
    ensures CellsUpTo(news, index, bucket, n + 1) ==
      CellsUpTo(news, index, bucket, n) +
      if news[Slot(bucket, n)] != NONE then [index[news[Slot(bucket, n)]]] else []
    ensures CellsUpTo(news, index, bucket, 0) == []
  {
  }

  lemma NewOfNext(info: map<int, Info>, ids: seq<int>, i: nat)
    requires Known(info, ids) && i < |ids|
    ensures var r := NewOf(info, ids[..i]);
      && NewOf(info, ids[..i + 1]) == (if info[ids[i]].refCount != 0 then r + [ids[i]] else r)
      && (info[ids[i]].refCount != 0 ==> |r| < |NewOf(info, ids)|)
  {
    assert ids[..i + 1][..i] == ids[..i];
    NewOfGrows(info, ids, i + 1, |ids|);
    assert ids[..|ids|] == ids;
  }

  lemma {:induction false} NewOfGrows(info: map<int, Info>, ids: seq<int>, i: nat, j: nat)
    requires Known(info, ids) && i <= j <= |ids|
    ensures |NewOf(info, ids[..i])| <= |NewOf(info, ids[..j])|
    decreases j
  {
    if i < j {
      NewOfGrows(info, ids, i, j - 1);
      assert ids[..j][..j - 1] == ids[..j - 1];
    }
  }

  lemma TriedOfNext(info: map<int, Info>, ids: seq<int>, i: nat)
    requires Known(info, ids) && i < |ids|
    ensures var r := TriedOf(info, ids[..i]);
      && TriedOf(info, ids[..i + 1]) == (if info[ids[i]].inTried then r + [ids[i]] else r)
      && (info[ids[i]].inTried ==> |r| < |TriedOf(info, ids)|)
  {
    assert ids[..i + 1][..i] == ids[..i];
    TriedOfGrows(info, ids, i + 1, |ids|);
    assert ids[..|ids|] == ids;
  }

  lemma {:induction false} TriedOfGrows(info: map<int, Info>, ids: seq<int>, i: nat, j: nat)
    requires Known(info, ids) && i <= j <= |ids|
    ensures |TriedOf(info, ids[..i])| <= |TriedOf(info, ids[..j])|
    decreases j
  {
    if i < j {
      TriedOfGrows(info, ids, i, j - 1);
      assert ids[..j][..j - 1] == ids[..j - 1];
    }
  }

  lemma IndexesNext(info: map<int, Info>, ids: seq<int>, i: nat)
    requires Known(info, ids) && i < |ids|
    ensures Indexes(info, ids[..i + 1]) == Indexes(info, ids[..i])[ids[i] := |NewOf(info, ids[..i])|]
  {
    assert ids[..i + 1][..i] == ids[..i];
  }

  // ----- the written order

  lemma {:induction false} NewOfOrdered(info: map<int, Info>, ids: seq<int>)
    requires forall i :: 0 <= i < |ids| ==> ids[i] in info
    requires Ordered(ids)
    ensures Ordered(NewOf(info, ids))
  {
    if ids != [] {
      var l := |ids| - 1;
      var front := NewOf(info, ids[..l]);
      NewOfOrdered(info, ids[..l]);
      forall i | 0 <= i < |front| ensures front[i] < ids[l] {
        var k :| 0 <= k < l && ids[..l][k] == front[i];
      }
    }
  }

  lemma {:induction false} NewOfCovers(info: map<int, Info>, ids: seq<int>, x: int)
    requires forall i :: 0 <= i < |ids| ==> ids[i] in info
    requires x in ids && info[x].refCount != 0
    ensures x in NewOf(info, ids)
  {
    var l := |ids| - 1;
    if x != ids[l] {
      assert x in ids[..l];
      NewOfCovers(info, ids[..l], x);
    }
  }

  /** An entry of the "new" table is written as its place among those entries. */
  lemma {:induction false} IndexesFact(info: map<int, Info>, ids: seq<int>, i: nat)
    requires forall i :: 0 <= i < |ids| ==> ids[i] in info
    requires Ordered(ids)
    requires i < |NewOf(info, ids)|
    ensures Indexes(info, ids)[NewOf(info, ids)[i]] == i
  {
    var l := |ids| - 1;
    var front := NewOf(info, ids[..l]);
    if i < |front| {
      IndexesFact(info, ids[..l], i);
      var k :| 0 <= k < l && ids[..l][k] == front[i];
      assert front[i] < ids[l];
    }
  }

  lemma {:induction false} TriedOfOrdered(info: map<int, Info>, ids: seq<int>)
    requires forall i :: 0 <= i < |ids| ==> ids[i] in info
    requires Ordered(ids)
    ensures Ordered(TriedOf(info, ids))
  {
    if ids != [] {
      var l := |ids| - 1;
      var front := TriedOf(info, ids[..l]);
      TriedOfOrdered(info, ids[..l]);
      forall i | 0 <= i < |front| ensures front[i] < ids[l] {
        var k :| 0 <= k < l && ids[..l][k] == front[i];
      }
    }
  }

  lemma {:induction false} TriedOfCovers(info: map<int, Info>, ids: seq<int>, x: int)
    requires forall i :: 0 <= i < |ids| ==> ids[i] in info
    requires x in ids && info[x].inTried
    ensures x in TriedOf(info, ids)
  {
    var l := |ids| - 1;
    if x != ids[l] {
      assert x in ids[..l];
      TriedOfCovers(info, ids[..l], x);
    }
  }

  lemma {:induction false} OrderedSize(ids: seq<int>, s: set<int>)
    requires Ordered(ids)
    requires forall x :: x in ids <==> x in s
    ensures |ids| == |s|
  {
    if ids == [] {
      SameIds(s, {});
    } else {
      var l := |ids| - 1;
      var x := ids[l];
      assert x in s;
      assert forall y :: y in ids <==> y in ids[..l] || y == x;
      assert x !in ids[..l];
      OrderedSize(ids[..l], s - {x});
    }
  }

  /** The ids in the order their entries are written. */
  function Order(b: Book): seq<int> {
    var ids := Ascending(b.info.Keys);
    NewOf(b.info, ids) + TriedOf(b.info, ids)
  }

  /** The ids in written order, and the place of each id in it. */
  datatype Listing = Listing(ids: seq<int>, rank: map<int, int>)

  /** `w` lists every id once, the `nNew` entries of the "new" table first. */
  ghost predicate Lists(b: Book, w: Listing) {
    && 0 <= b.nNew <= |w.ids| && |w.ids| == b.nNew + b.nTried
    && (forall i :: 0 <= i < |w.ids| ==>
          && w.ids[i] in b.info && (b.info[w.ids[i]].inTried <==> b.nNew <= i)
          && w.ids[i] in w.rank && w.rank[w.ids[i]] == i)
    && (forall x :: x in b.info ==> x in w.rank)
    && (forall x :: x in w.rank ==> 0 <= w.rank[x] < |w.ids| && w.ids[w.rank[x]] == x)
    && NONE !in w.rank
  }

  ghost function ListingOf(ids: seq<int>): Listing
    requires forall i, j :: 0 <= i < j < |ids| ==> ids[i] != ids[j]
  {
    Listing(ids, map i | 0 <= i < |ids| :: ids[i] := i)
  }

  lemma OrderLists(h: Hashes, b: Book)
    requires Inv(h, b)
    ensures forall i, j :: 0 <= i < j < |Order(b)| ==> Order(b)[i] != Order(b)[j]
    ensures Lists(b, ListingOf(Order(b)))
  {
    OrderSizes(h, b);
    OrderParts(b);
    hide Order;
    hide ListingOf;
    hide Lists;
    hide Placed;
    hide AddrIndexed;
    hide RandomIndexed;
    forall x | x in b.info ensures x in ListingOf(Order(b)).rank {
      OrderCovers(b, x);
      RankOf(Order(b), x);
    }
    OrderListing(b, Order(b));
  }

  lemma OrderListing(b: Book, ids: seq<int>)
    requires 0 <= b.nNew <= |ids| && |ids| == b.nNew + b.nTried && IdsInRange(b)
    requires forall i :: 0 <= i < |ids| ==> ids[i] in b.info && (b.info[ids[i]].inTried <==> b.nNew <= i)
    requires forall i, j :: 0 <= i < j < |ids| ==> ids[i] != ids[j]
    requires forall x :: x in b.info ==> x in ListingOf(ids).rank
    ensures Lists(b, ListingOf(ids))
  {
    var w := ListingOf(ids);
    forall x | x in w.rank ensures 0 <= w.rank[x] < |w.ids| && w.ids[w.rank[x]] == x && x in b.info {
      var k :| 0 <= k < |ids| && ids[k] == x;
      RankOf(ids, x);
    }
  }

  lemma RankOf(ids: seq<int>, x: int)
    requires forall i, j :: 0 <= i < j < |ids| ==> ids[i] != ids[j]
    requires x in ids
    ensures var w := ListingOf(ids); x in w.rank && 0 <= w.rank[x] < |ids| && ids[w.rank[x]] == x
  {
    var k :| 0 <= k < |ids| && ids[k] == x;
    assert ids[k] in ListingOf(ids).rank;
  }

  lemma OrderParts(b: Book)
    requires RefCounted(b, {}) && |NewOf(b.info, Ascending(b.info.Keys))| == b.nNew
    ensures var ids := Order(b);
      && (forall i :: 0 <= i < |ids| ==> ids[i] in b.info && (b.info[ids[i]].inTried <==> b.nNew <= i))
      && (forall i, j :: 0 <= i < j < |ids| ==> ids[i] != ids[j])
  {
    var ids := Ascending(b.info.Keys);
    NewOfOrdered(b.info, ids);
    TriedOfOrdered(b.info, ids);
    PartsDiffer(b, NewOf(b.info, ids), TriedOf(b.info, ids));
  }

  lemma OrderCovers(b: Book, x: int)
    requires RefCounted(b, {}) && x in b.info
    ensures x in Order(b)
  {
    var ids := Ascending(b.info.Keys);
    assert x in b.info.Keys;
    assert x in ids;
    if b.info[x].inTried {
      TriedOfCovers(b.info, ids, x);
    } else {
      NewOfCovers(b.info, ids, x);
    }
  }

  lemma PartsDiffer(b: Book, n: seq<int>, t: seq<int>)
    requires RefCounted(b, {}) && Ordered(n) && Ordered(t)
    requires forall i :: 0 <= i < |n| ==> n[i] in b.info && b.info[n[i]].refCount != 0
    requires forall i :: 0 <= i < |t| ==> t[i] in b.info && b.info[t[i]].inTried
    ensures forall i :: 0 <= i < |n| ==> !b.info[n[i]].inTried
    ensures forall i, j :: 0 <= i < j < |n + t| ==> (n + t)[i] != (n + t)[j]
  {
    forall i | 0 <= i < |n| ensures !b.info[n[i]].inTried {
      var x := n[i];
      assert x in b.info;
    }
    forall i, j | 0 <= i < j < |n + t| ensures (n + t)[i] != (n + t)[j] {
      if i < |n| <= j {
        assert !b.info[n[i]].inTried && b.info[t[j - |n|]].inTried;
      }
    }
  }

  lemma OrderSizes(h: Hashes, b: Book)
    requires Inv(h, b)
    ensures |NewOf(b.info, Ascending(b.info.Keys))| == b.nNew
    ensures |TriedOf(b.info, Ascending(b.info.Keys))| == b.nTried
  {
    var ids := Ascending(b.info.Keys);
    var n, t := NewOf(b.info, ids), TriedOf(b.info, ids);
    NewOfOrdered(b.info, ids);
    TriedOfOrdered(b.info, ids);
    forall x ensures x in n <==> x in NewIds(b, {}) {
      if x in NewIds(b, {}) { assert x in b.info.Keys; NewOfCovers(b.info, ids, x); }
    }
    OrderedSize(n, NewIds(b, {}));
    forall x ensures x in t <==> x in TriedIds(b) {
      if x in TriedIds(b) { assert x in b.info.Keys; TriedOfCovers(b.info, ids, x); }
    }
    OrderedSize(t, TriedIds(b));
  }
}
