/** Reading a stream whose "new" table cannot be used: which entries get a place, and which are lost. */
module AddrFallback {
  import opened AddrBook
  import opened AddrOps
  import opened AddrSerial
  import opened AddrAnyStream

  /** The first of the first `n` records whose slot this is; `at` gives the slots. */
  function FirstAt(at: seq<Slot>, n: nat, s: Slot): (j: int)
    requires n <= |at|
    ensures j == NONE || (0 <= j < n && at[j] == s)
    ensures j == NONE ==> forall i :: 0 <= i < n ==> at[i] != s
    ensures forall i :: 0 <= i < j ==> at[i] != s
  {
    if n == 0 then NONE else
    var f := FirstAt(at, n - 1, s);
    if f != NONE then f else if at[n - 1] == s then n - 1 else NONE
  }

  /** The cells that the records' own sources point to. */
  function NewSlots(h: Hashes, key: nat, records: seq<Record>): (at: seq<Slot>)
    ensures |at| == |records|
    ensures forall i :: 0 <= i < |at| ==>
      0 <= at[i].bucket < NEW_BUCKET_COUNT && 0 <= at[i].pos < BUCKET_SIZE &&
      at[i] == h.NewSlot(key, records[i].service, records[i].source)
  {
    seq(|records|, i requires 0 <= i < |records| => h.NewSlot(key, records[i].service, records[i].source))
  }

  /** The first records to claim a cell have it, and no others have a reference. */
  ghost predicate FirstCome(b: Book, at: seq<Slot>, n: nat)
    requires n <= |at|
  {
    && (forall s :: s in b.news ==> b.news[s] == FirstAt(at, n, s))
    && (forall i :: 0 <= i < n ==>
          i in b.info && !b.info[i].inTried && b.info[i].refCount == if FirstAt(at, n, at[i]) == i then 1 else 0)
    && forall i :: i in b.info ==> 0 <= i < n
  }

  lemma HeaderFirstCome(s: Saved, at: seq<Slot>)
    ensures FirstCome(Header(s), at, 0) && IsGrid(Header(s).news, NEW_BUCKET_COUNT)
  {
  }

  /** The entry takes its cell if that is free; nothing else changes. */
  lemma WithNewIs(h: Hashes, b: Book, n: int, r: Record)
    ensures var c, s := WithNew(h, b, n, r, false), h.NewSlot(b.key, r.service, r.source);
      var taken := s in b.news && b.news[s] == NONE;
      && c.key == b.key && c.news == (if taken then b.news[s := n] else b.news)
      && n in c.info && c.info[n] == InfoOf(r).(refCount := if taken then 1 else 0, randomPos := |b.random|)
      && (forall i :: i in c.info <==> i in b.info || i == n)
      && forall i :: i in b.info && i != n ==> c.info[i] == b.info[i]
  {
    hide Hashes.NewSlot;
  }

  lemma NextAt(at: seq<Slot>, n: nat, s: Slot)
    requires n < |at|
    ensures FirstAt(at, n + 1, s) ==
      if FirstAt(at, n, s) != NONE then FirstAt(at, n, s) else if at[n] == s then n else NONE
  {
  }

  /** What one more record makes of the cells, and of the references. */
  ghost predicate NextCome(b: Book, c: Book, at: seq<Slot>, n: nat)
    requires n < |at|
  {
    var taken := at[n] in b.news && b.news[at[n]] == NONE;
    && c.news == (if taken then b.news[at[n] := n] else b.news)
    && n in c.info && !c.info[n].inTried && c.info[n].refCount == (if taken then 1 else 0)
    && (forall i :: i in c.info <==> i in b.info || i == n)
    && forall i :: i in b.info && i != n ==> c.info[i] == b.info[i]
  }

  lemma NextFirstCome(b: Book, c: Book, at: seq<Slot>, n: nat)
    requires n < |at| && FirstCome(b, at, n) && NextCome(b, c, at, n) && at[n] in b.news
    ensures FirstCome(c, at, n + 1)
  {
    hide FirstAt;
    assert b.news[at[n]] == FirstAt(at, n, at[n]);
    forall s | s in c.news ensures c.news[s] == FirstAt(at, n + 1, s) {
      NextAt(at, n, s);
    }
    forall i | 0 <= i < n + 1
      ensures i in c.info && !c.info[i].inTried && c.info[i].refCount == if FirstAt(at, n + 1, at[i]) == i then 1 else 0
    {
      NextAt(at, n, at[i]);
    }
  }

  lemma WithNewFirstCome(h: Hashes, b: Book, records: seq<Record>, n: nat)
    requires n < |records| && IsGrid(b.news, NEW_BUCKET_COUNT)
    requires FirstCome(b, NewSlots(h, b.key, records), n)
    ensures var c := WithNew(h, b, n, records[n], false);
      c.key == b.key && IsGrid(c.news, NEW_BUCKET_COUNT) && FirstCome(c, NewSlots(h, b.key, records), n + 1)
  {
    hide Hashes.NewSlot;
    hide WithNew;
    hide FirstAt;
    hide FirstCome;
    WithNewIs(h, b, n, records[n]);
    NextFirstCome(b, WithNew(h, b, n, records[n], false), NewSlots(h, b.key, records), n);
  }

  lemma {:induction false} NewLoadedFirstCome(h: Hashes, s: Saved, n: nat)
    requires n <= |s.records| && !UsableTable(s)
    ensures var b := NewLoaded(h, Header(s), s.records, n, false);
      b.key == s.key && IsGrid(b.news, NEW_BUCKET_COUNT) && FirstCome(b, NewSlots(h, s.key, s.records), n)
  {
    hide FirstCome;
    hide IsGrid;
    hide WithNew;
    hide UsableTable;
    if n == 0 {
      HeaderFirstCome(s, NewSlots(h, s.key, s.records));
    } else {
      NewLoadedFirstCome(h, s, n - 1);
      WithNewFirstCome(h, NewLoaded(h, Header(s), s.records, n - 1, false), s.records, n - 1);
    }
  }

  // ----- the "tried" entries and the buckets leave them alone

  ghost predicate SameBelow(b: Book, c: Book, n: int) {
    forall i :: i < n ==> (i in b.info <==> i in c.info) && (i in b.info ==> c.info[i] == b.info[i])
  }

  lemma {:induction false} TriedLoadedBelow(h: Hashes, b: Book, records: seq<Record>, from: nat, to: nat)
    requires from <= to <= |records|
    ensures var c := TriedLoaded(h, b, records, from, to); SameBelow(b, c, b.idCount) && b.idCount <= c.idCount
  {
    hide Hashes.TriedSlot;
    if to != from {
      TriedLoadedBelow(h, b, records, from, to - 1);
    }
  }

  lemma {:induction false} BucketUnused(h: Hashes, b: Book, k: int, cells: seq<int>, i: nat)
    requires i <= |cells|
    ensures BucketLoaded(h, b, k, cells, i, false) == b
  {
    if i != 0 {
      BucketUnused(h, b, k, cells, i - 1);
    }
  }

  lemma {:induction false} BucketsUnused(h: Hashes, b: Book, buckets: seq<seq<int>>, i: nat)
    requires i <= |buckets|
    ensures BucketsLoaded(h, b, buckets, i, false) == b
  {
    if i != 0 {
      BucketsUnused(h, b, buckets, i - 1);
      BucketUnused(h, b, i - 1, buckets[i - 1], |buckets[i - 1]|);
    }
  }

  /** Before pruning, a "new" entry has a reference just if no record before it has the same cell. */
  lemma FallbackLoaded(h: Hashes, s: Saved, i: nat)
    requires Readable(s) && !UsableTable(s) && i < s.nNew
    ensures var at, b := NewSlots(h, s.key, s.records), TablesLoaded(h, s);
      var first := FirstAt(at, s.nNew, at[i]) == i;
      && i in b.info
      && b.info[i] == InfoOf(s.records[i]).(refCount := if first then 1 else 0, randomPos := b.info[i].randomPos)
  {
    hide NewLoaded;
    hide TriedLoaded;
    hide BucketsLoaded;
    hide UsableTable;
    hide Header;
    hide NewSlots;
    hide InfoOf;
    hide SizesAllowed;
    hide IsGrid;
    hide FirstAt;
    var n := s.nNew;
    var a := NewLoaded(h, Header(s), s.records, n, false);
    NewLoadedFirstCome(h, s, n);
    NewLoadedRecords(h, s, n, i);
    TriedLoadedBelow(h, a.(idCount := n), s.records, n, n + AtLeast0(s.nTried));
    BucketsUnused(h, EntriesLoaded(h, s), s.buckets, AtLeast0(BucketCount(s)));
  }

  lemma FirstOrNot(at: seq<Slot>, n: nat, i: nat)
    requires i < n <= |at|
    ensures FirstAt(at, n, at[i]) == i <==> forall j :: 0 <= j < i ==> at[j] != at[i]
  {
  }

  /** A "new" entry is kept, with one reference, just if no record before it has the same cell. */
  lemma FallbackKeeps(h: Hashes, s: Saved, i: nat)
    requires Readable(s) && !UsableTable(s) && i < s.nNew
    ensures var at, c := NewSlots(h, s.key, s.records), Unserialized(h, s).book;
      && (i in c.info <==> forall j :: 0 <= j < i ==> at[j] != at[i])
      && (i in c.info ==>
            c.info[i] == InfoOf(s.records[i]).(refCount := 1, randomPos := c.info[i].randomPos))
  {
    hide TablesLoaded;
    hide UsableTable;
    hide NewSlots;
    hide IsPruned;
    hide RandomIndexed;
    hide SizesAllowed;
    hide Pruned;
    hide FirstAt;
    hide Ascending;
    var b := TablesLoaded(h, s);
    FallbackLoaded(h, s, i);
    FirstOrNot(NewSlots(h, s.key, s.records), s.nNew, i);
    LoadedInStep(h, s);
    var ids := Ascending(b.info.Keys);
    PrunedIs(b, ids);
    KeptExactly(b, Elements(ids), Pruned(b, ids), i);
  }

  lemma KeptExactly(b: Book, ids: set<int>, c: Book, i: int)
    requires IsPruned(b, ids, c) && i in b.info && i in ids
    ensures i in c.info <==> !Unplaced(b.info[i])
    ensures i in c.info ==> c.info[i] == b.info[i].(randomPos := c.info[i].randomPos)
  {
  }

  /** Apart from references and place an entry is as its record tells. */
  lemma {:induction false} NewLoadedRecords(h: Hashes, s: Saved, n: nat, i: nat)
    requires i < n <= |s.records|
    ensures var b := NewLoaded(h, Header(s), s.records, n, false);
      i in b.info &&
      b.info[i] == InfoOf(s.records[i]).(refCount := b.info[i].refCount, randomPos := b.info[i].randomPos)
  {
    hide WithNew;
    hide InfoOf;
    WithNewIs(h, NewLoaded(h, Header(s), s.records, n - 1, false), n - 1, s.records[n - 1]);
    if i < n - 1 {
      NewLoadedRecords(h, s, n - 1, i);
    }
  }

  // ----- the "tried" table

  function TriedSlots(h: Hashes, key: nat, records: seq<Record>): (at: seq<Slot>)
    ensures |at| == |records|
    ensures forall i :: 0 <= i < |at| ==>
      0 <= at[i].bucket < TRIED_BUCKET_COUNT && 0 <= at[i].pos < BUCKET_SIZE &&
      at[i] == h.TriedSlot(key, records[i].service)
  {
    seq(|records|, i requires 0 <= i < |records| => h.TriedSlot(key, records[i].service))
  }

  /** Each cell has the first record that claims it. */
  ghost predicate TriedFirst(b: Book, at: seq<Slot>, records: seq<Record>, n: nat)
    requires n <= |at| == |records|
  {
    forall s :: s in b.tried ==>
      var f := FirstAt(at, n, s);
      if f == NONE then b.tried[s] == NONE else
      && b.tried[s] in b.info && b.tried[s] < b.idCount && b.tried[s] != NONE
      && b.info[b.tried[s]] ==
         InfoOf(records[f]).(inTried := true, randomPos := b.info[b.tried[s]].randomPos)
  }

  lemma WithTriedIs(h: Hashes, b: Book, r: Record)
    ensures var c, s := WithTried(h, b, r), h.TriedSlot(b.key, r.service);
      var taken := s in b.tried && b.tried[s] == NONE;
      && c.key == b.key && c.tried == (if taken then b.tried[s := b.idCount] else b.tried)
      && c.idCount == (if taken then b.idCount + 1 else b.idCount)
      && (taken ==>
            && b.idCount in c.info
            && c.info[b.idCount] == InfoOf(r).(inTried := true, randomPos := |b.random|))
      && forall i :: i in b.info && i != b.idCount ==> i in c.info && c.info[i] == b.info[i]
  {
    hide Hashes.TriedSlot;
  }

  lemma WithTriedFirst(h: Hashes, b: Book, records: seq<Record>, n: nat)
    requires n < |records| && 0 <= b.idCount && IsGrid(b.tried, TRIED_BUCKET_COUNT)
    requires TriedFirst(b, TriedSlots(h, b.key, records), records, n)
    ensures var c := WithTried(h, b, records[n]);
      && c.key == b.key && 0 <= c.idCount && IsGrid(c.tried, TRIED_BUCKET_COUNT)
      && TriedFirst(c, TriedSlots(h, b.key, records), records, n + 1)
  {
    hide Hashes.TriedSlot;
    hide WithTried;
    hide FirstAt;
    hide InfoOf;
    var at := TriedSlots(h, b.key, records);
    var c := WithTried(h, b, records[n]);
    WithTriedIs(h, b, records[n]);
    forall s | s in c.tried
      ensures
        var f := FirstAt(at, n + 1, s);
        if f == NONE then c.tried[s] == NONE else
        && c.tried[s] in c.info && c.tried[s] < c.idCount && c.tried[s] != NONE
        && c.info[c.tried[s]] == InfoOf(records[f]).(inTried := true, randomPos := c.info[c.tried[s]].randomPos)
    {
      NextAt(at, n, s);
    }
  }

  /** Of the records read as "tried" entries the first one for each cell is kept, as it was written; the others are
      lost. */
  lemma {:induction false} TriedFirstCome(h: Hashes, b: Book, records: seq<Record>, from: nat, to: nat)
    requires from <= to <= |records| && 0 <= b.idCount && IsGrid(b.tried, TRIED_BUCKET_COUNT)
    requires forall s :: s in b.tried ==> b.tried[s] == NONE
    ensures var c, rs := TriedLoaded(h, b, records, from, to), records[from..];
      && c.key == b.key && 0 <= c.idCount && IsGrid(c.tried, TRIED_BUCKET_COUNT)
      && TriedFirst(c, TriedSlots(h, b.key, rs), rs, to - from)
  {
    hide IsGrid;
    hide TriedFirst;
    hide WithTried;
    hide TriedSlots;
    var rs := records[from..];
    if to == from {
      NoneTried(b, TriedSlots(h, b.key, rs), rs);
    } else {
      TriedFirstCome(h, b, records, from, to - 1);
      assert rs[to - 1 - from] == records[to - 1];
      WithTriedFirst(h, TriedLoaded(h, b, records, from, to - 1), rs, to - 1 - from);
    }
  }

  lemma NoneTried(b: Book, at: seq<Slot>, records: seq<Record>)
    requires |at| == |records| && forall s :: s in b.tried ==> b.tried[s] == NONE
    ensures TriedFirst(b, at, records, 0)
  {
  }
}
