/** Reading any stream, however it was made: what comes out of it, and exactly when that is sound. */
module AddrAnyStream {
  import opened AddrBook
  import opened AddrOps
  import opened AddrSerial

  predicate Unplaced(e: Info) {
    !e.inTried && e.refCount == 0
  }

  /** The entries that are in no table; they are pruned in the end. */
  ghost function Idle(b: Book): set<int> {
    set id | id in b.info && Unplaced(b.info[id])
  }

  // ----- tables, marks and counters while a stream is read

  /** The ids below `n` are given out, those below the number of "new" entries to such entries; `pending` "new"
      entries and `t` "tried" ones are counted and yet to come. */
  ghost predicate Settled(h: Hashes, b: Book, n: int, pending: int, t: int) {
    && 0 <= n && (forall id :: id in b.info ==> 0 <= id < n && (b.info[id].inTried <==> b.nNew <= id))
    && Placed(h, b.(nTried := b.nTried - t), Idle(b), pending + |Idle(b)|)
  }

  lemma HeaderSettled(h: Hashes, s: Saved)
    ensures Settled(h, Header(s), 0, s.nNew, s.nTried)
  {
    var b := Header(s);
    SameIds(Idle(b), {});
    SameIds(TriedIds(b), {});
    SameIds(NewIds(b, {}), {});
  }

  lemma ReferencedSettled(h: Hashes, b: Book, id: int, s: Slot, n: int, pending: int, t: int)
    requires Settled(h, b, n, pending, t) && id in b.info && id < b.nNew
    requires b.info[id].refCount < NEW_BUCKETS_PER_ADDRESS && s in b.news && b.news[s] == NONE
    requires s.pos == h.Position(b.key, true, s.bucket, b.info[id].service)
    ensures Settled(h, Referenced(b, id, s), n, pending, t)
  {
    hide Placed;
    var b', c := b.(nTried := b.nTried - t), Referenced(b, id, s);
    ReferencedPlaced(h, b', id, s, Idle(b), pending + |Idle(b)|);
    CountsAreCounts(h, b', id, Idle(b), pending + |Idle(b)|);
    SameIds(Idle(c), Idle(b) - {id});
    assert c.(nTried := c.nTried - t) == Referenced(b', id, s);
  }

  lemma CountsAreCounts(h: Hashes, b: Book, id: int, limbo: set<int>, offset: int)
    requires Placed(h, b, limbo, offset) && id in b.info
    ensures 0 <= b.info[id].refCount
  {
  }

  /** A new entry under the next id, in no table. */
  lemma AppendedSettled(h: Hashes, b: Book, n: int, r: Record, pending: int, t: int)
    requires Settled(h, b, n, pending, t) && n < b.nNew
    ensures Settled(h, Appended(b, n, InfoOf(r)), n + 1, pending - 1, t)
  {
    hide Placed;
    var b', c := b.(idCount := n, nTried := b.nTried - t), Appended(b, n, InfoOf(r));
    SamePlacementPlaced(h, b.(nTried := b.nTried - t), b', Idle(b), pending + |Idle(b)|);
    CreatedPlaced(h, b', InfoOf(r), Idle(b), pending + |Idle(b)|);
    SameIds(Idle(c), Idle(b) + {n});
    SamePlacementPlaced(h, Created(b', InfoOf(r)), c.(nTried := c.nTried - t), Idle(c), pending + |Idle(b)|);
  }

  lemma WithNewSettled(h: Hashes, b: Book, n: int, r: Record, usable: bool, pending: int, t: int)
    requires Settled(h, b, n, pending, t) && n < b.nNew
    ensures Settled(h, WithNew(h, b, n, r, usable), n + 1, pending - 1, t)
  {
    hide Settled;
    AppendedSettled(h, b, n, r, pending, t);
    var c := Appended(b, n, InfoOf(r));
    var s := h.NewSlot(b.key, r.service, r.source);
    if !usable && s in c.news && c.news[s] == NONE {
      ReferencedSettled(h, c, n, s, n + 1, pending - 1, t);
    }
  }

  lemma {:induction false} NewLoadedSettled(h: Hashes, s: Saved, n: nat)
    requires n <= |s.records| && n <= AtLeast0(s.nNew)
    ensures var b := NewLoaded(h, Header(s), s.records, n, UsableTable(s));
      Settled(h, b, n, s.nNew - n, s.nTried) && b.nNew == s.nNew && b.nTried == s.nTried
  {
    hide Settled;
    hide WithNew;
    hide UsableTable;
    if n == 0 {
      HeaderSettled(h, s);
    } else {
      NewLoadedSettled(h, s, n - 1);
      var b := NewLoaded(h, Header(s), s.records, n - 1, UsableTable(s));
      WithNewSettled(h, b, n - 1, s.records[n - 1], UsableTable(s), s.nNew - (n - 1), s.nTried);
      WithNewKeeps(h, b, n - 1, s.records[n - 1], UsableTable(s));
    }
  }

  /** A "tried" entry is a new entry that takes its cell. */
  lemma TriedAsMoves(h: Hashes, b: Book, r: Record, t: int)
    requires var s := h.TriedSlot(b.key, r.service); s in b.tried && b.tried[s] == NONE
    ensures var b' := b.(nTried := b.nTried - t);
      WithTried(h, b, r).(nTried := b.nTried - (t - 1)) == Seated(h, Created(b', InfoOf(r)), b.idCount)
  {
    hide Hashes.TriedSlot;
  }

  lemma TriedPlace(h: Hashes, b: Book, r: Record, t: int)
    requires Settled(h, b, b.idCount, 0, t)
    requires var s := h.TriedSlot(b.key, r.service); s in b.tried && b.tried[s] == NONE
    ensures var c := WithTried(h, b, r);
      Idle(c) == Idle(b) && Placed(h, c.(nTried := b.nTried - (t - 1)), Idle(b), |Idle(b)|)
  {
    hide Placed;
    hide Hashes.TriedSlot;
    var b', id := b.(nTried := b.nTried - t), b.idCount;
    CreatedPlaced(h, b', InfoOf(r), Idle(b), |Idle(b)|);
    SeatedPlaced(h, Created(b', InfoOf(r)), id, Idle(b) + {id}, |Idle(b)|);
    SameIds(Idle(b) + {id} - {id}, Idle(b));
    SameIds(Idle(WithTried(h, b, r)), Idle(b));
    TriedAsMoves(h, b, r, t);
  }

  lemma WithTriedSettled(h: Hashes, b: Book, r: Record, t: int)
    requires Settled(h, b, b.idCount, 0, t) && b.nNew <= b.idCount
    ensures var c := WithTried(h, b, r); Settled(h, c, c.idCount, 0, t - 1) && c.nNew == b.nNew <= c.idCount
  {
    hide Placed;
    hide Hashes.TriedSlot;
    var s, c := h.TriedSlot(b.key, r.service), WithTried(h, b, r);
    var b' := b.(nTried := b.nTried - t);
    if s in b.tried && b.tried[s] == NONE {
      TriedPlace(h, b, r, t);
    } else {
      assert c.(nTried := c.nTried - (t - 1)) == b';
    }
  }

  lemma {:induction false} TriedLoadedSettled(h: Hashes, b: Book, records: seq<Record>, from: nat, to: nat, t: int)
    requires from <= to <= |records| && Settled(h, b, b.idCount, 0, t) && b.nNew <= b.idCount
    ensures var c := TriedLoaded(h, b, records, from, to);
      Settled(h, c, c.idCount, 0, t - (to - from)) && c.nNew == b.nNew <= c.idCount
  {
    hide Settled;
    hide WithTried;
    if to != from {
      TriedLoadedSettled(h, b, records, from, to - 1, t);
      WithTriedSettled(h, TriedLoaded(h, b, records, from, to - 1), records[to - 1], t - (to - 1 - from));
    }
  }

  lemma WithCellSettled(h: Hashes, b: Book, bucket: int, index: int, usable: bool, n: int)
    requires Settled(h, b, n, 0, 0)
    ensures Settled(h, WithCell(h, b, bucket, index, usable), n, 0, 0)
  {
    hide Settled;
    if 0 <= index < b.nNew && index in b.info {
      var s := Slot(bucket, h.Position(b.key, true, bucket, b.info[index].service));
      if usable && s in b.news && b.news[s] == NONE && b.info[index].refCount < NEW_BUCKETS_PER_ADDRESS {
        ReferencedSettled(h, b, index, s, n, 0, 0);
      }
    }
  }

  lemma {:induction false} BucketSettled(h: Hashes, b: Book, k: int, cells: seq<int>, i: nat, usable: bool, n: int)
    requires i <= |cells| && Settled(h, b, n, 0, 0)
    ensures Settled(h, BucketLoaded(h, b, k, cells, i, usable), n, 0, 0)
  {
    hide Settled;
    hide WithCell;
    if i != 0 {
      BucketSettled(h, b, k, cells, i - 1, usable, n);
      WithCellSettled(h, BucketLoaded(h, b, k, cells, i - 1, usable), k, cells[i - 1], usable, n);
    }
  }

  lemma {:induction false} BucketsSettled(h: Hashes, b: Book, buckets: seq<seq<int>>, i: nat, usable: bool, n: int)
    requires i <= |buckets| && Settled(h, b, n, 0, 0)
    ensures Settled(h, BucketsLoaded(h, b, buckets, i, usable), n, 0, 0)
  {
    hide Settled;
    hide BucketLoaded;
    if i != 0 {
      BucketsSettled(h, b, buckets, i - 1, usable, n);
      var c := BucketsLoaded(h, b, buckets, i - 1, usable);
      BucketSettled(h, c, i - 1, buckets[i - 1], |buckets[i - 1]|, usable, n);
    }
  }

  /** Unless a count is negative, the loaded tables are sound, with the idle entries left over. */
  lemma TablesSettled(h: Hashes, s: Saved)
    requires Readable(s) && 0 <= s.nNew && 0 <= s.nTried
    ensures var b := TablesLoaded(h, s); Settled(h, b, b.idCount, 0, 0)
  {
    hide Settled;
    hide NewLoaded;
    hide TriedLoaded;
    hide BucketsLoaded;
    hide UsableTable;
    hide Header;
    NewLoadedSettled(h, s, s.nNew);
    var b := NewLoaded(h, Header(s), s.records, s.nNew, UsableTable(s));
    NextId(h, b, s.nNew, s.nTried);
    TriedLoadedSettled(h, b.(idCount := s.nNew), s.records, s.nNew, s.nNew + s.nTried, s.nTried);
    var c := EntriesLoaded(h, s);
    BucketsSettled(h, c, s.buckets, AtLeast0(BucketCount(s)), UsableTable(s), c.idCount);
    BucketsKeep(h, c, s.buckets, AtLeast0(BucketCount(s)), UsableTable(s));
  }

  lemma NextId(h: Hashes, b: Book, n: int, t: int)
    requires Settled(h, b, n, 0, t)
    ensures Settled(h, b.(idCount := n), n, 0, t)
  {
    hide Placed;
    SameIds(Idle(b.(idCount := n)), Idle(b));
    SamePlacementPlaced(h, b.(nTried := b.nTried - t), b.(idCount := n, nTried := b.nTried - t), Idle(b), |Idle(b)|);
  }

  /** What reading the buckets leaves alone. */
  ghost predicate SameEntries(b: Book, c: Book) {
    && c.idCount == b.idCount && c.nNew == b.nNew && c.nTried == b.nTried && c.addr == b.addr
    && (forall id :: id in c.info <==> id in b.info)
    && forall id :: id in b.info ==>
         c.info[id].service == b.info[id].service && c.info[id].inTried == b.info[id].inTried
  }

  lemma WithCellKeepsEntries(h: Hashes, b: Book, bucket: int, index: int, usable: bool)
    ensures SameEntries(b, WithCell(h, b, bucket, index, usable))
  {
  }

  lemma {:induction false} BucketKeeps(h: Hashes, b: Book, k: int, cells: seq<int>, i: nat, usable: bool)
    requires i <= |cells|
    ensures SameEntries(b, BucketLoaded(h, b, k, cells, i, usable))
  {
    hide WithCell;
    if i != 0 {
      BucketKeeps(h, b, k, cells, i - 1, usable);
      WithCellKeepsEntries(h, BucketLoaded(h, b, k, cells, i - 1, usable), k, cells[i - 1], usable);
    }
  }

  lemma {:induction false} BucketsKeep(h: Hashes, b: Book, buckets: seq<seq<int>>, i: nat, usable: bool)
    requires i <= |buckets|
    ensures SameEntries(b, BucketsLoaded(h, b, buckets, i, usable))
  {
    hide BucketLoaded;
    if i != 0 {
      BucketsKeep(h, b, buckets, i - 1, usable);
      BucketKeeps(h, BucketsLoaded(h, b, buckets, i - 1, usable), i - 1, buckets[i - 1], |buckets[i - 1]|, usable);
    }
  }

  // ----- pruning

  /** What pruning makes of `b`, when it has dealt with the given ids. */
  ghost predicate IsPruned(b: Book, ids: set<int>, c: Book) {
    && c.idCount == b.idCount && c.nTried == b.nTried
    && (forall id :: id in c.info <==> id in b.info && !(id in ids && Unplaced(b.info[id])))
    && (forall id :: id in c.info ==> c.info[id] == b.info[id].(randomPos := c.info[id].randomPos))
    && (forall a :: a in c.addr <==> a in b.addr && !Freed(b, ids, a))
    && (forall a :: a in c.addr ==> c.addr[a] == b.addr[a])
  }

  /** The host of an entry that was pruned. */
  ghost predicate Freed(b: Book, ids: set<int>, a: NetAddr) {
    exists id :: id in ids && id in b.info && Unplaced(b.info[id]) && b.info[id].service.addr == a
  }

  lemma DeletedHost(b: Book, id: int)
    requires RandomIndexed(b) && id in b.info
    ensures var c := Deleted(b, id);
      && c.addr == b.addr - {b.info[id].service.addr} && c.nTried == b.nTried && c.idCount == b.idCount
      && (forall x :: x in c.info <==> x in b.info && x != id)
      && (forall x :: x in c.info ==> c.info[x] == b.info[x].(randomPos := c.info[x].randomPos))
  {
  }

  lemma DeletedPruned(b: Book, ids: set<int>, c: Book, id: int)
    requires IsPruned(b, ids, c) && RandomIndexed(c) && id in c.info && Unplaced(c.info[id])
    ensures IsPruned(b, ids + {id}, Deleted(c, id))
  {
    hide Deleted;
    DeletedHost(c, id);
    forall a ensures Freed(b, ids + {id}, a) <==> Freed(b, ids, a) || a == b.info[id].service.addr {
      if Freed(b, ids, a) {
        var x :| x in ids && x in b.info && Unplaced(b.info[x]) && b.info[x].service.addr == a;
        assert x in ids + {id};
      }
      assert id in ids + {id};
    }
  }

  lemma PassedOver(b: Book, ids: set<int>, c: Book, id: int)
    requires IsPruned(b, ids, c) && !(id in c.info && Unplaced(c.info[id]))
    ensures IsPruned(b, ids + {id}, c)
  {
    forall a ensures Freed(b, ids + {id}, a) <==> Freed(b, ids, a) {
      if Freed(b, ids + {id}, a) {
        var x :| x in ids + {id} && x in b.info && Unplaced(b.info[x]) && b.info[x].service.addr == a;
        assert x in ids;
      }
      if Freed(b, ids, a) {
        var x :| x in ids && x in b.info && Unplaced(b.info[x]) && b.info[x].service.addr == a;
        assert x in ids + {id};
      }
    }
  }

  ghost function Elements(ids: seq<int>): set<int> {
    set id | id in ids
  }

  lemma {:induction false} PrunedIs(b: Book, ids: seq<int>)
    requires RandomIndexed(b)
    ensures IsPruned(b, Elements(ids), Pruned(b, ids))
  {
    hide IsPruned;
    hide RandomIndexed;
    hide Deleted;
    if ids == [] {
      NothingPruned(b);
      SameIds(Elements([]), {});
    } else {
      var l := |ids| - 1;
      PrunedIs(b, ids[..l]);
      var c := Pruned(b, ids[..l]);
      assert ids == ids[..l] + [ids[l]];
      SameIds(Elements(ids), Elements(ids[..l]) + {ids[l]});
      if ids[l] in c.info && Unplaced(c.info[ids[l]]) {
        DeletedPruned(b, Elements(ids[..l]), c, ids[l]);
      } else {
        PassedOver(b, Elements(ids[..l]), c, ids[l]);
      }
    }
  }

  lemma NothingPruned(b: Book)
    ensures IsPruned(b, {}, b)
  {
  }

  lemma {:induction false} PrunedSettled(h: Hashes, b: Book, ids: seq<int>)
    requires RandomIndexed(b) && Settled(h, b, b.idCount, 0, 0)
    ensures var c := Pruned(b, ids); Placed(h, c, Idle(c), |Idle(c)|)
  {
    hide Placed;
    hide RandomIndexed;
    hide Deleted;
    if ids == [] {
      assert b.(nTried := b.nTried - 0) == b;
    } else {
      var l := |ids| - 1;
      PrunedSettled(h, b, ids[..l]);
      var c := Pruned(b, ids[..l]);
      if ids[l] in c.info && Unplaced(c.info[ids[l]]) {
        DeletedPlaced(h, c, ids[l], Idle(c), |Idle(c)|);
        DeletedIdle(c, ids[l]);
      }
    }
  }

  lemma DeletedIdle(b: Book, id: int)
    requires RandomIndexed(b) && id in b.info
    ensures Idle(Deleted(b, id)) == Idle(b) - {id}
  {
    hide Deleted;
    DeletedHost(b, id);
    SameIds(Idle(Deleted(b, id)), Idle(b) - {id});
  }

  // ----- the index by host

  /** The index knows the hosts of all entries, and for each the latest entry. */
  ghost predicate Latest(b: Book) {
    && (forall id :: id in b.info ==> b.info[id].service.addr in b.addr && id <= b.addr[b.info[id].service.addr])
    && (forall a :: a in b.addr ==> b.addr[a] in b.info && b.info[b.addr[a]].service.addr == a)
  }

  lemma AppendedLatest(b: Book, id: int, e: Info)
    requires Latest(b) && forall x :: x in b.info ==> x < id
    ensures Latest(Appended(b, id, e))
  {
    var c := Appended(b, id, e);
    forall a | a in c.addr ensures c.addr[a] in c.info && c.info[c.addr[a]].service.addr == a {
      if a != e.service.addr {
        assert c.addr[a] == b.addr[a] && b.addr[a] in b.info;
      }
    }
  }

  lemma SameEntriesLatest(b: Book, c: Book)
    requires Latest(b) && SameEntries(b, c)
    ensures Latest(c)
  {
    forall a | a in c.addr ensures c.addr[a] in c.info && c.info[c.addr[a]].service.addr == a {
      var id := b.addr[a];
      assert id in b.info && id in c.info;
    }
  }

  lemma WithNewLatest(h: Hashes, b: Book, n: int, r: Record, usable: bool)
    requires Latest(b) && forall x :: x in b.info ==> x < n
    ensures Latest(WithNew(h, b, n, r, usable))
  {
    hide Latest;
    AppendedLatest(b, n, InfoOf(r));
    SameEntriesLatest(Appended(b, n, InfoOf(r)), WithNew(h, b, n, r, usable));
  }

  lemma {:induction false} NewLoadedLatest(h: Hashes, s: Saved, n: nat)
    requires n <= |s.records|
    ensures Latest(NewLoaded(h, Header(s), s.records, n, UsableTable(s)))
  {
    hide WithNew;
    hide UsableTable;
    if n != 0 {
      NewLoadedLatest(h, s, n - 1);
      NewLoadedInStep(h, Header(s), s.records, n - 1, UsableTable(s));
      WithNewLatest(h, NewLoaded(h, Header(s), s.records, n - 1, UsableTable(s)), n - 1, s.records[n - 1],
                    UsableTable(s));
    }
  }

  lemma WithTriedLatest(h: Hashes, b: Book, r: Record)
    requires Latest(b) && forall x :: x in b.info ==> x < b.idCount
    ensures Latest(WithTried(h, b, r))
  {
    AppendedLatest(b, b.idCount, InfoOf(r).(inTried := true));
  }

  lemma {:induction false} TriedLoadedLatest(h: Hashes, b: Book, records: seq<Record>, from: nat, to: nat)
    requires from <= to <= |records| && InStep(b, b.idCount) && Latest(b)
    ensures Latest(TriedLoaded(h, b, records, from, to))
  {
    hide Latest;
    hide WithTried;
    if to != from {
      TriedLoadedLatest(h, b, records, from, to - 1);
      TriedLoadedInStep(h, b, records, from, to - 1);
      WithTriedLatest(h, TriedLoaded(h, b, records, from, to - 1), records[to - 1]);
    }
  }

  lemma TablesLatest(h: Hashes, s: Saved)
    requires Readable(s)
    ensures Latest(TablesLoaded(h, s)) && SameEntries(EntriesLoaded(h, s), TablesLoaded(h, s))
  {
    hide Latest;
    hide SameEntries;
    hide NewLoaded;
    hide TriedLoaded;
    hide BucketsLoaded;
    hide InStep;
    hide UsableTable;
    hide Header;
    var n := AtLeast0(s.nNew);
    var b := NewLoaded(h, Header(s), s.records, n, UsableTable(s));
    NewEntriesInStep(h, s);
    NewLoadedLatest(h, s, n);
    LatestId(b, s.nNew);
    TriedLoadedLatest(h, b.(idCount := s.nNew), s.records, n, n + AtLeast0(s.nTried));
    BucketsKeep(h, EntriesLoaded(h, s), s.buckets, AtLeast0(BucketCount(s)), UsableTable(s));
    SameEntriesLatest(EntriesLoaded(h, s), TablesLoaded(h, s));
  }

  lemma LatestId(b: Book, n: int)
    requires Latest(b)
    ensures Latest(b.(idCount := n))
  {
  }

  /** Entries that share a host are in no table. */
  ghost predicate HostsApart(b: Book) {
    forall x, y :: x in b.info && y in b.info && x != y && b.info[x].service.addr == b.info[y].service.addr ==>
      Unplaced(b.info[x]) && Unplaced(b.info[y])
  }

  lemma ApartIndexed(b: Book, ids: set<int>, c: Book)
    requires Latest(b) && IsPruned(b, ids, c) && HostsApart(b) && forall id :: id in b.info ==> id in ids
    ensures AddrIndexed(c)
  {
    forall id | id in c.info
      ensures c.info[id].service.addr in c.addr && c.addr[c.info[id].service.addr] == id
    {
      assert b.addr[b.info[id].service.addr] == id;
      assert !Freed(b, ids, b.info[id].service.addr);
    }
    forall a | a in c.addr ensures c.addr[a] in c.info && c.info[c.addr[a]].service.addr == a {
      var id := b.addr[a];
      assert id in b.info && (Unplaced(b.info[id]) ==> Freed(b, ids, a));
    }
  }

  /** Pruning an entry takes its host out of the index, whoever else has that host. */
  lemma PrunedHosts(b: Book, ids: set<int>, c: Book)
    requires Latest(b) && IsPruned(b, ids, c) && forall id :: id in b.info ==> id in ids
    ensures AddrIndexed(c) <==> HostsApart(b)
  {
    if HostsApart(b) {
      ApartIndexed(b, ids, c);
    } else if AddrIndexed(c) {
      forall x, y | x in b.info && y in b.info && x != y && b.info[x].service.addr == b.info[y].service.addr
        ensures Unplaced(b.info[x])
      {
        assert Unplaced(b.info[y]) ==> Freed(b, ids, b.info[y].service.addr);
        assert y in c.info || Unplaced(b.info[y]);
      }
    }
  }

  // ----- negative counts

  /** If the count of "new" entries is negative, so are the first ids given out. */
  lemma {:induction false} NegativeIds(h: Hashes, b: Book, records: seq<Record>, from: nat, to: nat)
    requires from <= to <= |records|
    ensures var c := TriedLoaded(h, b, records, from, to);
      c.idCount == b.idCount || (b.idCount < c.idCount && b.idCount in c.info && c.info[b.idCount].inTried)
  {
    if to != from {
      NegativeIds(h, b, records, from, to - 1);
    }
  }

  lemma NegativeNew(h: Hashes, s: Saved, c: Book)
    requires Readable(s) && s.nNew < 0
    requires IsPruned(TablesLoaded(h, s), Elements(Ascending(TablesLoaded(h, s).info.Keys)), c)
    ensures !IdsInRange(c)
  {
    hide TriedLoaded;
    hide BucketsLoaded;
    hide NewLoaded;
    hide UsableTable;
    var b := NewLoaded(h, Header(s), s.records, 0, UsableTable(s)).(idCount := s.nNew);
    NegativeIds(h, b, s.records, 0, AtLeast0(s.nTried));
    TablesLatest(h, s);
  }

  /** The count of "tried" entries is counted down only for entries that are read. */
  lemma NegativeTried(h: Hashes, s: Saved)
    requires Readable(s) && s.nTried < 0
    ensures TablesLoaded(h, s).nTried == s.nTried
  {
    hide NewLoaded;
    hide UsableTable;
    hide BucketsLoaded;
    NewLoadedSettled(h, s, AtLeast0(s.nNew));
    TablesLatest(h, s);
  }

  // ----- any stream

  /** What is read from a stream is sound just when no count is negative and no entry in a table shares its host
      with another entry that was read. */
  lemma AnyStream(h: Hashes, s: Saved)
    requires Readable(s)
    ensures Inv(h, Unserialized(h, s).book) <==>
      0 <= s.nNew && 0 <= s.nTried && HostsApart(TablesLoaded(h, s))
  {
    hide Placed;
    hide RandomIndexed;
    hide IsPruned;
    hide HostsApart;
    hide AddrIndexed;
    hide IdsInRange;
    hide TablesLoaded;
    hide Pruned;
    hide Readable;
    LoadedInStep(h, s);
    TablesLatest(h, s);
    var b := TablesLoaded(h, s);
    var ids := Ascending(b.info.Keys);
    var c := Pruned(b, ids);
    PrunedIs(b, ids);
    PrunedHosts(b, Elements(ids), c);
    if s.nNew < 0 {
      NegativeNew(h, s, c);
    } else if s.nTried < 0 {
      NegativeTried(h, s);
      NotCounted(h, b, Elements(ids), c);
    } else {
      TablesSettled(h, s);
      PrunedSettled(h, b, ids);
      PrunedSound(h, b, Elements(ids), c);
    }
  }

  lemma NotCounted(h: Hashes, b: Book, ids: set<int>, c: Book)
    requires IsPruned(b, ids, c) && b.nTried < 0
    ensures !Placed(h, c, {}, 0)
  {
  }

  lemma PrunedSound(h: Hashes, b: Book, ids: set<int>, c: Book)
    requires IsPruned(b, ids, c) && Settled(h, b, b.idCount, 0, 0) && Placed(h, c, Idle(c), |Idle(c)|)
    requires forall id :: id in b.info ==> id in ids
    ensures IdsInRange(c) && Placed(h, c, {}, 0)
  {
    hide Placed;
    SameIds(Idle(c), {});
  }

  // ----- different hosts

  /** No two of the first `n` records are of the same host. */
  ghost predicate DistinctHosts(records: seq<Record>, n: int) {
    forall i, j :: 0 <= i < j < n && j < |records| ==> records[i].service.addr != records[j].service.addr
  }

  /** Every host known comes from one of the first `n` records, and no two entries share one. */
  ghost predicate FromRecords(b: Book, records: seq<Record>, n: int) {
    && (forall a :: a in b.addr ==> exists i :: 0 <= i < n && i < |records| && records[i].service.addr == a)
    && (forall x, y :: x in b.info && y in b.info && b.info[x].service.addr == b.info[y].service.addr ==> x == y)
  }

  lemma AppendedFromRecords(b: Book, id: int, e: Info, records: seq<Record>, n: nat)
    requires Latest(b) && FromRecords(b, records, n) && DistinctHosts(records, n + 1)
    requires n < |records| && e.service == records[n].service && id !in b.info
    ensures FromRecords(Appended(b, id, e), records, n + 1)
  {
    assert e.service.addr !in b.addr;
  }

  lemma MoreRecords(b: Book, c: Book, records: seq<Record>, n: int, m: int)
    requires FromRecords(b, records, n) && n <= m && c.addr == b.addr
    requires forall id :: id in c.info ==> id in b.info && c.info[id].service == b.info[id].service
    ensures FromRecords(c, records, m)
  {
  }

  lemma WithNewFromRecords(h: Hashes, b: Book, records: seq<Record>, n: nat, usable: bool)
    requires Latest(b) && FromRecords(b, records, n) && DistinctHosts(records, n + 1)
    requires n < |records| && n !in b.info
    ensures FromRecords(WithNew(h, b, n, records[n], usable), records, n + 1)
  {
    hide Latest;
    hide FromRecords;
    var c := Appended(b, n, InfoOf(records[n]));
    AppendedFromRecords(b, n, InfoOf(records[n]), records, n);
    MoreRecords(c, WithNew(h, b, n, records[n], usable), records, n + 1, n + 1);
  }

  lemma {:induction false} NewFromRecords(h: Hashes, s: Saved, n: nat)
    requires n <= |s.records| && DistinctHosts(s.records, n)
    ensures FromRecords(NewLoaded(h, Header(s), s.records, n, UsableTable(s)), s.records, n)
  {
    hide Latest;
    hide FromRecords;
    hide UsableTable;
    hide WithNew;
    if n == 0 {
      NoRecords(s);
    } else {
      var b := NewLoaded(h, Header(s), s.records, n - 1, UsableTable(s));
      NewFromRecords(h, s, n - 1);
      NewLoadedLatest(h, s, n - 1);
      NewLoadedInStep(h, Header(s), s.records, n - 1, UsableTable(s));
      WithNewFromRecords(h, b, s.records, n - 1, UsableTable(s));
    }
  }

  lemma NoRecords(s: Saved)
    ensures FromRecords(Header(s), s.records, 0)
  {
  }

  lemma WithTriedFromRecords(h: Hashes, b: Book, records: seq<Record>, n: nat)
    requires Latest(b) && FromRecords(b, records, n) && DistinctHosts(records, n + 1)
    requires n < |records| && b.idCount !in b.info
    ensures FromRecords(WithTried(h, b, records[n]), records, n + 1)
  {
    hide Latest;
    hide FromRecords;
    hide Hashes.TriedSlot;
    var e := InfoOf(records[n]).(inTried := true);
    var s := h.TriedSlot(b.key, records[n].service);
    if s in b.tried && b.tried[s] == NONE {
      AppendedFromRecords(b, b.idCount, e, records, n);
      MoreRecords(Appended(b, b.idCount, e), WithTried(h, b, records[n]), records, n + 1, n + 1);
    } else {
      MoreRecords(b, WithTried(h, b, records[n]), records, n, n + 1);
    }
  }

  lemma {:induction false} TriedFromRecords(h: Hashes, b: Book, records: seq<Record>, from: nat, to: nat)
    requires from <= to <= |records| && DistinctHosts(records, to)
    requires InStep(b, b.idCount) && Latest(b) && FromRecords(b, records, from)
    ensures FromRecords(TriedLoaded(h, b, records, from, to), records, to)
  {
    hide Latest;
    hide FromRecords;
    hide WithTried;
    if to != from {
      var c := TriedLoaded(h, b, records, from, to - 1);
      TriedFromRecords(h, b, records, from, to - 1);
      TriedLoadedLatest(h, b, records, from, to - 1);
      TriedLoadedInStep(h, b, records, from, to - 1);
      WithTriedFromRecords(h, c, records, to - 1);
    }
  }

  /** A stream whose counts are not negative and whose records are of different hosts is read soundly, whatever
      its tables are like. */
  lemma DifferentHosts(h: Hashes, s: Saved)
    requires Readable(s) && 0 <= s.nNew && 0 <= s.nTried && DistinctHosts(s.records, s.nNew + s.nTried)
    ensures Inv(h, Unserialized(h, s).book)
  {
    hide Latest;
    hide InStep;
    hide NewLoaded;
    hide TriedLoaded;
    hide BucketsLoaded;
    hide UsableTable;
    hide Header;
    hide Inv;
    hide Unserialized;
    AnyStream(h, s);
    var b := NewLoaded(h, Header(s), s.records, s.nNew, UsableTable(s));
    NewFromRecords(h, s, s.nNew);
    NewLoadedLatest(h, s, s.nNew);
    LatestId(b, s.nNew);
    NewEntriesInStep(h, s);
    MoreRecords(b, b.(idCount := s.nNew), s.records, s.nNew, s.nNew);
    TriedFromRecords(h, b.(idCount := s.nNew), s.records, s.nNew, s.nNew + s.nTried);
    TablesLatest(h, s);
    MoreRecords(EntriesLoaded(h, s), TablesLoaded(h, s), s.records, s.nNew + s.nTried, s.nNew + s.nTried);
  }

  // ----- inputs on which it fails

  /** A stream with the same record as a "new" and as a "tried" entry, and without buckets. */
  function Twice(r: Record): Saved {
    Saved(1, 32, 0, 1, 1, BIT30, [r, r], [])
  }

  lemma OneNew(h: Hashes, b: Book, n: int, r: Record, usable: bool)
    ensures var c := WithNew(h, b, n, r, usable);
      n in c.info && c.info[n].service == r.service && c.tried == b.tried && c.key == b.key
  {
  }

  lemma OneTried(h: Hashes, b: Book, r: Record)
    requires var s := h.TriedSlot(b.key, r.service); s in b.tried && b.tried[s] == NONE
    ensures var c := WithTried(h, b, r);
      && b.idCount in c.info && c.info[b.idCount].inTried && c.info[b.idCount].service == r.service
      && forall id :: id in b.info && id != b.idCount ==> id in c.info && c.info[id] == b.info[id]
  {
  }

  lemma TwiceLoaded(h: Hashes, r: Record)
    ensures Readable(Twice(r))
    ensures var b := TablesLoaded(h, Twice(r));
      && 0 in b.info && 1 in b.info && b.info[1].inTried
      && b.info[0].service == r.service && b.info[1].service == r.service
  {
    hide WithNew;
    hide WithTried;
    var s := Twice(r);
    assert BucketCount(s) == 0;
    assert NewLoaded(h, Header(s), s.records, 0, false) == Header(s);
    var b := NewLoaded(h, Header(s), s.records, 1, false).(idCount := 1);
    OneNew(h, Header(s), 0, r, false);
    assert TriedLoaded(h, b, s.records, 1, 1) == b;
    OneTried(h, b, r);
  }

  lemma SharedHost(h: Hashes, r: Record)
    ensures !Inv(h, Unserialized(h, Twice(r)).book)
  {
    hide Inv;
    hide Unserialized;
    hide TablesLoaded;
    TwiceLoaded(h, r);
    AnyStream(h, Twice(r));
  }

  /** A stream that announces less than nothing, and holds nothing. */
  lemma LessThanNothing(h: Hashes)
    ensures var s := Saved(1, 32, 0, 0, -1, BIT30, [], []);
      Unserialized(h, s).Read? && !Inv(h, Unserialized(h, s).book)
  {
    hide Inv;
    hide TablesLoaded;
    var s := Saved(1, 32, 0, 0, -1, BIT30, [], []);
    assert BucketCount(s) == 0;
    AnyStream(h, s);
  }
}
