/** The operations of the address manager as functions on books, and what every run of them keeps. */
module AddrOps {
  import opened Basics
  import opened AddrBook

  const HORIZON_DAYS := 30
  const RETRIES := 3
  const MAX_FAILURES := 10
  const MIN_FAIL_DAYS := 7
  const GETADDR_MAX_PCT := 23
  const GETADDR_MAX := 2500

  /** An address as peers announce it. */
  datatype Address = Address(service: Service, services: set<nat>, time: int)

  function NewInfo(a: Address, source: NetAddr): Info {
    Info(a.service, a.services, a.time, source, 0, 0, 0, 0, 0, false, -1)
  }

  predicate IsTerrible(e: Info, now: int) {
    if e.lastTry != 0 && e.lastTry >= now - 60 then false
    else if e.time > now + 10 * 60 then true
    else if e.time == 0 || now - e.time > HORIZON_DAYS * 24 * 60 * 60 then true
    else if e.lastSuccess == 0 && e.attempts >= RETRIES then true
    else now - e.lastSuccess > MIN_FAIL_DAYS * 24 * 60 * 60 && e.attempts >= MAX_FAILURES
  }

  /** The cleared manager (`Clear`). */
  function EmptyTable(buckets: nat): (t: Table)
    ensures IsGrid(t, buckets)
    ensures forall s :: s in t ==> t[s] == NONE
  {
    map b, p | 0 <= b < buckets && 0 <= p < BUCKET_SIZE :: Slot(b, p) := NONE
  }

  function EmptyBook(key: nat): Book {
    Book(key, 0, map[], map[], [], EmptyTable(NEW_BUCKET_COUNT), EmptyTable(TRIED_BUCKET_COUNT), 0, 0, 1)
  }

  lemma EmptyInv(h: Hashes, key: nat)
    ensures Inv(h, EmptyBook(key))
  {
  }

  /** One more entry is counted as "new". */
  function CountedIn(b: Book): Book {
    b.(nNew := b.nNew + 1)
  }

  // ----- Good_

  lemma LimboHasNoSlot(h: Hashes, b: Book, limbo: set<int>, offset: int, id: int, s: Slot)
    requires Core(h, b, limbo, offset) && id in limbo && s in b.news
    ensures b.news[s] != id
  {
    assert SlotsOf(b.news, id) == {};
    assert b.news[s] == id ==> s in SlotsOf(b.news, id);
  }

  /** The entry is untouched, except perhaps for its place in the random order. */
  ghost predicate Keeps(b: Book, c: Book, id: int) {
    id in b.info && id in c.info && c.info[id] == b.info[id].(randomPos := c.info[id].randomPos)
  }

  /** An unplaced entry gets the given "new" cell, and whatever was there loses it. */
  lemma TakeOver(h: Hashes, b: Book, id: int, s: Slot, limbo: set<int>, offset: int)
    requires Core(h, b, limbo, offset) && id in limbo && s in b.news
    requires s.pos == h.Position(b.key, true, s.bucket, b.info[id].service)
    ensures Keeps(b, Cleared(b, s), id)
    ensures Core(h, Referenced(Cleared(b, s), id, s), limbo - {id}, offset - 1)
  {
    LimboHasNoSlot(h, b, limbo, offset, id, s);
    CoreClearable(h, b, limbo, offset, s);
    ClearedOthers(b, s, id);
    assert Cleared(b, s).key == b.key;
    var c := Cleared(b, s);
    assert Core(h, c, limbo, offset) && c.news[s] == NONE by { ClearedCore(h, b, s, limbo, offset); }
    ReferencedCore(h, c, id, s, limbo, offset);
  }

  lemma EvictionReady(h: Hashes, b: Book, prev: int, limbo: set<int>)
    requires Core(h, b, limbo, 0) && prev in b.info && b.info[prev].inTried
    ensures var c := Evicted(h, b, prev);
      var u := h.NewSlot(b.key, b.info[prev].service, b.info[prev].source);
      && Core(h, c, limbo + {prev}, 0) && u in c.news
      && Keeps(c, Cleared(c, u), prev)
      && Core(h, Referenced(Cleared(c, u), prev, u), limbo, -1)
  {
    hide AddrIndexed;
    hide RandomIndexed;
    var c := Evicted(h, b, prev);
    EvictedCore(h, b, prev, limbo, 0);
    var u := h.NewSlot(b.key, b.info[prev].service, b.info[prev].source);
    TakeOver(h, c, prev, u, limbo + {prev}, 0);
    assert limbo + {prev} - {prev} == limbo;
  }

  /** What demoting the occupant of a "tried" cell relies on. */
  ghost predicate Demotable(h: Hashes, b: Book, prev: int) {
    && prev in b.info
    && h.TriedSlot(b.key, b.info[prev].service) in b.tried
    && var c := Evicted(h, b, prev);
    var u := h.NewSlot(b.key, b.info[prev].service, b.info[prev].source);
    && Clearable(c, u) && c.news[u] != prev
    && prev in Cleared(c, u).info && Cleared(c, u).info[prev].refCount == 0
  }

  /** The occupant of a "tried" cell takes a "new" cell instead, not yet counted there. */
  function Fallen(h: Hashes, b: Book, prev: int): Book
    requires Demotable(h, b, prev)
  {
    var u := h.NewSlot(b.key, b.info[prev].service, b.info[prev].source);
    Referenced(Cleared(Evicted(h, b, prev), u), prev, u)
  }

  /** Room is made in the "tried" cell of a promoted entry: its occupant goes back to "new". */
  function Demoted(h: Hashes, b: Book, prev: int): Book
    requires Demotable(h, b, prev)
  {
    CountedIn(Fallen(h, b, prev))
  }

  lemma DemotionReady(h: Hashes, b: Book, prev: int, limbo: set<int>)
    requires Core(h, b, limbo, 0) && prev in b.info && b.info[prev].inTried
    ensures Demotable(h, b, prev)
  {
    var c := Evicted(h, b, prev);
    var u := h.NewSlot(b.key, b.info[prev].service, b.info[prev].source);
    assert Core(h, c, limbo + {prev}, 0) by { EvictedCore(h, b, prev, limbo, 0); }
    assert c.news[u] != prev by { LimboHasNoSlot(h, c, limbo + {prev}, 0, prev, u); }
    assert Clearable(c, u) by { CoreClearable(h, c, limbo + {prev}, 0, u); }
    ClearedOthers(c, u, prev);
  }

  lemma FallenCore(h: Hashes, b: Book, prev: int, limbo: set<int>)
    requires Core(h, b, limbo, 0) && prev in b.info && b.info[prev].inTried
    requires Demotable(h, b, prev)
    ensures Core(h, Fallen(h, b, prev), limbo, -1)
  {
    EvictionReady(h, b, prev, limbo);
  }

  lemma DemotedCore(h: Hashes, b: Book, prev: int, limbo: set<int>)
    requires Core(h, b, limbo, 0) && prev in b.info && b.info[prev].inTried
    requires Demotable(h, b, prev)
    ensures Core(h, Demoted(h, b, prev), limbo, 0)
  {
    FallenCore(h, b, prev, limbo);
    CountShift(h, Fallen(h, b, prev), limbo, 0);
  }

  /** The demoted entry holds one "new" cell. */
  lemma DemotedEffect(h: Hashes, b: Book, prev: int)
    requires Demotable(h, b, prev)
    ensures var r := Demoted(h, b, prev);
      var u := h.NewSlot(b.key, b.info[prev].service, b.info[prev].source);
      && r.key == b.key && r.tried == b.tried[h.TriedSlot(b.key, b.info[prev].service) := NONE]
      && prev in r.info && r.info[prev].refCount == 1 && r.info[prev].service == b.info[prev].service
      && u in b.news && r.news == b.news[u := prev]
  {
    var c := Evicted(h, b, prev);
    var u := h.NewSlot(b.key, b.info[prev].service, b.info[prev].source);
    ClearedTables(c, u);
    ClearedOthers(c, u, prev);
  }

  lemma DemotedOthers(h: Hashes, b: Book, prev: int, x: int)
    requires Demotable(h, b, prev) && x in b.info && x != prev
    requires b.news[h.NewSlot(b.key, b.info[prev].service, b.info[prev].source)] != x
    ensures Keeps(b, Demoted(h, b, prev), x)
  {
    var c := Evicted(h, b, prev);
    ClearedOthers(c, h.NewSlot(b.key, b.info[prev].service, b.info[prev].source), x);
  }

  /** What `MakeTried` relies on. */
  ghost predicate Promotable(h: Hashes, b: Book, id: int) {
    && Listed(h, b, id)
    && var k := h.TriedSlot(b.key, b.info[id].service);
    && k in b.tried
    && (b.tried[k] != NONE ==>
          && Demotable(h, Unlisted(b, id), b.tried[k])
          && h.TriedSlot(b.key, Unlisted(b, id).info[b.tried[k]].service) == k
          && id in Demoted(h, Unlisted(b, id), b.tried[k]).info)
  }

  /** The entry is out of the "new" cells and its "tried" cell is free. */
  function Vacated(h: Hashes, b: Book, id: int): Book
    requires Promotable(h, b, id)
  {
    var prev := b.tried[h.TriedSlot(b.key, b.info[id].service)];
    if prev != NONE then Demoted(h, Unlisted(b, id), prev) else Unlisted(b, id)
  }

  /** The entry moves from the "new" cells to its "tried" cell (`MakeTried`). */
  function Promoted(h: Hashes, b: Book, id: int): Book
    requires Promotable(h, b, id)
  {
    Seated(h, Vacated(h, b, id), id)
  }

  lemma VacatedCore(h: Hashes, b: Book, id: int)
    requires Inv(h, b) && id in b.info && !b.info[id].inTried
    ensures Promotable(h, b, id)
    ensures var r := Vacated(h, b, id);
      && Core(h, r, {id}, 0) && id in r.info
      && r.info[id] == b.info[id].(refCount := 0, randomPos := r.info[id].randomPos)
      && r.key == b.key && h.TriedSlot(b.key, b.info[id].service) in r.tried
      && r.tried[h.TriedSlot(b.key, b.info[id].service)] == NONE
  {
    UnlistedCore(h, b, id, {}, 0);
    assert {} + {id} == {id};
    var c := Unlisted(b, id);
    if c.tried[h.TriedSlot(b.key, b.info[id].service)] != NONE {
      RoomMade(h, c, id);
    }
  }

  lemma RoomMade(h: Hashes, c: Book, id: int)
    requires Core(h, c, {id}, 0) && id in c.info
    requires h.TriedSlot(c.key, c.info[id].service) in c.tried
    requires c.tried[h.TriedSlot(c.key, c.info[id].service)] != NONE
    ensures var k := h.TriedSlot(c.key, c.info[id].service);
      && Demotable(h, c, c.tried[k])
      && var d := Demoted(h, c, c.tried[k]);
      && Core(h, d, {id}, 0) && k in d.tried && d.tried[k] == NONE && d.key == c.key && Keeps(c, d, id)
  {
    var prev := c.tried[h.TriedSlot(c.key, c.info[id].service)];
    assert Demotable(h, c, prev) by { DemotionReady(h, c, prev, {id}); }
    DemotedCore(h, c, prev, {id});
    DemotedEffect(h, c, prev);
    LimboHasNoSlot(h, c, {id}, 0, id, h.NewSlot(c.key, c.info[prev].service, c.info[prev].source));
    DemotedOthers(h, c, prev, id);
  }

  lemma PromotedInv(h: Hashes, b: Book, id: int)
    requires Inv(h, b) && id in b.info && !b.info[id].inTried
    ensures Promotable(h, b, id)
    ensures Inv(h, Promoted(h, b, id))
  {
    VacatedCore(h, b, id);
    SeatedCore(h, Vacated(h, b, id), id, {id}, 0);
    assert {id} - {id} == {};
  }

  lemma CountShift(h: Hashes, b: Book, limbo: set<int>, offset: int)
    requires Core(h, b, limbo, offset - 1)
    ensures Core(h, CountedIn(b), limbo, offset)
  {
    hide Indexed;
    var c := CountedIn(b);
    SameIndexes(b, c);
    assert TriedIds(c) == TriedIds(b);
    assert NewIds(c, limbo) == NewIds(b, limbo);
  }

  lemma ReferencedCore(h: Hashes, b: Book, id: int, s: Slot, limbo: set<int>, offset: int)
    requires Core(h, b, limbo, offset)
    requires id in b.info && !b.info[id].inTried && b.info[id].refCount < NEW_BUCKETS_PER_ADDRESS
    requires s in b.news && b.news[s] == NONE
    requires s.pos == h.Position(b.key, true, s.bucket, b.info[id].service)
    ensures Core(h, Referenced(b, id, s), limbo - {id}, if id in limbo then offset - 1 else offset)
  {
    hide Indexed;
    hide Placed;
    var e := b.info[id].(refCount := b.info[id].refCount + 1);
    IndexedMeans(b);
    assert 0 <= id;
    EntryIndexed(b, id, e);
    SameIndexes(b.(info := b.info[id := e]), Referenced(b, id, s));
    ReferencedPlaced(h, b, id, s, limbo, offset);
  }

  // ----- changes to the statistics of one entry

  /** Everything except the bookkeeping of entry `id` (and the time of the last success) stays. */
  lemma StatsInv(h: Hashes, b: Book, id: int, e: Info, lastGood: int)
    requires Inv(h, b) && id in b.info
    requires e.service == b.info[id].service && e.randomPos == b.info[id].randomPos
    requires e.refCount == b.info[id].refCount && e.inTried == b.info[id].inTried
    ensures Inv(h, b.(info := b.info[id := e], lastGood := lastGood))
  {
    hide Indexed;
    hide Placed;
    var c := b.(info := b.info[id := e], lastGood := lastGood);
    EntryIndexed(b, id, e);
    SameIndexes(b.(info := b.info[id := e]), c);
    SamePlacementPlaced(h, b, c, {}, 0);
  }

  lemma LastGoodInv(h: Hashes, b: Book, lastGood: int)
    requires Inv(h, b)
    ensures Inv(h, b.(lastGood := lastGood))
  {
    hide Indexed;
    hide Placed;
    var c := b.(lastGood := lastGood);
    SameIndexes(b, c);
    SamePlacementPlaced(h, b, c, {}, 0);
  }

  /** The entry of exactly this service, if there is one; several ports of one host count as unknown. */
  predicate Knows(b: Book, who: Service) {
    who.addr in b.addr && b.addr[who.addr] in b.info && b.info[b.addr[who.addr]].service == who
  }

  /** A success is recorded with the entry. */
  function Marked(b: Book, who: Service, time: int): Book
    requires Knows(b, who)
  {
    var id := b.addr[who.addr];
    b.(info := b.info[id := b.info[id].(lastSuccess := time, lastTry := time, attempts := 0)],
       lastGood := time)
  }

  lemma MarkedInv(h: Hashes, b: Book, who: Service, time: int)
    requires Inv(h, b) && Knows(b, who)
    ensures Inv(h, Marked(b, who, time))
  {
    var id := b.addr[who.addr];
    StatsInv(h, b, id, b.info[id].(lastSuccess := time, lastTry := time, attempts := 0), time);
  }

  ghost predicate HasNewSlot(h: Hashes, b: Book, id: int) {
    id in b.info &&
    exists s :: s in b.news && b.news[s] == id && s.pos == h.Position(b.key, true, s.bucket, b.info[id].service)
  }

  lemma NewHasSlot(h: Hashes, b: Book, id: int)
    requires Inv(h, b) && id in b.info && !b.info[id].inTried
    ensures HasNewSlot(h, b, id)
  {
    assert SlotsOf(b.news, id) != {};
    var s :| s in SlotsOf(b.news, id);
    assert b.news[s] == id;
  }

  /** What `Good_` relies on when it moves a known entry: a bucket will be found. */
  ghost predicate CanPromote(h: Hashes, c: Book, id: int) {
    id in c.info && (c.info[id].inTried || (HasNewSlot(h, c, id) && Promotable(h, c, id)))
  }

  /** What becomes of an entry after a success: it moves to "tried" unless it is there. */
  function Succeeded(h: Hashes, c: Book, id: int): Book
    requires CanPromote(h, c, id)
  {
    if c.info[id].inTried then c else Promoted(h, c, id)
  }

  lemma SucceededInv(h: Hashes, c: Book, id: int)
    requires Inv(h, c) && id in c.info
    ensures CanPromote(h, c, id)
    ensures Inv(h, Succeeded(h, c, id))
  {
    if !c.info[id].inTried {
      NewHasSlot(h, c, id);
      PromotedInv(h, c, id);
    }
  }

  lemma GoodReady(h: Hashes, b: Book, who: Service, time: int)
    requires Inv(h, b) && Knows(b, who)
    ensures CanPromote(h, Marked(b, who, time), b.addr[who.addr])
    ensures Inv(h, Succeeded(h, Marked(b, who, time), b.addr[who.addr]))
  {
    MarkedInv(h, b, who, time);
    SucceededInv(h, Marked(b, who, time), b.addr[who.addr]);
  }

  function Good(h: Hashes, b: Book, who: Service, time: int): (r: Book)
    requires Inv(h, b)
    ensures Inv(h, r)
  {
    if !Knows(b, who) then
      LastGoodInv(h, b, time);
      b.(lastGood := time)
    else
      GoodReady(h, b, who, time);
      Succeeded(h, Marked(b, who, time), b.addr[who.addr])
  }

  function Attempt(h: Hashes, b: Book, who: Service, countFailure: bool, time: int): (r: Book)
    requires Inv(h, b)
    ensures Inv(h, r)
  {
    if !Knows(b, who) then b else
    var id := b.addr[who.addr];
    var e := b.info[id].(lastTry := time);
    var f := if countFailure && e.lastCountAttempt < b.lastGood
             then e.(lastCountAttempt := time, attempts := e.attempts + 1) else e;
    StatsInv(h, b, id, f, b.lastGood);
    b.(info := b.info[id := f])
  }

  function Connected(h: Hashes, b: Book, who: Service, time: int): (r: Book)
    requires Inv(h, b)
    ensures Inv(h, r)
  {
    if !Knows(b, who) then b else
    var id := b.addr[who.addr];
    var e := if time - b.info[id].time > 20 * 60 then b.info[id].(time := time) else b.info[id];
    StatsInv(h, b, id, e, b.lastGood);
    b.(info := b.info[id := e])
  }

  function SetServices(h: Hashes, b: Book, who: Service, services: set<nat>): (r: Book)
    requires Inv(h, b)
    ensures Inv(h, r)
  {
    if !Knows(b, who) then b else
    var id := b.addr[who.addr];
    var e := b.info[id].(services := services);
    StatsInv(h, b, id, e, b.lastGood);
    b.(info := b.info[id := e])
  }

  // ----- Add_

  /** What an announcement changes in a known entry before the tables are considered. */
  function Refreshed(e: Info, a: Address, penalty: int, now: int): Info {
    var interval := if now - a.time < 24 * 60 * 60 then 60 * 60 else 24 * 60 * 60;
    var time := if a.time != 0 && (e.time == 0 || e.time < a.time - interval - penalty)
                then Max(0, a.time - penalty) else e.time;
    e.(time := time, services := e.services + a.services)
  }

  /** How much harder each further reference is to get: 2^n after n of them. */
  function Factor(n: nat): (f: nat)
    ensures f >= 1 && (f > 1 <==> n > 0)
  {
    if n == 0 then 1 else 2 * Factor(n - 1)
  }

  /** Whether `Add_` stops at a known entry, before it looks at the tables; `rnd` is a raw random number. */
  predicate Settled(e: Info, a: Address, rnd: nat)
    requires 0 <= e.refCount
  {
    || a.time == 0 || (e.time != 0 && a.time <= e.time)
    || e.inTried
    || e.refCount == NEW_BUCKETS_PER_ADDRESS
    || (e.refCount > 0 && rnd % Factor(e.refCount) != 0)
  }

  /** Whether the entry in a wanted cell gives way to entry `id`. */
  predicate GivesWay(b: Book, s: Slot, id: int, now: int)
    requires s in b.news && id in b.info
  {
    || b.news[s] == NONE
    || (b.news[s] in b.info &&
        (IsTerrible(b.info[b.news[s]], now) || (b.info[b.news[s]].refCount > 1 && b.info[id].refCount == 0)))
  }

  /** What the last part of `Add_` relies on. */
  ghost predicate Insertable(h: Hashes, b: Book, id: int, source: NetAddr) {
    && id in b.info && !b.info[id].inTried
    && var s := h.NewSlot(b.key, b.info[id].service, source);
    Clearable(b, s) && (b.news[s] != id ==> id in Cleared(b, s).info)
  }

  /** The entry enters the "new" cell of the given source, or is dropped if it has no other. */
  function Inserted(h: Hashes, b: Book, id: int, source: NetAddr, now: int): Book
    requires Insertable(h, b, id, source)
  {
    var s := h.NewSlot(b.key, b.info[id].service, source);
    if b.news[s] == id then b
    else if GivesWay(b, s, id, now) then Referenced(Cleared(b, s), id, s)
    else if b.info[id].refCount == 0 then Deleted(b, id)
    else b
  }

  lemma InsertedInv(h: Hashes, b: Book, id: int, source: NetAddr, now: int)
    requires id in b.info
    requires Inv(h, b) || Core(h, b, {id}, 1)
    requires !b.info[id].inTried && b.info[id].refCount < NEW_BUCKETS_PER_ADDRESS
    ensures Insertable(h, b, id, source)
    ensures Inv(h, Inserted(h, b, id, source, now))
  {
    var s := h.NewSlot(b.key, b.info[id].service, source);
    if Inv(h, b) {
      assert b.info[id].refCount > 0;
      CoreClearable(h, b, {}, 0, s);
      if b.news[s] != id {
        ReferenceAgain(h, b, id, s);
      }
    } else {
      InsertedNewInv(h, b, id, source, now);
    }
  }

  lemma InsertedNewInv(h: Hashes, b: Book, id: int, source: NetAddr, now: int)
    requires id in b.info && Core(h, b, {id}, 1)
    ensures Insertable(h, b, id, source)
    ensures Inv(h, Inserted(h, b, id, source, now))
    ensures b.news[h.NewSlot(b.key, b.info[id].service, source)] != id
  {
    var s := h.NewSlot(b.key, b.info[id].service, source);
    assert {id} - {id} == {};
    CoreClearable(h, b, {id}, 1, s);
    LimboHasNoSlot(h, b, {id}, 1, id, s);
    TakeOver(h, b, id, s, {id}, 1);
    DeletedIndexed(b, id);
    DeletedPlaced(h, b, id, {id}, 1);
  }

  lemma ReferenceAgain(h: Hashes, b: Book, id: int, s: Slot)
    requires Inv(h, b) && id in b.info && s in b.news && b.news[s] != id
    requires !b.info[id].inTried && b.info[id].refCount < NEW_BUCKETS_PER_ADDRESS
    requires s.pos == h.Position(b.key, true, s.bucket, b.info[id].service)
    ensures id in Cleared(b, s).info
    ensures Inv(h, Referenced(Cleared(b, s), id, s))
  {
    CoreClearable(h, b, {}, 0, s);
    ClearedOthers(b, s, id);
    assert Cleared(b, s).key == b.key;
    var c := Cleared(b, s);
    assert Core(h, c, {}, 0) && c.news[s] == NONE by { ClearedCore(h, b, s, {}, 0); }
    ReferencedCore(h, c, id, s, {}, 0);
    assert {} - {id} == {};
  }

  /** A new entry is created and counted, but not yet placed. */
  function Announced(b: Book, a: Address, source: NetAddr, penalty: int): Book {
    CountedIn(Created(b, NewInfo(a, source).(time := Max(0, a.time - penalty))))
  }

  lemma AnnouncedCore(h: Hashes, b: Book, a: Address, source: NetAddr, penalty: int)
    requires Inv(h, b) && a.service.addr !in b.addr
    ensures Core(h, Announced(b, a, source, penalty), {b.idCount}, 1)
  {
    hide Indexed;
    hide Placed;
    var e := NewInfo(a, source).(time := Max(0, a.time - penalty));
    var c := Created(b, e);
    IndexedMeans(b);
    CreatedIndexed(b, e);
    CreatedPlaced(h, b, e, {}, 0);
    assert {} + {b.idCount} == {b.idCount};
    CountShift(h, c, {b.idCount}, 1);
  }

  function Add(h: Hashes, b: Book, a: Address, source: NetAddr, timePenalty: int,
               routable: bool, now: int, rnd: nat): (r: Book)
    requires Inv(h, b)
    ensures Inv(h, r)
  {
    if !routable then b else
    var penalty := if a.service.addr == source then 0 else timePenalty;
    if a.service.addr in b.addr then
      var id := b.addr[a.service.addr];
      var e := Refreshed(b.info[id], a, penalty, now);
      StatsInv(h, b, id, e, b.lastGood);
      var c := b.(info := b.info[id := e]);
      if Settled(e, a, rnd) then c else
      InsertedInv(h, c, id, source, now);
      Inserted(h, c, id, source, now)
    else
      var c := Announced(b, a, source, penalty);
      AnnouncedCore(h, b, a, source, penalty);
      InsertedInv(h, c, b.idCount, source, now);
      Inserted(h, c, b.idCount, source, now)
  }

  // ----- GetAddr_

  function AddressOf(e: Info): Address {
    Address(e.service, e.services, e.time)
  }

  /** The place drawn in step `n` among `size`; `pick(n)` is the random number of that step. */
  function Draw(size: nat, n: nat, pick: nat -> nat): (j: nat)
    requires n < size
    ensures n <= j < size
  {
    n + pick(n) % (size - n)
  }

  /** Step `n` of the partial shuffle. */
  function Drawn(b: Book, n: nat, pick: nat -> nat): Book
    requires Indexed(b) && n < |b.random|
  {
    Swapped(b, n, Draw(|b.random|, n, pick))
  }

  lemma DrawnIndexed(b: Book, n: nat, pick: nat -> nat)
    requires Indexed(b) && n < |b.random|
    ensures Indexed(Drawn(b, n, pick)) && |Drawn(b, n, pick).random| == |b.random|
  {
    SwappedIndexed(b, n, Draw(|b.random|, n, pick));
  }

  /** The loop of `GetAddr_` from step `n` on, with the list gathered so far. */
  function Sampled(
    b: Book, n: nat, pick: nat -> nat, limit: int, now: int, out: seq<Address>): (r: (Book, seq<Address>))
    requires Indexed(b) && n <= |b.random|
    ensures Indexed(r.0)
    decreases |b.random| - n
  {
    if n == |b.random| || |out| >= limit then (b, out) else
    DrawnIndexed(b, n, pick);
    var c := Drawn(b, n, pick);
    var e := c.info[c.random[n]];
    Sampled(c, n + 1, pick, limit, now, if IsTerrible(e, now) then out else out + [AddressOf(e)])
  }

  lemma SampledNext(b: Book, n: nat, pick: nat -> nat, limit: int, now: int, out: seq<Address>)
    requires Indexed(b) && n < |b.random| && |out| < limit
    ensures var c := Drawn(b, n, pick);
      && Indexed(c) && |c.random| == |b.random| && c.random[n] in c.info
      && var e := c.info[c.random[n]];
         Sampled(b, n, pick, limit, now, out) ==
           Sampled(c, n + 1, pick, limit, now, if IsTerrible(e, now) then out else out + [AddressOf(e)])
  {
    DrawnIndexed(b, n, pick);
  }

  lemma SampledEnd(b: Book, n: nat, pick: nat -> nat, limit: int, now: int, out: seq<Address>)
    requires Indexed(b) && n <= |b.random| && (n == |b.random| || |out| >= limit)
    ensures Sampled(b, n, pick, limit, now, out) == (b, out)
  {
  }

  function SampleSize(b: Book): int {
    var n := GETADDR_MAX_PCT * |b.random| / 100;
    if n > GETADDR_MAX then GETADDR_MAX else n
  }

  /** The good addresses among the ids listed, in that order. */
  function Usable(info: map<int, Info>, ids: seq<int>, now: int): seq<Address>
    requires forall i :: 0 <= i < |ids| ==> ids[i] in info
  {
    if ids == [] then [] else
    var e := info[ids[|ids| - 1]];
    Usable(info, ids[..|ids| - 1], now) + if IsTerrible(e, now) then [] else [AddressOf(e)]
  }

  lemma {:induction false} UsableSame(info: map<int, Info>, info': map<int, Info>, ids: seq<int>, now: int)
    requires forall i :: 0 <= i < |ids| ==> ids[i] in info && ids[i] in info'
    requires forall i :: 0 <= i < |ids| ==>
      info'[ids[i]] == info[ids[i]].(randomPos := info'[ids[i]].randomPos)
    ensures Usable(info, ids, now) == Usable(info', ids, now)
  {
    if ids != [] {
      UsableSame(info, info', ids[..|ids| - 1], now);
      var id := ids[|ids| - 1];
      assert info'[id] == info[id].(randomPos := info'[id].randomPos);
    }
  }

  /** No entry comes, goes or changes, except for its place in the random order. */
  ghost predicate Shuffled(b: Book, c: Book) {
    && c == b.(info := c.info, random := c.random)
    && (forall id :: id in b.info ==> Keeps(b, c, id))
    && (forall id :: id in c.info ==> id in b.info)
  }

  lemma ShuffledTrans(b: Book, c: Book, d: Book)
    requires Shuffled(b, c) && Shuffled(c, d)
    ensures Shuffled(b, d)
  {
    forall id | id in b.info ensures Keeps(b, d, id) {
      assert Keeps(b, c, id) && Keeps(c, d, id);
    }
  }

  lemma DrawnFacts(b: Book, n: nat, pick: nat -> nat)
    requires Indexed(b) && n < |b.random|
    ensures var c := Drawn(b, n, pick);
      && |c.random| == |b.random| && c.random[..n] == b.random[..n]
      && Shuffled(b, c)
  {
  }

  lemma DrawnUsable(b: Book, n: nat, pick: nat -> nat, now: int)
    requires Indexed(b) && n < |b.random|
    requires Indexed(Drawn(b, n, pick)) && |Drawn(b, n, pick).random| == |b.random|
    ensures var c := Drawn(b, n, pick); var e := c.info[c.random[n]];
      Usable(c.info, c.random[..n + 1], now) ==
      Usable(b.info, b.random[..n], now) + if IsTerrible(e, now) then [] else [AddressOf(e)]
  {
    var c := Drawn(b, n, pick);
    DrawnFacts(b, n, pick);
    forall i | 0 <= i < n
      ensures b.random[..n][i] in c.info
      ensures c.info[b.random[i]] == b.info[b.random[i]].(randomPos := c.info[b.random[i]].randomPos)
    {
      var id := b.random[i];
      assert Keeps(b, c, id);
    }
    UsableSame(b.info, c.info, b.random[..n], now);
    assert c.random[..n + 1][..n] == b.random[..n];
  }

  /** The list `GetAddr_` returns is read off the front of the shuffled vector. */
  lemma {:induction false} SampledSpec(b: Book, n: nat, pick: nat -> nat, limit: nat, now: int, out: seq<Address>)
    returns (k: nat)
    requires Indexed(b) && n <= |b.random| && |out| <= limit
    requires out == Usable(b.info, b.random[..n], now)
    ensures var (c, list) := Sampled(b, n, pick, limit, now, out);
      && n <= k <= |c.random| && (k == |c.random| || |list| >= limit)
      && list == Usable(c.info, c.random[..k], now)
      && |list| <= limit
      && Shuffled(b, c)
    decreases |b.random| - n
  {
    if n == |b.random| || |out| >= limit {
      k := n;
    } else {
      DrawnIndexed(b, n, pick);
      var c := Drawn(b, n, pick);
      DrawnUsable(b, n, pick, now);
      var e := c.info[c.random[n]];
      var out' := if IsTerrible(e, now) then out else out + [AddressOf(e)];
      k := SampledSpec(c, n + 1, pick, limit, now, out');
      assert Shuffled(b, c) by { DrawnFacts(b, n, pick); }
      ShuffledTrans(b, c, Sampled(c, n + 1, pick, limit, now, out').0);
    }
  }

  lemma {:induction false} UsableMembers(info: map<int, Info>, ids: seq<int>, now: int, i: nat)
    returns (p: nat)
    requires forall k :: 0 <= k < |ids| ==> ids[k] in info
    requires i < |Usable(info, ids, now)|
    ensures p < |ids| && Usable(info, ids, now)[i] == AddressOf(info[ids[p]])
    ensures !IsTerrible(info[ids[p]], now)
    ensures forall k :: p < k <= |ids| ==> i < |Usable(info, ids[..k], now)|
    ensures |Usable(info, ids[..p], now)| == i
  {
    var l := |ids| - 1;
    var e := info[ids[l]];
    if i < |Usable(info, ids[..l], now)| {
      p := UsableMembers(info, ids[..l], now, i);
      assert ids[..l][..p] == ids[..p];
      forall k | p < k <= |ids| ensures i < |Usable(info, ids[..k], now)| {
        if k <= l {
          assert ids[..l][..k] == ids[..k];
        } else {
          assert ids[..k] == ids;
        }
      }
    } else {
      p := l;
      assert ids[..|ids|] == ids;
    }
  }

  lemma ShuffledInv(h: Hashes, b: Book, c: Book)
    requires Inv(h, b) && Indexed(c) && Shuffled(b, c)
    ensures Inv(h, c)
  {
    forall id | id in b.info ensures c.info[id].service == b.info[id].service
      && c.info[id].refCount == b.info[id].refCount && c.info[id].inTried == b.info[id].inTried
    {
      assert Keeps(b, c, id);
    }
    SamePlacementPlaced(h, b, c, {}, 0);
  }

  function GetAddr(h: Hashes, b: Book, pick: nat -> nat, now: int): (r: (Book, seq<Address>))
    requires Inv(h, b)
    ensures Inv(h, r.0)
  {
    var r := Sampled(b, 0, pick, SampleSize(b), now, []);
    assert Inv(h, r.0) by {
      var k := SampledSpec(b, 0, pick, SampleSize(b), now, []);
      ShuffledInv(h, b, r.0);
    }
    r
  }

  lemma {:induction false} UsableComplete(info: map<int, Info>, ids: seq<int>, now: int, p: nat)
    requires forall k :: 0 <= k < |ids| ==> ids[k] in info
    requires p < |ids| && !IsTerrible(info[ids[p]], now)
    ensures AddressOf(info[ids[p]]) in Usable(info, ids, now)
  {
    var l := |ids| - 1;
    if p < l {
      UsableComplete(info, ids[..l], now, p);
      assert ids[..l][p] == ids[p];
    }
  }

  /** An address `GetAddr_` may hand out: that of a known entry which is not terrible. */
  ghost predicate Offered(b: Book, a: Address, now: int) {
    && a.service.addr in b.addr && b.addr[a.service.addr] in b.info
    && a == AddressOf(b.info[b.addr[a.service.addr]])
    && !IsTerrible(b.info[b.addr[a.service.addr]], now)
  }

  lemma OfferedBefore(b: Book, c: Book, id: int, now: int)
    requires Indexed(b) && Indexed(c) && Shuffled(b, c) && id in c.info && !IsTerrible(c.info[id], now)
    ensures Offered(b, AddressOf(c.info[id]), now)
    ensures c.addr[c.info[id].service.addr] == id
  {
    assert id in b.info && Keeps(b, c, id);
  }

  /** `GetAddr_` returns at most the allowed number of addresses, all of usable entries, no host twice,
      and a list below the allowance holds every usable address. */
  lemma GetAddrSample(h: Hashes, b: Book, pick: nat -> nat, now: int)
    requires Inv(h, b)
    ensures var list := GetAddr(h, b, pick, now).1;
      && |list| <= SampleSize(b) && 100 * |list| <= 23 * |b.random| && |list| <= 2500
      && (forall i :: 0 <= i < |list| ==> Offered(b, list[i], now))
      && (forall i, j :: 0 <= i < j < |list| ==> list[i].service.addr != list[j].service.addr)
      && (|list| < SampleSize(b) ==>
            forall id :: id in b.info && !IsTerrible(b.info[id], now) ==> AddressOf(b.info[id]) in list)
  {
    hide Placed;
    var k := SampledSpec(b, 0, pick, SampleSize(b), now, []);
    var (c, list) := Sampled(b, 0, pick, SampleSize(b), now, []);
    var ids := c.random[..k];
    assert Indexed(b) && Indexed(c);
    forall i | 0 <= i < |list| ensures Offered(b, list[i], now) {
      var p := UsableMembers(c.info, ids, now, i);
      OfferedBefore(b, c, ids[p], now);
    }
    forall i, j | 0 <= i < j < |list| ensures list[i].service.addr != list[j].service.addr {
      UsableHostsDiffer(c, ids, now, i, j);
    }
    if |list| < SampleSize(b) {
      forall id | id in b.info && !IsTerrible(b.info[id], now) ensures AddressOf(b.info[id]) in list {
        assert Keeps(b, c, id);
        UsableComplete(c.info, ids, now, c.info[id].randomPos);
      }
    }
  }

  lemma UsableHostsDiffer(c: Book, ids: seq<int>, now: int, i: nat, j: nat)
    requires Indexed(c) && ids <= c.random
    requires forall q :: 0 <= q < |ids| ==> ids[q] in c.info
    requires i < j < |Usable(c.info, ids, now)|
    ensures Usable(c.info, ids, now)[i].service.addr != Usable(c.info, ids, now)[j].service.addr
  {
    var p := UsableMembers(c.info, ids, now, i);
    var q := UsableMembers(c.info, ids, now, j);
    assert p != q;
    assert c.info[c.random[p]].randomPos == p && c.info[c.random[q]].randomPos == q;
    assert ids[p] == c.random[p] && ids[q] == c.random[q];
  }

  // ----- what the two table operations achieve

  lemma TriedHasSlot(h: Hashes, b: Book, id: int)
    requires Inv(h, b) && id in b.info && b.info[id].inTried
    ensures var k := h.TriedSlot(b.key, b.info[id].service); k in b.tried && b.tried[k] == id
    ensures SlotsOf(b.news, id) == {}
  {
  }

  lemma PromotedSeat(h: Hashes, b: Book, id: int)
    requires Inv(h, b) && id in b.info && !b.info[id].inTried
    ensures Promotable(h, b, id)
    ensures var r := Promoted(h, b, id);
      && r.key == b.key && id in r.info && r.info[id].service == b.info[id].service
      && r.tried[h.TriedSlot(b.key, b.info[id].service)] == id
      && SlotsOf(r.news, id) == {}
  {
    PromotedInv(h, b, id);
    VacatedCore(h, b, id);
    TriedHasSlot(h, Promoted(h, b, id), id);
  }

  /** After `Good_` on a known service, its entry holds its "tried" cell and no "new" cell. */
  lemma GoodSeats(h: Hashes, b: Book, who: Service, time: int)
    requires Inv(h, b) && Knows(b, who)
    ensures var r := Good(h, b, who, time);
      var id := b.addr[who.addr];
      && id in r.info && r.info[id].service == who && r.addr[who.addr] == id
      && r.tried[h.TriedSlot(b.key, who)] == id
      && SlotsOf(r.news, id) == {}
  {
    var id := b.addr[who.addr];
    var c := Marked(b, who, time);
    MarkedInv(h, b, who, time);
    if c.info[id].inTried {
      TriedHasSlot(h, c, id);
    } else {
      PromotedSeat(h, c, id);
    }
  }

  /** The entries a promotion can affect besides the promoted one: the former occupant of its "tried"
      cell, and the entry in the "new" cell which that occupant falls back to. */
  ghost predicate Displaced(h: Hashes, b: Book, who: Service, x: int) {
    var k := h.TriedSlot(b.key, who);
    && k in b.tried && b.tried[k] in b.info
    && var u := h.NewSlot(b.key, b.info[b.tried[k]].service, b.info[b.tried[k]].source);
    x == b.tried[k] || (u in b.news && x == b.news[u])
  }

  lemma PromotedOthers(h: Hashes, b: Book, id: int, x: int)
    requires Promotable(h, b, id) && x != NONE
    requires x in b.info && x != id && !Displaced(h, b, b.info[id].service, x)
    ensures Keeps(b, Promoted(h, b, id), x)
  {
    var c := Unlisted(b, id);
    var prev := c.tried[h.TriedSlot(b.key, b.info[id].service)];
    if prev != NONE {
      assert prev in c.info && prev in b.info;
      DemotedOthers(h, c, prev, x);
    }
  }

  lemma DisplacedSame(h: Hashes, b: Book, c: Book, who: Service, x: int)
    requires c.key == b.key && c.news == b.news && c.tried == b.tried
    requires forall y :: y in b.info <==> y in c.info
    requires forall y :: y in b.info ==> c.info[y].service == b.info[y].service && c.info[y].source == b.info[y].source
    ensures Displaced(h, b, who, x) == Displaced(h, c, who, x)
  {
    var k := h.TriedSlot(b.key, who);
    if k in b.tried {
      var prev := b.tried[k];
      assert prev in b.info <==> prev in c.info;
    }
  }

  lemma GoodOthers(h: Hashes, b: Book, who: Service, time: int, x: int)
    requires Inv(h, b) && Knows(b, who)
    requires x in b.info && x != b.addr[who.addr] && !Displaced(h, b, who, x)
    ensures Keeps(b, Good(h, b, who, time), x)
  {
    hide Placed;
    hide Promoted;
    hide Displaced;
    var id, c := b.addr[who.addr], Marked(b, who, time);
    assert Keeps(b, c, x) && x != NONE;
    assert !Displaced(h, c, who, x) by { DisplacedSame(h, b, c, who, x); }
    assert Inv(h, c) by { MarkedInv(h, b, who, time); }
    if !c.info[id].inTried {
      assert Promotable(h, c, id) by { PromotedInv(h, c, id); }
      assert Keeps(c, Promoted(h, c, id), x) by { PromotedOthers(h, c, id, x); }
    }
  }

  /** The former occupant of the "tried" cell is not lost: it has exactly one "new" cell. */
  lemma PromotedDemotes(h: Hashes, b: Book, id: int)
    requires Inv(h, b) && id in b.info && !b.info[id].inTried
    requires b.tried[h.TriedSlot(b.key, b.info[id].service)] != NONE
    ensures Promotable(h, b, id)
    ensures var r := Promoted(h, b, id);
      var prev := b.tried[h.TriedSlot(b.key, b.info[id].service)];
      && prev in b.info && prev in r.info && r.info[prev].service == b.info[prev].service
      && SlotsOf(r.news, prev) == {h.NewSlot(b.key, b.info[prev].service, b.info[prev].source)}
  {
    PromotedInv(h, b, id);
    var c := Unlisted(b, id);
    var prev := c.tried[h.TriedSlot(b.key, b.info[id].service)];
    DemotedEffect(h, c, prev);
    var u := h.NewSlot(b.key, b.info[prev].service, b.info[prev].source);
    var r := Promoted(h, b, id);
    assert r.news[u] == prev && r.info[prev].refCount == 1;
    OnlySlot(r, prev, u);
  }

  lemma OnlySlot(b: Book, id: int, s: Slot)
    requires |SlotsOf(b.news, id)| == 1 && s in b.news && b.news[s] == id
    ensures SlotsOf(b.news, id) == {s}
  {
    assert |SlotsOf(b.news, id) - {s}| == 0;
    assert SlotsOf(b.news, id) - {s} == {};
  }

  lemma InsertedStores(h: Hashes, b: Book, id: int, source: NetAddr, now: int)
    requires Core(h, b, {id}, 1) && id in b.info && !b.info[id].inTried && b.info[id].refCount == 0
    ensures Insertable(h, b, id, source)
    ensures var r := Inserted(h, b, id, source, now);
      var s := h.NewSlot(b.key, b.info[id].service, source);
      var host := b.info[id].service.addr;
      && s in b.news
      && (GivesWay(b, s, id, now) ==> host in r.addr && r.addr[host] == id && r.news[s] == id)
      && (!GivesWay(b, s, id, now) ==> host !in r.addr && r == Deleted(b, id))
  {
    var s := h.NewSlot(b.key, b.info[id].service, source);
    InsertedNewInv(h, b, id, source, now);
    TakeOver(h, b, id, s, {id}, 1);
  }

  /** An unknown routable address is stored by `Add_` exactly when its cell is free, or held by an entry
      that is terrible or has another cell; otherwise no entry changes. */
  lemma AddStores(h: Hashes, b: Book, a: Address, source: NetAddr, penalty: int, now: int, rnd: nat)
    requires Inv(h, b) && a.service.addr !in b.addr
    ensures var r := Add(h, b, a, source, penalty, true, now, rnd);
      var s := h.NewSlot(b.key, a.service, source);
      && s in b.news
      && (a.service.addr in r.addr <==> Available(b, s, now))
      && (a.service.addr in r.addr ==> r.news[s] == r.addr[a.service.addr])
      && (a.service.addr !in r.addr ==> forall x :: x in b.info ==> Keeps(b, r, x))
  {
    var penalty' := if a.service.addr == source then 0 else penalty;
    var c := Announced(b, a, source, penalty');
    AnnouncedCore(h, b, a, source, penalty');
    var id := b.idCount;
    var s := h.NewSlot(b.key, a.service, source);
    InsertedStores(h, c, id, source, now);
    assert c.news == b.news && c.key == b.key && c.info[id].service == a.service;
    SameOccupant(b, c, id, s, now);
    if !GivesWay(c, s, id, now) {
      forall x | x in b.info ensures Keeps(b, Deleted(c, id), x) {
        DeletedOthers(c, id, x);
      }
    }
  }

  /** The cell is free, or its entry is terrible or has another cell. */
  predicate Available(b: Book, s: Slot, now: int)
    requires s in b.news
  {
    b.news[s] == NONE ||
    (b.news[s] in b.info && (IsTerrible(b.info[b.news[s]], now) || b.info[b.news[s]].refCount > 1))
  }

  lemma SameOccupant(b: Book, c: Book, id: int, s: Slot, now: int)
    requires IdsInRange(b) && id == b.idCount && id in c.info && c.info[id].refCount == 0
    requires c.info == b.info[id := c.info[id]] && c.news == b.news && s in b.news
    requires b.news[s] != NONE ==> b.news[s] in b.info
    ensures GivesWay(c, s, id, now) == Available(b, s, now)
  {
  }

  // ----- runs

  datatype Op =
    | AddOp(a: Address, source: NetAddr, penalty: int, routable: bool, now: int, rnd: nat)
    | GoodOp(who: Service, time: int)
    | AttemptOp(who: Service, countFailure: bool, time: int)
    | ConnectedOp(who: Service, time: int)
    | SetServicesOp(who: Service, services: set<nat>)
    | GetAddrOp(pick: nat -> nat, now: int)

  function Applied(h: Hashes, b: Book, op: Op): (r: Book)
    requires Inv(h, b)
    ensures Inv(h, r)
  {
    match op
    case AddOp(a, source, penalty, routable, now, rnd) => Add(h, b, a, source, penalty, routable, now, rnd)
    case GoodOp(who, time) => Good(h, b, who, time)
    case AttemptOp(who, countFailure, time) => Attempt(h, b, who, countFailure, time)
    case ConnectedOp(who, time) => Connected(h, b, who, time)
    case SetServicesOp(who, services) => SetServices(h, b, who, services)
    case GetAddrOp(pick, now) => GetAddr(h, b, pick, now).0
  }

  /** What `Add_` relies on at its two places of use of the tables. */
  lemma AddReady(h: Hashes, b: Book, a: Address, source: NetAddr, penalty: int, now: int)
    requires Inv(h, b)
    ensures a.service.addr in b.addr ==>
      var id := b.addr[a.service.addr];
      && id in b.info && 0 <= b.info[id].refCount
      && var e := Refreshed(b.info[id], a, penalty, now);
      (!e.inTried && e.refCount != NEW_BUCKETS_PER_ADDRESS ==> Insertable(h, b.(info := b.info[id := e]), id, source))
    ensures a.service.addr !in b.addr ==> Insertable(h, Announced(b, a, source, penalty), b.idCount, source)
  {
    if a.service.addr in b.addr {
      var id := b.addr[a.service.addr];
      var e := Refreshed(b.info[id], a, penalty, now);
      StatsInv(h, b, id, e, b.lastGood);
      if !e.inTried && e.refCount != NEW_BUCKETS_PER_ADDRESS {
        InsertedInv(h, b.(info := b.info[id := e]), id, source, now);
      }
    } else {
      AnnouncedCore(h, b, a, source, penalty);
      InsertedInv(h, Announced(b, a, source, penalty), b.idCount, source, now);
    }
  }

  /** Every run of operations from a cleared manager keeps the invariant. */
  function Run(h: Hashes, key: nat, ops: seq<Op>): (r: Book)
    ensures Inv(h, r)
  {
    EmptyInv(h, key);
    if ops == [] then EmptyBook(key)
    else Applied(h, Run(h, key, ops[..|ops| - 1]), ops[|ops| - 1])
  }

  /** A known entry gains a cell: the announcement is newer than what is recorded, the entry is in "new" and may
      have more cells, the draw of one in 2^references succeeds, and the cell is free or its entry is terrible. */
  ghost predicate Gains(h: Hashes, b: Book, id: int, e: Info, a: Address, source: NetAddr, now: int, rnd: nat)
    requires id in b.info && 0 <= e.refCount
  {
    var s := h.NewSlot(b.key, b.info[id].service, source);
    && a.time != 0 && (e.time == 0 || e.time < a.time)
    && !e.inTried && e.refCount != NEW_BUCKETS_PER_ADDRESS
    && rnd % Factor(e.refCount) == 0
    && s in b.news && Yields(b, s, id, now)
  }

  /** Entry `id` has taken cell `s`, and only the entry that was there is affected. */
  ghost predicate TookCell(b: Book, r: Book, id: int, s: Slot) {
    && s in b.news && r.news == b.news[s := id] && r.tried == b.tried
    && id in b.info && id in r.info
    && r.info[id] == b.info[id].(refCount := b.info[id].refCount + 1, randomPos := r.info[id].randomPos)
    && forall x :: x in b.info && x != id && x != b.news[s] ==> Keeps(b, r, x)
  }

  lemma CellTaken(b: Book, id: int, s: Slot)
    requires Clearable(b, s) && id in b.info && b.news[s] != id && id in Cleared(b, s).info
    ensures TookCell(b, Referenced(Cleared(b, s), id, s), id, s)
  {
    hide Cleared;
    ClearedTables(b, s);
    forall x | x in b.info && x != b.news[s] ensures Keeps(b, Cleared(b, s), x) {
      ClearedOthers(b, s, x);
    }
  }

  /** The cell is free or its entry is terrible. */
  ghost predicate Yields(b: Book, s: Slot, id: int, now: int)
    requires s in b.news
  {
    b.news[s] != id && (b.news[s] == NONE || (b.news[s] in b.info && IsTerrible(b.info[b.news[s]], now)))
  }

  /** What placing an entry that has a cell already comes to. */
  lemma InsertedAgain(h: Hashes, b: Book, id: int, source: NetAddr, now: int)
    requires Inv(h, b) && id in b.info && !b.info[id].inTried && b.info[id].refCount < NEW_BUCKETS_PER_ADDRESS
    ensures Insertable(h, b, id, source)
    ensures var r := Inserted(h, b, id, source, now);
      var s := h.NewSlot(b.key, b.info[id].service, source);
      && s in b.news && (if Yields(b, s, id, now) then TookCell(b, r, id, s) else r == b)
  {
    hide Core;
    hide Cleared;
    hide Referenced;
    hide TookCell;
    hide IsTerrible;
    var s := h.NewSlot(b.key, b.info[id].service, source);
    InsertedInv(h, b, id, source, now);
    HasReference(h, b, id);
    if Yields(b, s, id, now) {
      CellTaken(b, id, s);
    }
  }

  lemma HasReference(h: Hashes, b: Book, id: int)
    requires Inv(h, b) && id in b.info && !b.info[id].inTried
    ensures 1 <= b.info[id].refCount
  {
  }

  /** A known routable address is refreshed by `Add_`, keeps its place, and gains the cell of the source exactly
      under the conditions of `Gains`; the entry that was there is the only other one affected. */
  lemma AddAgain(h: Hashes, b: Book, a: Address, source: NetAddr, penalty: int, now: int, rnd: nat)
    requires Inv(h, b) && a.service.addr in b.addr
    ensures var r := Add(h, b, a, source, penalty, true, now, rnd);
      var id := b.addr[a.service.addr];
      && id in b.info && 0 <= b.info[id].refCount
      && var e := Refreshed(b.info[id], a, if a.service.addr == source then 0 else penalty, now);
      var s := h.NewSlot(b.key, b.info[id].service, source);
      && e.refCount == b.info[id].refCount
      && var gains := Gains(h, b, id, e, a, source, now, rnd);
         && id in r.info
         && r.info[id] == e.(refCount := e.refCount + (if gains then 1 else 0), randomPos := r.info[id].randomPos)
         && s in b.news && r.news == (if gains then b.news[s := id] else b.news) && r.tried == b.tried
         && forall x :: x in b.info && x != id && (gains ==> x != b.news[s]) ==> Keeps(b, r, x)
  {
    hide Refreshed;
    hide IsTerrible;
    hide Inserted;
    hide Core;
    KnownFacts(h, b, a.service.addr, source);
    var id := b.addr[a.service.addr];
    var penalty' := if a.service.addr == source then 0 else penalty;
    var e := Refreshed(b.info[id], a, penalty', now);
    RefreshedKeeps(b.info[id], a, penalty', now);
    StatsInv(h, b, id, e, b.lastGood);
    var c := b.(info := b.info[id := e]);
    if !Settled(e, a, rnd) {
      InsertedAgain(h, c, id, source, now);
      FactorOne(e.refCount);
      var r, s := Add(h, b, a, source, penalty, true, now, rnd), h.NewSlot(b.key, b.info[id].service, source);
      assert r == Inserted(h, c, id, source, now);
      assert Yields(c, s, id, now) == Yields(b, s, id, now);
      assert Gains(h, b, id, e, a, source, now, rnd) == Yields(b, s, id, now);
      assert r.tried == b.tried;
      assert forall x :: x in b.info && x != id && (Yields(b, s, id, now) ==> x != b.news[s]) ==> Keeps(c, r, x);
    }
  }

  lemma RefreshedKeeps(e: Info, a: Address, penalty: int, now: int)
    ensures var f := Refreshed(e, a, penalty, now);
      f.service == e.service && f.refCount == e.refCount && f.inTried == e.inTried && f.randomPos == e.randomPos
  {
  }

  lemma KnownFacts(h: Hashes, b: Book, host: NetAddr, source: NetAddr)
    requires Inv(h, b) && host in b.addr
    ensures b.addr[host] in b.info && 0 <= b.info[b.addr[host]].refCount <= NEW_BUCKETS_PER_ADDRESS
    ensures h.NewSlot(b.key, b.info[b.addr[host]].service, source) in b.news
  {
    var id := b.addr[host];
    assert id in b.info;
    assert b.info[id].refCount == |SlotsOf(b.news, id)|;
  }

  lemma FactorOne(n: nat)
    ensures n == 0 ==> Factor(n) == 1
  {
  }
}
