/** What each operation of the address manager does to the entries it concerns: the whole new entry. */
module AddrEffects {
  import opened Basics
  import opened AddrBook
  import opened AddrOps

  // ----- Good_

  lemma SeatedEntry(h: Hashes, b: Book, id: int)
    requires Inv(h, b) && id in b.info && !b.info[id].inTried
    ensures Promotable(h, b, id)
    ensures var r := Promoted(h, b, id);
      id in r.info && r.info[id] == b.info[id].(refCount := 0, inTried := true, randomPos := r.info[id].randomPos)
  {
    hide Core;
    VacatedCore(h, b, id);
  }

  lemma PromotedLastGood(h: Hashes, b: Book, id: int)
    requires Promotable(h, b, id)
    ensures Promoted(h, b, id).lastGood == b.lastGood
  {
    hide Cleared;
    var c := Unlisted(b, id);
    var prev := b.tried[h.TriedSlot(b.key, b.info[id].service)];
    if prev != NONE {
      var d := Evicted(h, c, prev);
      ClearedTables(d, h.NewSlot(c.key, c.info[prev].service, c.info[prev].source));
    }
  }

  lemma TriedUnreferenced(h: Hashes, b: Book, id: int)
    requires Inv(h, b) && id in b.info && b.info[id].inTried
    ensures b.info[id].refCount == 0
  {
  }

  /** A success is recorded with the time; whether it was in "new" or in "tried", the entry ends up in "tried"
      without references, and all else about it stays. For an unknown service only the time is noted. */
  lemma GoodRecords(h: Hashes, b: Book, who: Service, time: int)
    requires Inv(h, b)
    ensures var r := Good(h, b, who, time);
      if Knows(b, who) then
        var id := b.addr[who.addr];
        && r.lastGood == time && id in r.info
        && r.info[id] == b.info[id].(lastSuccess := time, lastTry := time, attempts := 0, refCount := 0,
                                     inTried := true, randomPos := r.info[id].randomPos)
      else r == b.(lastGood := time)
  {
    hide Inv;
    hide Promoted;
    if Knows(b, who) {
      var id, c := b.addr[who.addr], Marked(b, who, time);
      MarkedInv(h, b, who, time);
      if c.info[id].inTried {
        TriedUnreferenced(h, c, id);
      } else {
        SeatedEntry(h, c, id);
        PromotedLastGood(h, c, id);
      }
    }
  }

  /** So for a minute it is not terrible, whatever was known of it before. */
  lemma GoodIsNotTerrible(h: Hashes, b: Book, who: Service, time: int, now: int)
    requires Inv(h, b) && Knows(b, who) && time != 0 && now <= time + 60
    ensures var r, id := Good(h, b, who, time), b.addr[who.addr];
      id in r.info && !IsTerrible(r.info[id], now)
  {
    hide Good;
    GoodRecords(h, b, who, time);
  }

  /** The table without an entry. */
  function Without(t: Table, id: int): Table {
    map s | s in t :: if t[s] == id then NONE else t[s]
  }

  /** What emptying a cell does to its entry. */
  lemma ClearedOccupant(b: Book, s: Slot)
    requires Clearable(b, s) && b.news[s] != NONE
    ensures var c, x := Cleared(b, s), b.news[s];
      if b.info[x].refCount == 1 then x !in c.info
      else x in c.info && c.info[x] == b.info[x].(refCount := b.info[x].refCount - 1)
  {
    hide Deleted;
    if b.info[b.news[s]].refCount == 1 {
      DeletedTables(Dereferenced(b, s), b.news[s]);
    }
  }

  /** What falling back to "new" does to the former occupant of a "tried" cell, and to the entry it displaces. */
  lemma FallenEntries(h: Hashes, b: Book, prev: int)
    requires Demotable(h, b, prev)
    ensures var r := Demoted(h, b, prev);
      var u := h.NewSlot(b.key, b.info[prev].service, b.info[prev].source);
      && prev in r.info
      && r.info[prev] == b.info[prev].(inTried := false, refCount := 1, randomPos := r.info[prev].randomPos)
      && u in b.news
      && (b.news[u] != NONE ==>
            var x := b.news[u];
            && x in b.info && x != prev
            && if b.info[x].refCount == 1 then x !in r.info
               else x in r.info && r.info[x] == b.info[x].(refCount := b.info[x].refCount - 1))
  {
    hide Cleared;
    var c := Evicted(h, b, prev);
    var u := h.NewSlot(b.key, b.info[prev].service, b.info[prev].source);
    ClearedOthers(c, u, prev);
    if c.news[u] != NONE {
      ClearedOccupant(c, u);
    }
  }

  lemma OccupantIsTried(h: Hashes, b: Book, k: Slot)
    requires Inv(h, b) && k in b.tried && b.tried[k] != NONE
    ensures b.tried[k] in b.info && b.info[b.tried[k]].inTried
  {
  }

  /** The tables after a "new" entry was marked as good: it is in its "tried" cell and in no other, and the former
      occupant of that cell is in the "new" cell its own source points to. */
  lemma GoodTables(h: Hashes, b: Book, who: Service, time: int)
    requires Inv(h, b) && Knows(b, who) && !b.info[b.addr[who.addr]].inTried
    ensures var r, id, k := Good(h, b, who, time), b.addr[who.addr], h.TriedSlot(b.key, who);
      && k in b.tried && r.tried == b.tried[k := id]
      && if b.tried[k] == NONE then r.news == Without(b.news, id) else
         var prev := b.tried[k];
         && prev in b.info
         && r.news == Without(b.news, id)[h.NewSlot(b.key, b.info[prev].service, b.info[prev].source) := prev]
  {
    hide Core;
    hide Demoted;
    hide Demotable;
    var id, c, k := b.addr[who.addr], Marked(b, who, time), h.TriedSlot(b.key, who);
    MarkedInv(h, b, who, time);
    VacatedCore(h, c, id);
    if b.tried[k] != NONE {
      OccupantIsTried(h, b, k);
      DemotedEffect(h, Unlisted(c, id), b.tried[k]);
    }
  }

  /** The former occupant is a "new" entry with one reference afterwards and keeps its statistics; the entry in the
      cell it falls back to loses that reference, and is gone if it was its last. */
  lemma GoodEvicts(h: Hashes, b: Book, who: Service, time: int)
    requires Inv(h, b) && Knows(b, who) && !b.info[b.addr[who.addr]].inTried
    requires b.tried[h.TriedSlot(b.key, who)] != NONE
    ensures var r, id, prev := Good(h, b, who, time), b.addr[who.addr], b.tried[h.TriedSlot(b.key, who)];
      && prev in b.info && prev in r.info
      && r.info[prev] == b.info[prev].(inTried := false, refCount := 1, randomPos := r.info[prev].randomPos)
      && var u := h.NewSlot(b.key, b.info[prev].service, b.info[prev].source);
      && u in b.news
      && (b.news[u] != NONE && b.news[u] != id ==>
            var x := b.news[u];
            && x in b.info
            && if b.info[x].refCount == 1 then x !in r.info
               else Loses(b, r, x))
  {
    hide Core;
    hide Demoted;
    var id, c, k := b.addr[who.addr], Marked(b, who, time), h.TriedSlot(b.key, who);
    MarkedInv(h, b, who, time);
    VacatedCore(h, c, id);
    OccupantIsTried(h, b, k);
    FallenEntries(h, Unlisted(c, id), b.tried[k]);
  }

  ghost predicate Loses(b: Book, r: Book, x: int) {
    x in b.info && x in r.info && r.info[x] == b.info[x].(refCount := b.info[x].refCount - 1)
  }

  // ----- Attempt_, Connected_ and SetServices_

  /** Only the entry of this exact service may differ. */
  ghost predicate OnlyEntry(b: Book, r: Book, who: Service) {
    && r == b.(info := r.info)
    && (!Knows(b, who) ==> r == b)
    && (Knows(b, who) ==>
          && (forall x :: x in r.info <==> x in b.info)
          && forall x :: x in b.info && x != b.addr[who.addr] ==> r.info[x] == b.info[x])
  }

  /** Each attempt is timed. A failure counts only once between two successes with whatever peer. */
  lemma AttemptRecords(h: Hashes, b: Book, who: Service, countFailure: bool, time: int)
    requires Inv(h, b)
    ensures var r := Attempt(h, b, who, countFailure, time);
      && OnlyEntry(b, r, who)
      && (Knows(b, who) ==>
            var e, f := b.info[b.addr[who.addr]], r.info[b.addr[who.addr]];
            && f == e.(lastTry := time, lastCountAttempt := f.lastCountAttempt, attempts := f.attempts)
            && (f.attempts, f.lastCountAttempt) ==
               if countFailure && e.lastCountAttempt < b.lastGood then (e.attempts + 1, time)
               else (e.attempts, e.lastCountAttempt))
  {
    hide Inv;
  }

  lemma CountedOnce(h: Hashes, b: Book, who: Service, time: int, later: int)
    requires Inv(h, b) && Knows(b, who) && b.lastGood <= time
    ensures var id := b.addr[who.addr];
      var r := Attempt(h, Attempt(h, b, who, true, time), who, true, later);
      id in r.info && r.info[id].attempts <= b.info[id].attempts + 1 && r.info[id].lastTry == later
  {
    hide Inv;
    hide Attempt;
    AttemptRecords(h, b, who, true, time);
    AttemptRecords(h, Attempt(h, b, who, true, time), who, true, later);
  }

  /** A connection refreshes the time of the entry, unless it is less than twenty minutes old; so afterwards it is at
      most that old. */
  lemma ConnectedRecords(h: Hashes, b: Book, who: Service, time: int)
    requires Inv(h, b)
    ensures var r := Connected(h, b, who, time);
      && OnlyEntry(b, r, who)
      && (Knows(b, who) ==>
            var e, f := b.info[b.addr[who.addr]], r.info[b.addr[who.addr]];
            && f == e.(time := f.time) && time - f.time <= 20 * 60 && e.time <= f.time <= Max(e.time, time)
            && (f.time != e.time <==> time - e.time > 20 * 60))
  {
    hide Inv;
  }

  lemma SetServicesRecords(h: Hashes, b: Book, who: Service, services: set<nat>)
    requires Inv(h, b)
    ensures var r := SetServices(h, b, who, services);
      && OnlyEntry(b, r, who)
      && (Knows(b, who) ==>
            r.info[b.addr[who.addr]] == b.info[b.addr[who.addr]].(services := services))
  {
    hide Inv;
  }

  // ----- Add_

  /** An unknown address is stored with its services and its source, its time less the penalty but not below zero,
      no statistics and one reference. A source's announcement of itself has no penalty. */
  lemma AddRecords(h: Hashes, b: Book, a: Address, source: NetAddr, penalty: int, now: int, rnd: nat)
    requires Inv(h, b) && a.service.addr !in b.addr
    ensures var r := Add(h, b, a, source, penalty, true, now, rnd);
      a.service.addr in r.addr ==>
        var id := r.addr[a.service.addr];
        && id == b.idCount && id in r.info
        && var time := Max(0, a.time - if a.service.addr == source then 0 else penalty);
        r.info[id] == Info(a.service, a.services, time, source, 0, 0, 0, 0, 1, false, r.info[id].randomPos)
  {
    hide Core;
    hide GivesWay;
    hide Cleared;
    hide Deleted;
    var penalty' := if a.service.addr == source then 0 else penalty;
    var c := Announced(b, a, source, penalty');
    AnnouncedCore(h, b, a, source, penalty');
    var id, s := b.idCount, h.NewSlot(b.key, a.service, source);
    InsertedStores(h, c, id, source, now);
    InsertedNewInv(h, c, id, source, now);
    if GivesWay(c, s, id, now) {
      ClearedOthers(c, s, id);
    }
  }

  /** An address that cannot be routed changes nothing. */
  lemma AddIgnores(h: Hashes, b: Book, a: Address, source: NetAddr, penalty: int, now: int, rnd: nat)
    requires Inv(h, b)
    ensures Add(h, b, a, source, penalty, false, now, rnd) == b
  {
    hide Inv;
  }

  /** A refresh adds the services; the time becomes that of the announcement less the penalty just if the
      announcement has one and the entry has none, or one that is older than that by more than an hour, for an
      announcement of the last day, or else by more than a day. */
  lemma RefreshedExactly(e: Info, a: Address, penalty: int, now: int)
    ensures var f := Refreshed(e, a, penalty, now);
      var behind := a.time - penalty - e.time;
      && f == e.(time := f.time, services := e.services + a.services)
      && (a.time == 0 ==> f.time == e.time)
      && (a.time != 0 && e.time == 0 ==> f.time == Max(0, a.time - penalty))
      && (a.time != 0 && 24 * 60 * 60 < behind ==> f.time == Max(0, a.time - penalty))
      && (a.time != 0 && now - a.time < 24 * 60 * 60 && 60 * 60 < behind ==> f.time == Max(0, a.time - penalty))
      && (e.time != 0 && behind <= 60 * 60 ==> f.time == e.time)
      && (e.time != 0 && behind <= 24 * 60 * 60 <= now - a.time ==> f.time == e.time)
  {
  }

  // ----- IsTerrible

  /** An entry that is terrible, and not because its time lies ahead, stays so as long as nothing is recorded. */
  lemma TerribleStays(e: Info, now: int, later: int)
    requires IsTerrible(e, now) && e.time <= now + 10 * 60 && now <= later
    ensures IsTerrible(e, later)
  {
  }

  /** An address seen in the last thirty days, and not to be seen yet, is terrible only by its failures: three
      without a success ever, or ten and no success in a week. A try in the last minute clears every one. */
  lemma TerribleByFailures(e: Info, now: int)
    requires 0 < e.time <= now + 10 * 60 && now - e.time <= 30 * 24 * 60 * 60
    ensures IsTerrible(e, now) ==> 3 <= e.attempts && (e.lastSuccess != 0 ==> 10 <= e.attempts)
    ensures IsTerrible(e, now) ==> e.lastTry == 0 || e.lastTry < now - 60
    ensures (e.lastTry == 0 || e.lastTry < now - 60) && e.lastSuccess == 0 && 3 <= e.attempts ==> IsTerrible(e, now)
    ensures (e.lastTry == 0 || e.lastTry < now - 60) && 10 <= e.attempts && e.lastSuccess < now - 7 * 24 * 60 * 60 ==>
      IsTerrible(e, now)
  {
  }

  // ----- GetAddr_

  /** A sample is as large as 23 in a hundred of the entries allow, up to 2500. */
  lemma SampleSizeExactly(b: Book)
    ensures 100 * SampleSize(b) <= 23 * |b.random| && 0 <= SampleSize(b) <= 2500
    ensures SampleSize(b) < 2500 ==> 23 * |b.random| < 100 * (SampleSize(b) + 1)
  {
  }
}
