/** The address manager as the program keeps it: maps, a vector and two bucket tables updated in place.

Each method is proved against the operation on books that it implements, so everything proved about
those operations holds for the fields of a manager.
*/
module AddrManager {
  import opened Basics
  import opened AddrBook
  import opened AddrCheck
  import opened AddrOps
  import opened AddrSerial

  class AddrMan {
    const h: Hashes
    var nKey: nat
    var nIdCount: int
    var mapInfo: map<int, Info>
    var mapAddr: map<NetAddr, int>
    var vRandom: seq<int>
    const vvNew: array2<int>
    const vvTried: array2<int>
    var nNew: int
    var nTried: int
    var nLastGood: int

    ghost predicate Shaped() {
      && vvNew.Length0 == NEW_BUCKET_COUNT && vvNew.Length1 == BUCKET_SIZE
      && vvTried.Length0 == TRIED_BUCKET_COUNT && vvTried.Length1 == BUCKET_SIZE
      && vvNew != vvTried
    }

    static ghost function Cells(t: array2<int>): (r: Table)
      reads t
      ensures forall s: Slot :: s in r <==> 0 <= s.bucket < t.Length0 && 0 <= s.pos < t.Length1
      ensures forall s :: s in r ==> r[s] == t[s.bucket, s.pos]
    {
      map b, p | 0 <= b < t.Length0 && 0 <= p < t.Length1 :: Slot(b, p) := t[b, p]
    }

    /** The book this manager holds. */
    ghost function State(): Book
      reads this, vvNew, vvTried
    {
      Book(nKey, nIdCount, mapInfo, mapAddr, vRandom, Cells(vvNew), Cells(vvTried), nNew, nTried, nLastGood)
    }

    ghost predicate Valid()
      reads this, vvNew, vvTried
    {
      Shaped() && Inv(h, State())
    }

    method SetNew(bucket: int, pos: int, id: int)
      requires Shaped() && 0 <= bucket < NEW_BUCKET_COUNT && 0 <= pos < BUCKET_SIZE
      modifies vvNew
      ensures State() == old(State()).(news := old(State()).news[Slot(bucket, pos) := id])
    {
      vvNew[bucket, pos] := id;
      assert Cells(vvNew) == old(Cells(vvNew))[Slot(bucket, pos) := id];
    }

    method SetTried(bucket: int, pos: int, id: int)
      requires Shaped() && 0 <= bucket < TRIED_BUCKET_COUNT && 0 <= pos < BUCKET_SIZE
      modifies vvTried
      ensures State() == old(State()).(tried := old(State()).tried[Slot(bucket, pos) := id])
    {
      vvTried[bucket, pos] := id;
      assert Cells(vvTried) == old(Cells(vvTried))[Slot(bucket, pos) := id];
    }

    constructor (hashes: Hashes, key: nat)
      ensures Valid() && State() == EmptyBook(key) && h == hashes
      ensures fresh(vvNew) && fresh(vvTried)
    {
      h := hashes;
      nKey, nIdCount, mapInfo, mapAddr, vRandom := key, 0, map[], map[], [];
      vvNew := new int[NEW_BUCKET_COUNT, BUCKET_SIZE];
      vvTried := new int[TRIED_BUCKET_COUNT, BUCKET_SIZE];
      nNew, nTried, nLastGood := 0, 0, 1;
      new;
      Clear(key);
      EmptyInv(h, key);
    }

    static method Wipe(t: array2<int>)
      requires t.Length1 == BUCKET_SIZE
      modifies t
      ensures Cells(t) == EmptyTable(t.Length0)
    {
      for bucket := 0 to t.Length0
        invariant forall b, p :: 0 <= b < bucket && 0 <= p < BUCKET_SIZE ==> t[b, p] == NONE
      {
        for entry := 0 to BUCKET_SIZE
          invariant forall b, p :: 0 <= b < bucket && 0 <= p < BUCKET_SIZE ==> t[b, p] == NONE
          invariant forall p :: 0 <= p < entry ==> t[bucket, p] == NONE
        {
          t[bucket, entry] := NONE;
        }
      }
      assert Cells(t) == EmptyTable(t.Length0);
    }

    /** The key comes from the system's random source. */
    method Clear(key: nat)
      requires Shaped()
      modifies this, vvNew, vvTried
      ensures State() == EmptyBook(key)
    {
      vRandom := [];
      nKey, nIdCount, nTried, nNew, nLastGood := key, 0, 0, 0, 1;
      mapInfo, mapAddr := map[], map[];
      Wipe(vvNew);
      Wipe(vvTried);
    }

    method Find(host: NetAddr) returns (found: bool, id: int)
      ensures found <==> host in mapAddr && mapAddr[host] in mapInfo
      ensures host in mapAddr ==> id == mapAddr[host]
    {
      id := NONE;
      found := false;
      if host in mapAddr {
        id := mapAddr[host];
        found := id in mapInfo;
      }
    }

    method Create(a: Address, source: NetAddr) returns (id: int)
      requires Shaped()
      modifies this
      ensures id == old(nIdCount) && State() == Created(old(State()), NewInfo(a, source))
    {
      hide Cells;
      id := nIdCount;
      nIdCount := nIdCount + 1;
      mapInfo := mapInfo[id := NewInfo(a, source)];
      mapAddr := mapAddr[a.service.addr := id];
      mapInfo := mapInfo[id := mapInfo[id].(randomPos := |vRandom|)];
      vRandom := vRandom + [id];
    }

    method SwapRandom(i: int, j: int)
      requires 0 <= i < |vRandom| && 0 <= j < |vRandom|
      requires forall k :: 0 <= k < |vRandom| ==> vRandom[k] in mapInfo
      modifies this
      ensures State() == Swapped(old(State()), i, j)
    {
      hide Cells;
      if i == j {
        return;
      }
      var id1, id2 := vRandom[i], vRandom[j];
      mapInfo := mapInfo[id1 := mapInfo[id1].(randomPos := j)];
      mapInfo := mapInfo[id2 := mapInfo[id2].(randomPos := i)];
      vRandom := vRandom[i := id2];
      vRandom := vRandom[j := id1];
    }

    method Delete(id: int)
      requires id in mapInfo && 0 <= mapInfo[id].randomPos < |vRandom|
      requires forall k :: 0 <= k < |vRandom| ==> vRandom[k] in mapInfo
      requires !mapInfo[id].inTried && mapInfo[id].refCount == 0
      modifies this
      ensures State() == Deleted(old(State()), id)
    {
      hide Cells;
      SwapRandom(mapInfo[id].randomPos, |vRandom| - 1);
      vRandom := vRandom[..|vRandom| - 1];
      mapAddr := mapAddr - {mapInfo[id].service.addr};
      mapInfo := mapInfo - {id};
      nNew := nNew - 1;
    }

    method ClearNew(bucket: int, pos: int)
      requires Shaped() && Clearable(State(), Slot(bucket, pos))
      modifies this, vvNew
      ensures State() == Cleared(old(State()), Slot(bucket, pos))
    {
      hide Cells;
      if vvNew[bucket, pos] != NONE {
        var id := vvNew[bucket, pos];
        assert mapInfo[id].refCount > 0;
        mapInfo := mapInfo[id := mapInfo[id].(refCount := mapInfo[id].refCount - 1)];
        SetNew(bucket, pos, NONE);
        if mapInfo[id].refCount == 0 {
          Delete(id);
        }
      }
    }

    method UnlistAt(id: int, bucket: int, pos: int)
      requires Shaped() && id in mapInfo && 0 <= bucket < NEW_BUCKET_COUNT && 0 <= pos < BUCKET_SIZE
      modifies this, vvNew
      ensures State() == UnlistedAt(old(State()), id, Slot(bucket, pos))
    {
      hide Cells;
      if vvNew[bucket, pos] == id {
        SetNew(bucket, pos, NONE);
        mapInfo := mapInfo[id := mapInfo[id].(refCount := mapInfo[id].refCount - 1)];
      }
    }

    /** First part of `MakeTried`: the entry is removed from all "new" buckets. */
    method Unlist(id: int)
      requires Shaped() && Listed(h, State(), id)
      modifies this, vvNew
      ensures State() == Unlisted(old(State()), id)
    {
      hide Cells;
      hide UnlistedUpTo;
      hide UnlistedAt;
      hide Unlisted;
      ghost var b := State();
      UnlistedStart(b, id);
      for bucket := 0 to NEW_BUCKET_COUNT
        invariant State() == UnlistedUpTo(b, id, bucket)
      {
        UnlistedStep(h, b, id, bucket);
        var pos := h.Position(nKey, true, bucket, mapInfo[id].service);
        UnlistAt(id, bucket, pos);
      }
      nNew := nNew - 1;
      UnlistedEnd(b, id);
    }

    method Evict(prev: int, k: Slot)
      requires Shaped() && prev in mapInfo && h.TriedSlot(nKey, mapInfo[prev].service) == k
      modifies this, vvTried
      ensures State() == Evicted(h, old(State()), prev)
    {
      hide Cells;
      mapInfo := mapInfo[prev := mapInfo[prev].(inTried := false)];
      SetTried(k.bucket, k.pos, NONE);
      nTried := nTried - 1;
    }

    method Reference(id: int, s: Slot)
      requires Shaped() && id in mapInfo && s in State().news
      modifies this, vvNew
      ensures State() == Referenced(old(State()), id, s)
    {
      hide Cells;
      mapInfo := mapInfo[id := mapInfo[id].(refCount := mapInfo[id].refCount + 1)];
      SetNew(s.bucket, s.pos, id);
    }

    method Seat(id: int)
      requires Shaped() && id in mapInfo
      modifies this, vvTried
      ensures State() == Seated(h, old(State()), id)
    {
      hide Cells;
      var k := h.TriedSlot(nKey, mapInfo[id].service);
      SetTried(k.bucket, k.pos, id);
      nTried := nTried + 1;
      mapInfo := mapInfo[id := mapInfo[id].(inTried := true)];
    }

    method Relist(id: int, s: Slot)
      requires Shaped() && id in mapInfo && s in State().news && mapInfo[id].refCount == 0
      modifies this, vvNew
      ensures State() == CountedIn(Referenced(old(State()), id, s))
    {
      hide Cells;
      mapInfo := mapInfo[id := mapInfo[id].(refCount := 1)];
      SetNew(s.bucket, s.pos, id);
      nNew := nNew + 1;
    }

    /** Second part of `MakeTried`: the entry in the way goes back to the "new" table. */
    method Demote(prev: int, k: Slot)
      requires Shaped() && Demotable(h, State(), prev) && h.TriedSlot(nKey, mapInfo[prev].service) == k
      modifies this, vvNew, vvTried
      ensures State() == Demoted(h, old(State()), prev)
    {
      hide Cells;
      var u := h.NewSlot(nKey, mapInfo[prev].service, mapInfo[prev].source);
      ghost var c := Evicted(h, State(), prev);
      Evict(prev, k);
      ClearNew(u.bucket, u.pos);
      assert State().news[u] == NONE by { ClearedTables(c, u); }
      Relist(prev, u);
    }

    method MakeTried(id: int)
      requires Shaped() && Promotable(h, State(), id)
      modifies this, vvNew, vvTried
      ensures State() == Promoted(h, old(State()), id)
    {
      hide Cells;
      var k := h.TriedSlot(nKey, mapInfo[id].service);
      Unlist(id);
      assert mapInfo[id].refCount == 0;
      var prev := vvTried[k.bucket, k.pos];
      assert prev == State().tried[k];
      if prev != NONE {
        assert prev in mapInfo;
        ghost var c := State();
        Demote(prev, k);
        assert State().tried[k] == NONE by { DemotedEffect(h, c, prev); }
      }
      assert vvTried[k.bucket, k.pos] == NONE;
      Seat(id);
    }

    /** The search of `Good_` for a bucket that holds the entry; it starts at a random bucket. */
    method FindNewBucket(id: int, rnd: nat) returns (bucket: int)
      requires Shaped() && id in mapInfo && rnd < NEW_BUCKET_COUNT
      requires HasNewSlot(h, State(), id)
      ensures 0 <= bucket < NEW_BUCKET_COUNT
      ensures vvNew[bucket, h.Position(nKey, true, bucket, mapInfo[id].service)] == id
    {
      hide Cells;
      hide Hashes.Position;
      bucket := -1;
      ghost var s :| s in State().news && State().news[s] == id
                     && s.pos == h.Position(nKey, true, s.bucket, mapInfo[id].service);
      ghost var home := (s.bucket - rnd) % NEW_BUCKET_COUNT;
      assert (home + rnd) % NEW_BUCKET_COUNT == s.bucket;
      assert vvNew[s.bucket, s.pos] == id;
      for n := 0 to NEW_BUCKET_COUNT
        invariant n <= home
      {
        var b := (n + rnd) % NEW_BUCKET_COUNT;
        var pos := h.Position(nKey, true, b, mapInfo[id].service);
        if vvNew[b, pos] == id {
          bucket := b;
          return;
        }
      }
      assert false;
    }

    method Mark(id: int, who: Service, time: int)
      requires Shaped() && Knows(State(), who) && mapAddr[who.addr] == id
      modifies this
      ensures State() == Marked(old(State()), who, time)
    {
      hide Cells;
      nLastGood := time;
      mapInfo := mapInfo[id := mapInfo[id].(lastSuccess := time, lastTry := time, attempts := 0)];
    }

    /** `Good_` once the entry is found. */
    method MarkGood(id: int, who: Service, time: int, rnd: nat)
      requires Shaped() && rnd < NEW_BUCKET_COUNT
      requires Knows(State(), who) && mapAddr[who.addr] == id
      requires CanPromote(h, Marked(State(), who, time), id)
      modifies this, vvNew, vvTried
      ensures State() == Succeeded(h, Marked(old(State()), who, time), id)
    {
      hide Cells;
      Mark(id, who, time);
      if mapInfo[id].inTried {
        return;
      }
      var bucket := FindNewBucket(id, rnd);
      MakeTried(id);
    }

    /** `rnd` is the random bucket to start the search at. */
    method Good_(who: Service, time: int, rnd: nat)
      requires Valid() && rnd < NEW_BUCKET_COUNT
      modifies this, vvNew, vvTried
      ensures Valid() && State() == Good(h, old(State()), who, time)
    {
      hide Cells;
      hide Core;
      ghost var r := Good(h, State(), who, time);
      var found, id := Find(who.addr);
      if !found || mapInfo[id].service != who {
        nLastGood := time;
        assert State() == r;
      } else {
        assert CanPromote(h, Marked(State(), who, time), id) by { GoodReady(h, State(), who, time); }
        MarkGood(id, who, time, rnd);
        assert State() == r;
      }
    }

    /** The last part of `Add_`: the entry asks for the cell its source points to. */
    method Insert(id: int, source: NetAddr, now: int)
      requires Shaped() && Insertable(h, State(), id, source)
      modifies this, vvNew
      ensures State() == Inserted(h, old(State()), id, source, now)
    {
      hide Cells;
      var s := h.NewSlot(nKey, mapInfo[id].service, source);
      var there := vvNew[s.bucket, s.pos];
      assert there == State().news[s];
      if there != id {
        var insert := there == NONE;
        if !insert {
          if IsTerrible(mapInfo[there], now) || (mapInfo[there].refCount > 1 && mapInfo[id].refCount == 0) {
            insert := true;
          }
        }
        if insert {
          ghost var b := State();
          ClearNew(s.bucket, s.pos);
          assert s in State().news by { ClearedTables(b, s); }
          Reference(id, s);
        } else if mapInfo[id].refCount == 0 {
          Delete(id);
        }
      }
    }

    /** The stochastic test: how many values the random draw is among. */
    method DrawSize(refs: nat) returns (factor: nat)
      ensures factor == Factor(refs)
    {
      factor := 1;
      for n := 0 to refs
        invariant factor == Factor(n)
      {
        factor := factor * 2;
      }
    }

    static method Refresh(info: Info, a: Address, penalty: int, now: int) returns (e: Info)
      ensures e == Refreshed(info, a, penalty, now)
    {
      var online := now - a.time < 24 * 60 * 60;
      var interval := if online then 60 * 60 else 24 * 60 * 60;
      e := info;
      if a.time != 0 && (e.time == 0 || e.time < a.time - interval - penalty) {
        e := e.(time := Max(0, a.time - penalty));
      }
      e := e.(services := e.services + a.services);
    }

    method AddKnown(id: int, a: Address, source: NetAddr, penalty: int, now: int, rnd: nat)
      requires Shaped() && id in mapInfo && 0 <= mapInfo[id].refCount
      requires var e := Refreshed(mapInfo[id], a, penalty, now);
        !e.inTried && e.refCount != NEW_BUCKETS_PER_ADDRESS ==>
        Insertable(h, State().(info := mapInfo[id := e]), id, source)
      modifies this, vvNew
      ensures State() == (var e := Refreshed(old(mapInfo)[id], a, penalty, now);
        var c := old(State()).(info := old(mapInfo)[id := e]);
        if Settled(e, a, rnd) then c else Inserted(h, c, id, source, now))
    {
      hide Cells;
      var e := Refresh(mapInfo[id], a, penalty, now);
      mapInfo := mapInfo[id := e];
      if a.time == 0 || (e.time != 0 && a.time <= e.time) {
        return;
      }
      if e.inTried {
        return;
      }
      if e.refCount == NEW_BUCKETS_PER_ADDRESS {
        return;
      }
      var factor := DrawSize(e.refCount);
      if factor > 1 && rnd % factor != 0 {
        return;
      }
      Insert(id, source, now);
    }

    method Announce(a: Address, source: NetAddr, penalty: int) returns (id: int)
      requires Shaped()
      modifies this
      ensures id == old(nIdCount) && State() == Announced(old(State()), a, source, penalty)
    {
      hide Cells;
      id := Create(a, source);
      mapInfo := mapInfo[id := mapInfo[id].(time := Max(0, mapInfo[id].time - penalty))];
      nNew := nNew + 1;
    }

    method AddUnknown(a: Address, source: NetAddr, penalty: int, now: int)
      requires Shaped() && Insertable(h, Announced(State(), a, source, penalty), nIdCount, source)
      modifies this, vvNew
      ensures State() == Inserted(h, Announced(old(State()), a, source, penalty), old(nIdCount), source, now)
    {
      hide Cells;
      var id := Announce(a, source, penalty);
      Insert(id, source, now);
    }

    /** `now` is the adjusted time, `rnd` a random number, `routable` what the address class says. */
    method Add_(a: Address, source: NetAddr, timePenalty: int, routable: bool, now: int, rnd: nat) returns (isNew: bool)
      requires Valid()
      modifies this, vvNew
      ensures Valid() && State() == Add(h, old(State()), a, source, timePenalty, routable, now, rnd)
      ensures isNew <==> routable && a.service.addr !in old(mapAddr)
    {
      hide Cells;
      hide Core;
      if !routable {
        return false;
      }
      ghost var r := Add(h, State(), a, source, timePenalty, routable, now, rnd);
      var found, id := Find(a.service.addr);
      var penalty := if a.service.addr == source then 0 else timePenalty;
      AddReady(h, State(), a, source, penalty, now);
      isNew := !found;
      if found {
        AddKnown(id, a, source, penalty, now, rnd);
      } else {
        AddUnknown(a, source, penalty, now);
      }
      assert State() == r;
    }

    method FindExact(who: Service) returns (found: bool, id: int)
      ensures found == Knows(State(), who)
      ensures found ==> id == mapAddr[who.addr]
    {
      hide Cells;
      found, id := Find(who.addr);
      if found && mapInfo[id].service != who {
        found := false;
      }
    }

    method Attempt_(who: Service, countFailure: bool, time: int)
      requires Valid()
      modifies this
      ensures Valid() && State() == Attempt(h, old(State()), who, countFailure, time)
    {
      hide Cells;
      hide Core;
      ghost var r := Attempt(h, State(), who, countFailure, time);
      var found, id := FindExact(who);
      if !found {
        return;
      }
      var e := mapInfo[id].(lastTry := time);
      if countFailure && e.lastCountAttempt < nLastGood {
        e := e.(lastCountAttempt := time, attempts := e.attempts + 1);
      }
      mapInfo := mapInfo[id := e];
      assert State() == r;
    }

    method Connected_(who: Service, time: int)
      requires Valid()
      modifies this
      ensures Valid() && State() == Connected(h, old(State()), who, time)
    {
      hide Cells;
      hide Core;
      ghost var r := Connected(h, State(), who, time);
      var found, id := FindExact(who);
      if !found {
        return;
      }
      var e := mapInfo[id];
      if time - e.time > 20 * 60 {
        e := e.(time := time);
      }
      mapInfo := mapInfo[id := e];
      assert State() == r;
    }

    method SetServices_(who: Service, services: set<nat>)
      requires Valid()
      modifies this
      ensures Valid() && State() == SetServices(h, old(State()), who, services)
    {
      hide Cells;
      hide Core;
      ghost var r := SetServices(h, State(), who, services);
      var found, id := FindExact(who);
      if !found {
        return;
      }
      mapInfo := mapInfo[id := mapInfo[id].(services := services)];
      assert State() == r;
    }

    /** One turn of the loop of `GetAddr_`. */
    method DrawOne(n: nat, pick: nat -> nat, now: int, list: seq<Address>) returns (list': seq<Address>)
      requires Indexed(State()) && n < |vRandom|
      modifies this
      ensures Indexed(State()) && State() == Drawn(old(State()), n, pick)
      ensures |vRandom| == old(|vRandom|)
      ensures list' == var e := mapInfo[vRandom[n]]; if IsTerrible(e, now) then list else list + [AddressOf(e)]
    {
      hide Cells;
      hide Indexed;
      IndexedMeans(State());
      DrawnIndexed(State(), n, pick);
      IndexedMeans(Drawn(State(), n, pick));
      SwapRandom(n, n + pick(n) % (|vRandom| - n));
      var e := mapInfo[vRandom[n]];
      list' := list;
      if !IsTerrible(e, now) {
        list' := list + [AddressOf(e)];
      }
    }

    method Gather(pick: nat -> nat, now: int) returns (list: seq<Address>)
      requires Indexed(State())
      modifies this
      ensures (State(), list) == Sampled(old(State()), 0, pick, SampleSize(old(State())), now, [])
    {
      hide Cells;
      hide Indexed;
      hide Sampled;
      hide Drawn;
      list := [];
      var nodes := GETADDR_MAX_PCT * |vRandom| / 100;
      if nodes > GETADDR_MAX {
        nodes := GETADDR_MAX;
      }
      ghost var b := State();
      var n := 0;
      while n < |vRandom|
        invariant Indexed(State()) && 0 <= n <= |vRandom|
        invariant Sampled(State(), n, pick, nodes, now, list) == Sampled(b, 0, pick, nodes, now, [])
      {
        if |list| >= nodes {
          break;
        }
        SampledNext(State(), n, pick, nodes, now, list);
        list := DrawOne(n, pick, now, list);
        n := n + 1;
      }
      SampledEnd(State(), n, pick, nodes, now, list);
    }

    /** `pick` supplies the random numbers of the shuffle. */
    method GetAddr_(pick: nat -> nat, now: int) returns (list: seq<Address>)
      requires Valid()
      modifies this
      ensures Valid() && (State(), list) == GetAddr(h, old(State()), pick, now)
    {
      hide Cells;
      hide Placed;
      ghost var r := GetAddr(h, State(), pick, now);
      list := Gather(pick, now);
      assert State() == r.0;
    }

    /** `mapAddr[host]`, which enters 0 for a host it does not know. */
    method Lookup(host: NetAddr) returns (id: int)
      modifies `mapAddr
      ensures mapAddr == if host in old(mapAddr) then old(mapAddr) else old(mapAddr)[host := 0]
      ensures id == mapAddr[host]
    {
      if host !in mapAddr {
        mapAddr := mapAddr[host := 0];
      }
      id := mapAddr[host];
    }

    /** The tests of one entry. */
    method CheckEntry(id: int) returns (code: int)
      requires id in mapInfo
      modifies `mapAddr
      ensures Grows(old(mapAddr), mapAddr, id, mapInfo[id].service.addr)
      ensures code == 0 <==> EntryOk(State(), id) && EntryStatsOk(mapInfo[id])
    {
      hide Cells;
      var info := mapInfo[id];
      if info.inTried {
        if info.lastSuccess == 0 {
          return -1;
        }
        if info.refCount != 0 {
          return -2;
        }
      } else {
        if info.refCount < 0 || info.refCount > NEW_BUCKETS_PER_ADDRESS {
          return -3;
        }
        if info.refCount == 0 {
          return -4;
        }
      }
      var known := Lookup(info.service.addr);
      if known != id {
        return -5;
      }
      if info.randomPos < 0 || info.randomPos >= |vRandom| || vRandom[info.randomPos] != id {
        return -14;
      }
      if info.lastTry < 0 {
        return -6;
      }
      if info.lastSuccess < 0 {
        return -8;
      }
      return 0;
    }

    /** The tests of all entries, and the lists of what the tables should hold. */
    method CheckEntries() returns (code: int, setTried: set<int>, mapNew: map<int, int>)
      requires Shaped()
      modifies `mapAddr
      ensures State() == old(State()).(addr := mapAddr)
      ensures code == 0 <==> EntriesOk(State()) && StatsOk(State())
      ensures code == 0 ==> setTried == TriedIds(State()) && mapNew == References(State())
      ensures code == 0 ==> Extends(old(State()), mapAddr)
    {
      hide Ascending;
      hide Extends;
      hide Checked;
      setTried, mapNew := {}, map[];
      var ids := Ascending(mapInfo.Keys);
      ghost var b := State();
      ghost var done: set<int> := {};
      NothingChecked(b);
      for i := 0 to |ids|
        invariant State() == b.(addr := mapAddr) && Extends(b, mapAddr)
        invariant Checked(State(), done, setTried, mapNew)
        invariant forall x :: x in done <==> x in ids[..i]
      {
        ghost var before := State();
        var id := ids[i];
        assert id in ids;
        code := CheckEntry(id);
        if code != 0 {
          return;
        }
        GrowsKeeps(before, State(), id, done, setTried, mapNew);
        GrowsExtends(b, before, State(), id);
        CheckedNext(State(), id, done, setTried, mapNew);
        if mapInfo[id].inTried {
          setTried := setTried + {id};
        } else {
          mapNew := mapNew[id := mapInfo[id].refCount];
        }
        assert ids[..i + 1] == ids[..i] + [id];
        done := done + {id};
      }
      code := 0;
      assert ids[..|ids|] == ids;
      CheckedAll(State(), ids, done, setTried, mapNew);
    }

    /** The tests of one "tried" cell that is not empty. */
    method CheckTriedCell(n: int, i: int, setTried: set<int>) returns (code: int)
      requires Shaped() && 0 <= n < TRIED_BUCKET_COUNT && 0 <= i < BUCKET_SIZE && vvTried[n, i] != NONE
      requires setTried == TriedIds(State()) - FoundIn(State().tried, n, i) && TriedOkUpTo(h, State(), n, i)
      ensures code == 0 <==> TriedCellOk(h, State(), Slot(n, i))
    {
      hide Cells;
      hide TriedOkUpTo;
      hide FoundIn;
      ghost var b := State();
      var id := vvTried[n, i];
      assert id == b.tried[Slot(n, i)];
      if id !in setTried {
        if id in FoundIn(b.tried, n, i) {
          FoundTwice(h, b, n, i);
        }
        return -11;
      }
      if h.TriedBucket(nKey, mapInfo[id].service) != n {
        return -17;
      }
      if h.Position(nKey, false, n, mapInfo[id].service) != i {
        return -18;
      }
      return 0;
    }

    /** The tests of the "tried" table; what is left was in no cell. */
    method CheckTried(found: set<int>) returns (code: int, setTried: set<int>)
      requires Shaped() && found == TriedIds(State())
      ensures code == 0 ==> TriedOkUpTo(h, State(), TRIED_BUCKET_COUNT, 0)
      ensures code == 0 ==> setTried == TriedIds(State()) - FoundIn(State().tried, TRIED_BUCKET_COUNT, 0)
      ensures code != 0 ==> !TriedOk(h, State())
    {
      hide TriedOkUpTo;
      hide TriedCellOk;
      hide FoundIn;
      hide TriedIds;
      hide Cells;
      ghost var b := State();
      setTried := found;
      Nothing(h, b);
      for n := 0 to TRIED_BUCKET_COUNT
        invariant TriedOkUpTo(h, b, n, 0) && setTried == TriedIds(b) - FoundIn(b.tried, n, 0)
      {
        for i := 0 to BUCKET_SIZE
          invariant TriedOkUpTo(h, b, n, i) && setTried == TriedIds(b) - FoundIn(b.tried, n, i)
        {
          FoundNext(b.tried, n, i);
          WithoutMore(TriedIds(b), FoundIn(b.tried, n, i), b.tried[Slot(n, i)]);
          if vvTried[n, i] != NONE {
            code := CheckTriedCell(n, i, setTried);
            if code != 0 {
              return;
            }
            setTried := setTried - {vvTried[n, i]};
          }
          TriedOkNext(h, b, n, i);
        }
        FoundNextBucket(b.tried, TRIED_BUCKET_COUNT, n);
        TriedNextBucket(h, b, n);
      }
      code := 0;
    }

    /** The tests of the "new" table; what is left was in too few cells. */
    method CheckNew(refs: map<int, int>) returns (code: int, mapNew: map<int, int>)
      requires Shaped() && refs == References(State()) && EntriesOk(State())
      ensures code == 0 ==> NewOkUpTo(h, State(), NEW_BUCKET_COUNT, 0)
      ensures code == 0 ==> mapNew == Left(State(), UpTo(State().news, NEW_BUCKET_COUNT, 0))
      ensures code != 0 ==> !NewOk(h, State())
    {
      hide Cells;
      hide NewOkUpTo;
      hide Left;
      hide UpTo;
      hide EntriesOk;
      hide References;
      hide Hashes.Position;
      ghost var b := State();
      mapNew := refs;
      NothingMet(h, b);
      for n := 0 to NEW_BUCKET_COUNT
        invariant NewOkUpTo(h, b, n, 0) && mapNew == Left(b, UpTo(b.news, n, 0))
      {
        for i := 0 to BUCKET_SIZE
          invariant NewOkUpTo(h, b, n, i) && mapNew == Left(b, UpTo(b.news, n, i))
        {
          var id := vvNew[n, i];
          assert id == b.news[Slot(n, i)];
          LeftMeans(b, UpTo(b.news, n, i));
          if id != NONE {
            if id !in mapNew {
              MetTooOften(h, b, n, i);
              return -12, mapNew;
            }
            if h.Position(nKey, true, n, mapInfo[id].service) != i {
              assert !NewCellOk(h, b, Slot(n, i));
              return -19, mapNew;
            }
            TakenCell(h, b, n, i);
            mapNew := mapNew[id := mapNew[id] - 1];
            if mapNew[id] == 0 {
              mapNew := mapNew - {id};
            }
          } else {
            FreeCell(h, b, n, i);
          }
        }
        NewNextBucket(h, b, n);
      }
      code := 0;
    }

    /** The debug routine: 0 if the manager is in order. */
    method Check_() returns (code: int)
      requires Shaped()
      modifies `mapAddr
      ensures code == 0 <==> Structural(h, State()) && StatsOk(State()) && nKey != 0
      ensures old(Untested(State())) ==> (code == 0 <==> Inv(h, State()) && StatsOk(State()) && nKey != 0)
    {
      code := Examine();
      if code == 0 && old(Untested(State())) {
        StructuralIsInv(h, State());
      }
      if Inv(h, State()) {
        InvIsStructural(h, State());
      }
    }

    method Examine() returns (code: int)
      requires Shaped()
      modifies `mapAddr
      ensures code == 0 <==> Structural(h, State()) && StatsOk(State()) && nKey != 0
      ensures code == 0 && old(Untested(State())) ==> Untested(State())
    {
      hide TriedOk;
      hide NewOk;
      hide EntriesOk;
      hide StatsOk;
      hide TriedIds;
      hide NewIds;
      hide References;
      hide Extends;
      hide Untested;
      ghost var b := State();
      if |vRandom| != nTried + nNew {
        return -7;
      }
      var setTried, mapNew;
      code, setTried, mapNew := CheckEntries();
      if code != 0 {
        return;
      }
      ReferencesSize(State());
      if |setTried| != nTried {
        return -9;
      }
      if |mapNew| != nNew {
        return -10;
      }
      code := ExamineTables(setTried, mapNew);
      if code != 0 {
        return;
      }
      if nKey == 0 {
        return -16;
      }
      ExtendedUntested(b, State());
      return 0;
    }

    method ExamineTables(tried: set<int>, refs: map<int, int>) returns (code: int)
      requires Shaped() && EntriesOk(State())
      requires tried == TriedIds(State()) && refs == References(State())
      ensures code == 0 <==> TriedOk(h, State()) && NewOk(h, State())
    {
      hide TriedOk;
      hide NewOk;
      hide EntriesOk;
      hide TriedOkUpTo;
      hide NewOkUpTo;
      hide TriedIds;
      hide FoundIn;
      hide Left;
      hide UpTo;
      hide References;
      ghost var b := State();
      var setTried, mapNew;
      code, setTried := CheckTried(tried);
      if code != 0 {
        return;
      }
      code, mapNew := CheckNew(refs);
      if code != 0 {
        return;
      }
      TriedEnd(h, b);
      NewEnd(h, b);
      if |setTried| != 0 {
        return -13;
      }
      if |mapNew| != 0 {
        return -15;
      }
      return 0;
    }

    // ----- Serialize

    /** Writes the manager; the entries are walked by id, as the map orders them. */
    method Serialize() returns (s: Saved)
      requires Valid()
      ensures Writable(State()) && s == Serialized(State())
    {
      hide Core;
      hide Ascending;
      hide NewOf;
      hide TriedOf;
      hide Indexes;
      hide RecordsOf;
      ghost var b := State();
      ValidWritable(h, b);
      OrderSizes(h, b);
      var ids := Ascending(mapInfo.Keys);
      var news, index := WriteNew(ids);
      var tried := WriteTried(ids);
      IndexesNumber(b);
      var buckets := WriteBuckets(index);
      s := Saved(1, 32, nKey, nNew, nTried, FlipBit30(NEW_BUCKET_COUNT), news + tried, buckets);
    }

    method WriteNew(ids: seq<int>) returns (records: seq<Record>, mapUnkIds: map<int, int>)
      requires Known(mapInfo, ids) && |NewOf(mapInfo, ids)| == nNew
      ensures records == RecordsOf(mapInfo, NewOf(mapInfo, ids)) && mapUnkIds == Indexes(mapInfo, ids)
    {
      hide NewOf;
      hide Indexes;
      hide RecordsOf;
      NothingWritten(mapInfo, ids);
      records, mapUnkIds := [], map[];
      var nIds := 0;
      for i := 0 to |ids|
        invariant records == RecordsOf(mapInfo, NewOf(mapInfo, ids[..i])) && mapUnkIds == Indexes(mapInfo, ids[..i])
        invariant nIds == |NewOf(mapInfo, ids[..i])|
      {
        NewOfNext(mapInfo, ids, i);
        IndexesNext(mapInfo, ids, i);
        RecordsNext(mapInfo, NewOf(mapInfo, ids[..i]), ids[i]);
        mapUnkIds := mapUnkIds[ids[i] := nIds];
        var info := mapInfo[ids[i]];
        if info.refCount != 0 {
          assert nIds != nNew;
          records := records + [RecordOf(info)];
          nIds := nIds + 1;
        }
      }
      assert ids[..|ids|] == ids;
    }

    method WriteTried(ids: seq<int>) returns (records: seq<Record>)
      requires Known(mapInfo, ids) && |TriedOf(mapInfo, ids)| == nTried
      ensures records == RecordsOf(mapInfo, TriedOf(mapInfo, ids))
    {
      hide TriedOf;
      hide RecordsOf;
      NothingWritten(mapInfo, ids);
      records := [];
      var nIds := 0;
      for i := 0 to |ids|
        invariant records == RecordsOf(mapInfo, TriedOf(mapInfo, ids[..i])) && nIds == |TriedOf(mapInfo, ids[..i])|
      {
        TriedOfNext(mapInfo, ids, i);
        RecordsNext(mapInfo, TriedOf(mapInfo, ids[..i]), ids[i]);
        var info := mapInfo[ids[i]];
        if info.inTried {
          assert nIds != nTried;
          records := records + [RecordOf(info)];
          nIds := nIds + 1;
        }
      }
      assert ids[..|ids|] == ids;
    }

    /** The indexes of the entries in a bucket, which are written after their number. */
    method WriteBucket(bucket: int, index: map<int, int>) returns (nSize: int, cells: seq<int>)
      requires Shaped() && 0 <= bucket < NEW_BUCKET_COUNT && Numbered(State().news, index)
      ensures nSize == |cells| && cells == CellsUpTo(State().news, index, bucket, BUCKET_SIZE)
    {
      hide CellsUpTo;
      hide Cells;
      ghost var news := State().news;
      CellsNext(news, index, bucket, 0);
      nSize := 0;
      for i := 0 to BUCKET_SIZE
        invariant nSize == |CellsUpTo(news, index, bucket, i)|
      {
        CellsNext(news, index, bucket, i);
        assert news[Slot(bucket, i)] == vvNew[bucket, i];
        if vvNew[bucket, i] != NONE {
          nSize := nSize + 1;
        }
      }
      cells := [];
      for i := 0 to BUCKET_SIZE
        invariant cells == CellsUpTo(news, index, bucket, i)
      {
        CellsNext(news, index, bucket, i);
        assert news[Slot(bucket, i)] == vvNew[bucket, i];
        if vvNew[bucket, i] != NONE {
          cells := cells + [index[vvNew[bucket, i]]];
        }
      }
    }

    method WriteBuckets(index: map<int, int>) returns (buckets: seq<seq<int>>)
      requires Shaped() && Numbered(State().news, index)
      ensures buckets == AllCells(State().news, index)
    {
      hide CellsUpTo;
      ghost var news := State().news;
      buckets := [];
      for bucket := 0 to NEW_BUCKET_COUNT
        invariant |buckets| == bucket
        invariant forall k :: 0 <= k < bucket ==> buckets[k] == CellsUpTo(news, index, k, BUCKET_SIZE)
      {
        var nSize, cells := WriteBucket(bucket, index);
        buckets := buckets + [cells];
      }
    }

    // ----- Unserialize

    method Append(id: int, e: Info)
      requires Shaped()
      modifies `mapInfo, `mapAddr, `vRandom
      ensures State() == Appended(old(State()), id, e)
    {
      hide Cells;
      mapInfo := mapInfo[id := e.(randomPos := |vRandom|)];
      mapAddr := mapAddr[e.service.addr := id];
      vRandom := vRandom + [id];
    }

    method LoadNew(n: int, r: Record, usable: bool)
      requires Shaped()
      modifies this, vvNew
      ensures State() == WithNew(h, old(State()), n, r, usable)
    {
      hide Cells;
      Append(n, InfoOf(r));
      if !usable {
        var s := h.NewSlot(nKey, r.service, r.source);
        assert State().news[s] == vvNew[s.bucket, s.pos];
        if vvNew[s.bucket, s.pos] == NONE {
          Reference(n, s);
        }
      }
    }

    /** The counter is put right later. */
    method LoadTried(r: Record) returns (lost: bool)
      requires Shaped()
      modifies this, vvTried
      ensures var c := WithTried(h, old(State()), r);
        State() == c.(nTried := old(nTried)) && c.nTried == old(nTried) - if lost then 1 else 0
    {
      hide Hashes.TriedSlot;
      hide Cells;
      hide Appended;
      AppendedKeeps(State(), nIdCount, InfoOf(r).(inTried := true));
      var s := h.TriedSlot(nKey, r.service);
      assert State().tried[s] == vvTried[s.bucket, s.pos];
      if vvTried[s.bucket, s.pos] == NONE {
        Append(nIdCount, InfoOf(r).(inTried := true));
        SetTried(s.bucket, s.pos, nIdCount);
        nIdCount := nIdCount + 1;
        return false;
      }
      return true;
    }

    method LoadCell(bucket: int, index: int, usable: bool)
      requires Shaped() && 0 <= bucket && (usable ==> bucket < NEW_BUCKET_COUNT)
      requires forall i :: 0 <= i < nNew ==> i in mapInfo
      modifies this, vvNew
      ensures State() == WithCell(h, old(State()), bucket, index, usable)
    {
      hide Cells;
      if 0 <= index < nNew {
        var pos := h.Position(nKey, true, bucket, mapInfo[index].service);
        if usable {
          assert State().news[Slot(bucket, pos)] == vvNew[bucket, pos];
          if vvNew[bucket, pos] == NONE && mapInfo[index].refCount < NEW_BUCKETS_PER_ADDRESS {
            Reference(index, Slot(bucket, pos));
          }
        }
      }
    }

    /** Reads the entries of the "new" table, unless the stream ends too soon. */
    method LoadAllNew(records: seq<Record>, usable: bool) returns (ok: bool)
      requires Shaped()
      modifies this, vvNew
      ensures ok == (AtLeast0(nNew) <= |records|)
      ensures ok ==> State() == NewLoaded(h, old(State()), records, AtLeast0(nNew), usable)
      ensures ok ==> forall i :: 0 <= i < nNew ==> i in mapInfo
      ensures nNew == old(nNew) && nTried == old(nTried)
    {
      hide WithNew;
      var n := 0;
      while n < nNew
        invariant 0 <= n <= AtLeast0(nNew) && n <= |records| && nNew == old(nNew) && nTried == old(nTried)
        invariant State() == NewLoaded(h, old(State()), records, n, usable)
        invariant forall i :: 0 <= i < n ==> i in mapInfo
      {
        if n == |records| {
          return false;
        }
        WithNewKeeps(h, State(), n, records[n], usable);
        LoadNew(n, records[n], usable);
        n := n + 1;
      }
      return true;
    }

    /** Reads the entries of the "tried" table and counts those that are lost. */
    method LoadAllTried(records: seq<Record>, from: nat) returns (ok: bool, nLost: int)
      requires Shaped() && from <= |records|
      modifies this, vvTried
      ensures ok == (from + AtLeast0(nTried) <= |records|)
      ensures ok ==>
        var c := TriedLoaded(h, old(State()), records, from, from + AtLeast0(nTried));
        State() == c.(nTried := old(nTried)) && nLost == old(nTried) - c.nTried
      ensures forall i :: i in old(mapInfo) ==> i in mapInfo
      ensures nNew == old(nNew) && nTried == old(nTried)
    {
      hide WithTried;
      nLost := 0;
      var n := 0;
      ghost var b := State();
      while n < nTried
        invariant 0 <= n <= AtLeast0(nTried) && from + n <= |records| && nNew == old(nNew) && nTried == b.nTried
        invariant
          var c := TriedLoaded(h, b, records, from, from + n);
          State() == c.(nTried := b.nTried) && nLost == b.nTried - c.nTried
        invariant forall i :: i in b.info ==> i in mapInfo
      {
        if from + n == |records| {
          return false, nLost;
        }
        ghost var c := TriedLoaded(h, b, records, from, from + n);
        TriedCounter(h, c, b.nTried, records[from + n]);
        WithTriedKeeps(h, State(), records[from + n]);
        var lost := LoadTried(records[from + n]);
        if lost {
          nLost := nLost + 1;
        }
        n := n + 1;
        assert TriedLoaded(h, b, records, from, from + n) == WithTried(h, c, records[from + n - 1]);
      }
      return true, nLost;
    }

    method LoadBucket(bucket: int, cells: seq<int>, usable: bool)
      requires Shaped() && 0 <= bucket && (usable ==> bucket < NEW_BUCKET_COUNT)
      requires forall i :: 0 <= i < nNew ==> i in mapInfo
      modifies this, vvNew
      ensures State() == BucketLoaded(h, old(State()), bucket, cells, |cells|, usable)
      ensures nNew == old(nNew) && nTried == old(nTried) && mapInfo.Keys == old(mapInfo.Keys)
    {
      hide WithCell;
      for n := 0 to |cells|
        invariant State() == BucketLoaded(h, old(State()), bucket, cells, n, usable)
        invariant nNew == old(nNew) && nTried == old(nTried) && mapInfo.Keys == old(mapInfo.Keys)
      {
        WithCellKeeps(h, State(), bucket, cells[n], usable);
        assert forall i :: 0 <= i < nNew ==> i in mapInfo.Keys;
        LoadCell(bucket, cells[n], usable);
      }
    }

    /** Reads the positions in the "new" table. */
    method LoadBuckets(buckets: seq<seq<int>>, nUBuckets: int, usable: bool) returns (ok: bool)
      requires Shaped() && (usable ==> nUBuckets == NEW_BUCKET_COUNT)
      requires forall i :: 0 <= i < nNew ==> i in mapInfo
      modifies this, vvNew
      ensures ok == (AtLeast0(nUBuckets) <= |buckets|)
      ensures ok ==> State() == BucketsLoaded(h, old(State()), buckets, AtLeast0(nUBuckets), usable)
    {
      hide BucketLoaded;
      var bucket := 0;
      while bucket < nUBuckets
        invariant 0 <= bucket <= AtLeast0(nUBuckets) && bucket <= |buckets|
        invariant State() == BucketsLoaded(h, old(State()), buckets, bucket, usable)
        invariant nNew == old(nNew) && mapInfo.Keys == old(mapInfo.Keys)
      {
        if bucket == |buckets| {
          return false;
        }
        assert forall i :: 0 <= i < nNew ==> i in mapInfo.Keys;
        LoadBucket(bucket, buckets[bucket], usable);
        bucket := bucket + 1;
      }
      return true;
    }

    /** Drops the entries that are in no table. */
    method Prune() returns (nLostUnk: int)
      requires Shaped() && RandomIndexed(State())
      modifies this
      ensures State() == Pruned(old(State()), Ascending(old(mapInfo).Keys))
      ensures nLostUnk == |old(mapInfo)| - |mapInfo|
    {
      hide RandomIndexed;
      hide Deleted;
      hide Ascending;
      ghost var b := State();
      var ids := Ascending(mapInfo.Keys);
      nLostUnk := 0;
      PrunedNone(b, ids);
      for i := 0 to |ids|
        invariant RandomIndexed(State()) && State() == Pruned(b, ids[..i])
        invariant nLostUnk == |b.info| - |mapInfo|
      {
        ghost var c := State();
        PrunedNext(b, ids, i);
        if ids[i] in mapInfo && !mapInfo[ids[i]].inTried && mapInfo[ids[i]].refCount == 0 {
          PlacesGiven(c);
          DeletedSize(c, ids[i]);
          Delete(ids[i]);
          nLostUnk := nLostUnk + 1;
        }
      }
      assert ids[..|ids|] == ids;
    }

    /** Reads what comes before the entries. */
    method LoadHeader(s: Saved, key: nat) returns (ok: bool)
      requires Shaped()
      modifies this, vvNew, vvTried
      ensures ok == SizesAllowed(s)
      ensures ok ==> State() == Header(s)
    {
      hide EmptyTable;
      Clear(key);
      if s.keySize != 32 {
        return false;
      }
      nKey, nNew, nTried := s.key, s.nNew, s.nTried;
      if nNew > NEW_BUCKET_COUNT * BUCKET_SIZE {
        return false;
      }
      if nTried > TRIED_BUCKET_COUNT * BUCKET_SIZE {
        return false;
      }
      return true;
    }

    method LoadEntries(s: Saved) returns (ok: bool, nLost: int)
      requires Shaped() && State() == Header(s)
      modifies this, vvNew, vvTried
      ensures ok == RecordsThere(s)
      ensures ok ==> State() == EntriesLoaded(h, s) && nLost == s.nTried - nTried
      ensures ok ==> forall i :: 0 <= i < nNew ==> i in mapInfo
    {
      hide NewLoaded;
      hide TriedLoaded;
      hide UsableTable;
      nLost := 0;
      ok := LoadAllNew(s.records, UsableTable(s));
      if !ok {
        return;
      }
      nIdCount := nNew;
      ok, nLost := LoadAllTried(s.records, AtLeast0(nNew));
      if !ok {
        return;
      }
      nTried := nTried - nLost;
    }

    /** Reads a manager; false if the stream is refused. The key is the one that is drawn on clearing. */
    method Unserialize(s: Saved, key: nat) returns (ok: bool, nLost: int, nLostUnk: int)
      requires Shaped()
      modifies this, vvNew, vvTried
      ensures ok == Readable(s)
      ensures ok ==> Unserialized(h, s) == Read(State(), nLost, nLostUnk)
    {
      hide Header;
      hide EntriesLoaded;
      hide BucketsLoaded;
      hide Pruned;
      hide Ascending;
      hide RandomIndexed;
      hide FlipBit30;
      nLost, nLostUnk := 0, 0;
      ok := LoadHeader(s, key);
      if !ok {
        return;
      }
      ok, nLost := LoadEntries(s);
      if !ok {
        return;
      }
      ok := LoadBuckets(s.buckets, BucketCount(s), UsableTable(s));
      if !ok {
        return;
      }
      LoadedInStep(h, s);
      nLostUnk := Prune();
    }
  }
}
