/** The debug routine `Check_` finds nothing after any run with times after 0. */
module AddrRunCheck {
  import opened Basics
  import opened AddrBook
  import opened AddrOps
  import opened AddrCheck
  import opened AddrEffects

  /** No entry comes into being, none enters "tried", and the statistics that are tested stay. */
  ghost predicate StatsKept(b: Book, c: Book) {
    forall x :: x in c.info ==>
      && x in b.info && (c.info[x].inTried ==> b.info[x].inTried)
      && c.info[x].lastSuccess == b.info[x].lastSuccess && c.info[x].lastTry == b.info[x].lastTry
  }

  lemma KeptOk(b: Book, c: Book)
    requires StatsKept(b, c) && StatsOk(b)
    ensures StatsOk(c)
  {
  }

  lemma KeptTwice(b: Book, c: Book, d: Book)
    requires StatsKept(b, c) && StatsKept(c, d)
    ensures StatsKept(b, d)
  {
  }

  lemma DeletedKept(b: Book, id: int)
    requires id in b.info && 0 <= b.info[id].randomPos < |b.random|
    requires forall i :: 0 <= i < |b.random| ==> b.random[i] in b.info
    ensures StatsKept(b, Deleted(b, id))
  {
  }

  lemma ClearedKept(b: Book, s: Slot)
    requires Clearable(b, s)
    ensures StatsKept(b, Cleared(b, s))
  {
    hide Deleted;
    if b.news[s] != NONE {
      var c, id := Dereferenced(b, s), b.news[s];
      if c.info[id].refCount == 0 {
        DeletedKept(c, id);
      }
    }
  }

  lemma DemotedKept(h: Hashes, b: Book, prev: int)
    requires Demotable(h, b, prev)
    ensures StatsKept(b, Demoted(h, b, prev))
  {
    hide Cleared;
    var u := h.NewSlot(b.key, b.info[prev].service, b.info[prev].source);
    ClearedKept(Evicted(h, b, prev), u);
  }

  lemma VacatedKept(h: Hashes, b: Book, id: int)
    requires Promotable(h, b, id)
    ensures StatsKept(b, Vacated(h, b, id))
  {
    hide Demoted;
    hide Demotable;
    var c, prev := Unlisted(b, id), b.tried[h.TriedSlot(b.key, b.info[id].service)];
    if prev != NONE {
      DemotedKept(h, c, prev);
    }
  }

  /** A success must be at a time after 0: it is what the entry is marked with. */
  lemma GoodOk(h: Hashes, b: Book, who: Service, time: int)
    requires Inv(h, b) && StatsOk(b) && 0 < time
    ensures StatsOk(Good(h, b, who, time))
  {
    hide Core;
    hide Vacated;
    hide Promotable;
    if Knows(b, who) {
      var id, c := b.addr[who.addr], Marked(b, who, time);
      GoodReady(h, b, who, time);
      assert StatsOk(c);
      if !c.info[id].inTried {
        MarkedInv(h, b, who, time);
        VacatedCore(h, c, id);
        VacatedKept(h, c, id);
        KeptOk(c, Vacated(h, c, id));
        SeatedOk(h, Vacated(h, c, id), id);
      }
    }
  }

  lemma SeatedOk(h: Hashes, b: Book, id: int)
    requires id in b.info && StatsOk(b) && b.info[id].lastSuccess != 0
    ensures StatsOk(Seated(h, b, id))
  {
  }

  lemma InsertedKept(h: Hashes, b: Book, id: int, source: NetAddr, now: int)
    requires Insertable(h, b, id, source)
    ensures StatsKept(b, Inserted(h, b, id, source, now))
  {
    hide Cleared;
    hide Deleted;
    hide GivesWay;
    var s := h.NewSlot(b.key, b.info[id].service, source);
    ClearedKept(b, s);
    DeletedKept(b, id);
  }

  lemma AddOk(h: Hashes, b: Book, a: Address, source: NetAddr, penalty: int, routable: bool, now: int, rnd: nat)
    requires Inv(h, b) && StatsOk(b)
    ensures StatsOk(Add(h, b, a, source, penalty, routable, now, rnd))
  {
    hide Core;
    hide Inserted;
    hide Insertable;
    var p := if a.service.addr == source then 0 else penalty;
    if routable {
      AddReady(h, b, a, source, p, now);
      if a.service.addr in b.addr {
        var id := b.addr[a.service.addr];
        var e := Refreshed(b.info[id], a, p, now);
        var c := b.(info := b.info[id := e]);
        assert StatsOk(c);
        if !Settled(e, a, rnd) {
          InsertedKept(h, c, id, source, now);
          KeptOk(c, Inserted(h, c, id, source, now));
        }
      } else {
        var c := Announced(b, a, source, p);
        assert StatsOk(c);
        InsertedKept(h, c, b.idCount, source, now);
        KeptOk(c, Inserted(h, c, b.idCount, source, now));
      }
    }
  }

  lemma SwappedKept(b: Book, i: int, j: int)
    requires RandomIndexed(b) && 0 <= i < |b.random| && 0 <= j < |b.random|
    ensures StatsKept(b, Swapped(b, i, j))
  {
  }

  lemma {:induction false} SampledKept(b: Book, n: nat, pick: nat -> nat, limit: int, now: int, out: seq<Address>)
    requires Indexed(b) && n <= |b.random|
    ensures StatsKept(b, Sampled(b, n, pick, limit, now, out).0)
    decreases |b.random| - n
  {
    hide Indexed;
    hide Drawn;
    hide Sampled;
    if n == |b.random| || |out| >= limit {
      SampledEnd(b, n, pick, limit, now, out);
    } else {
      SampledNext(b, n, pick, limit, now, out);
      var c := Drawn(b, n, pick);
      var e := c.info[c.random[n]];
      DrawnKept(b, n, pick);
      SampledKept(c, n + 1, pick, limit, now, if IsTerrible(e, now) then out else out + [AddressOf(e)]);
      KeptTwice(b, c, Sampled(b, n, pick, limit, now, out).0);
    }
  }

  lemma DrawnKept(b: Book, n: nat, pick: nat -> nat)
    requires Indexed(b) && n < |b.random|
    ensures StatsKept(b, Drawn(b, n, pick))
  {
    SwappedKept(b, n, Draw(|b.random|, n, pick));
  }

  /** Successes come after time 0, and attempts not before it. */
  predicate Timely(op: Op) {
    match op
    case GoodOp(_, time) => 0 < time
    case AttemptOp(_, _, time) => 0 <= time
    case _ => true
  }

  lemma AppliedOk(h: Hashes, b: Book, op: Op)
    requires Inv(h, b) && StatsOk(b) && Timely(op)
    ensures StatsOk(Applied(h, b, op))
  {
    hide Core;
    hide Good;
    hide Add;
    hide Attempt;
    hide Connected;
    hide SetServices;
    hide Sampled;
    match op {
      case AddOp(a, source, penalty, routable, now, rnd) => AddOk(h, b, a, source, penalty, routable, now, rnd);
      case GoodOp(who, time) => GoodOk(h, b, who, time);
      case AttemptOp(who, countFailure, time) => AttemptRecords(h, b, who, countFailure, time);
      case ConnectedOp(who, time) => ConnectedRecords(h, b, who, time);
      case SetServicesOp(who, services) => SetServicesRecords(h, b, who, services);
      case GetAddrOp(pick, now) => GetAddrOk(h, b, pick, now);
    }
  }

  lemma GetAddrOk(h: Hashes, b: Book, pick: nat -> nat, now: int)
    requires Inv(h, b) && StatsOk(b)
    ensures StatsOk(GetAddr(h, b, pick, now).0)
  {
    hide Sampled;
    hide Placed;
    SampledKept(b, 0, pick, SampleSize(b), now, []);
    KeptOk(b, GetAddr(h, b, pick, now).0);
  }

  /** After every run of timely operations all tests of `Check_` are passed. */
  lemma {:induction false} RunChecks(h: Hashes, key: nat, ops: seq<Op>)
    requires forall i :: 0 <= i < |ops| ==> Timely(ops[i])
    ensures Structural(h, Run(h, key, ops)) && StatsOk(Run(h, key, ops))
  {
    hide Structural;
    hide Inv;
    hide StatsOk;
    hide Applied;
    InvIsStructural(h, Run(h, key, ops));
    if ops == [] {
      EmptyStats(key);
    } else {
      RunChecks(h, key, ops[..|ops| - 1]);
      AppliedOk(h, Run(h, key, ops[..|ops| - 1]), ops[|ops| - 1]);
    }
  }

  lemma EmptyStats(key: nat)
    ensures StatsOk(EmptyBook(key))
  {
  }

  /** A success at time 0 is noticed by the tests. */
  lemma UntimelyFails(h: Hashes, b: Book, who: Service)
    requires Inv(h, b) && Knows(b, who)
    ensures !StatsOk(Good(h, b, who, 0))
  {
    hide Inv;
    hide Good;
    GoodRecords(h, b, who, 0);
  }
}
