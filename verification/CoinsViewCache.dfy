/** Coin caches as objects, each over another cache or over the database. */
module CoinsCaches {
  import opened Coins
  import opened Basics

  // ----- a stack and its lower part

  /** The lower part of a stack obeys the invariant too. */
  lemma InvPrefix(s: Stack, top: Layer)
    requires Inv(Stack(s.db, s.layers + [top]))
    ensures Inv(s)
  {
    var t := Stack(s.db, s.layers + [top]);
    forall k | 0 <= k < |s.layers| ensures LayerOk(s, k) {
      assert LayerOk(t, k);
      SameBelow(s, t, k);
    }
  }

  /** Reading through the lower part leaves the rest alone. */
  lemma {:induction false} FetchedPrefix(s: Stack, top: Layer, k: nat, o: OutPoint)
    requires k <= |s.layers|
    ensures var t := Fetched(s, k, o);
      Fetched(Stack(s.db, s.layers + [top]), k, o) == Stack(t.db, t.layers + [top])
    decreases k
  {
    var t := Stack(s.db, s.layers + [top]);
    if k != 0 {
      assert t.layers[k - 1] == s.layers[k - 1];
      FetchedPrefix(s, top, k - 1, o);
      ViewBelow(s, t, k - 1, o);
    }
  }

  lemma UsageOf(s: Stack, k: nat)
    requires Inv(s) && k < |s.layers|
    ensures s.layers[k].usage == Usage(s.layers[k].coins)
  {
    assert LayerOk(s, k);
  }

  // ----- the loop of BatchWrite

  /** The entries of `child` outside `rest` are merged. */
  ghost predicate MergedSoFar(c: Cache, child: Cache, rest: set<OutPoint>, now: Cache) {
    forall o :: Own(now, o) == if o in rest then Own(c, o) else MergedAt(c, child, o)
  }

  lemma MergedDone(c: Cache, child: Cache, now: Cache)
    requires MergedSoFar(c, child, {}, now)
    ensures now == MergedAll(c, child)
  {
    var m := MergedAll(c, child);
    forall o ensures o in now <==> o in m {
      assert Own(now, o) == MergedAt(c, child, o);
    }
    forall o | o in now ensures now[o] == m[o] {
      assert Own(now, o) == MergedAt(c, child, o);
    }
  }

  /** A cache with one entry set or removed. */
  function WithOwn(c: Cache, o: OutPoint, e: Option<Entry>): Cache {
    if e.Some? then c[o := e.value] else c - {o}
  }

  lemma MergedNext(c: Cache, child: Cache, rest: set<OutPoint>, now: Cache, o: OutPoint)
    requires MergedSoFar(c, child, rest, now) && o in rest && o in child
    ensures Own(now, o) == Own(c, o)
    ensures MergedSoFar(c, child, rest - {o}, WithOwn(now, o, Merged(Own(now, o), child[o])))
  {
    assert Own(now, o) == Own(c, o);
    var next := WithOwn(now, o, Merged(Own(now, o), child[o]));
    forall p ensures Own(next, p) == if p in rest - {o} then Own(c, p) else MergedAt(c, child, p) {
      assert Own(now, p) == if p in rest then Own(c, p) else MergedAt(c, child, p);
    }
  }

  class CoinsViewDB {
    var coins: map<OutPoint, Coin>

    method BatchWrite(child: Cache)
      modifies this
      ensures coins == Written(old(coins), child)
    {
      var rest := child.Keys;
      while rest != {}
        invariant rest <= child.Keys
        invariant forall o :: o in coins <==>
          if o in child.Keys - rest && child[o].isDirty then !child[o].coin.IsSpent() else o in old(coins)
        invariant forall o :: o in coins ==>
          coins[o] == if o in child.Keys - rest && child[o].isDirty then child[o].coin else old(coins)[o]
      {
        var o :| o in rest;
        if child[o].isDirty {
          if child[o].coin.IsSpent() {
            coins := coins - {o};
          } else {
            coins := coins[o := child[o].coin];
          }
        }
        rest := rest - {o};
      }
    }
  }

  class CoinsViewCache {
    /** The cache below, if there is one; otherwise the cache lies over the database. */
    const parent: CoinsViewCache?
    const db: CoinsViewDB
    ghost const depth: nat

    var cacheCoins: Cache
    var cachedCoinsUsage: int

    ghost predicate Chained()
      decreases depth
    {
      if parent == null then depth == 1 else depth == parent.depth + 1 && parent.db == db && parent.Chained()
    }

    ghost function Repr(): set<object>
      requires Chained()
      decreases depth
    {
      {this, db} + if parent == null then {} else parent.Repr()
    }

    ghost function Layers(): (r: seq<Layer>)
      requires Chained()
      reads Repr()
      ensures |r| == depth
      decreases depth
    {
      (if parent == null then [] else parent.Layers()) + [Layer(cacheCoins, cachedCoinsUsage)]
    }

    ghost function State(): (s: Stack)
      requires Chained()
      reads Repr()
      ensures |s.layers| == depth
    {
      Stack(db.coins, Layers())
    }

    /** The caches below do not contain this one. */
    lemma ReprBelow(c: CoinsViewCache)
      requires Chained() && c in Repr()
      ensures c.depth <= depth
      decreases depth
    {
      if parent != null && c != this {
        parent.ReprBelow(c);
      }
    }

    lemma NotBelow()
      requires Chained() && parent != null
      ensures this !in parent.Repr()
    {
      if this in parent.Repr() {
        parent.ReprBelow(this);
        assert false;
      }
    }

    constructor OverDB(db: CoinsViewDB)
      ensures Chained() && State() == Stack(db.coins, [Layer(map[], 0)])
      ensures this.db == db && parent == null
    {
      parent, this.db, depth := null, db, 1;
      cacheCoins, cachedCoinsUsage := map[], 0;
    }

    constructor OverCache(base: CoinsViewCache)
      requires base.Chained()
      ensures Chained() && State() == Stack(base.db.coins, base.Layers() + [Layer(map[], 0)])
      ensures parent == base
    {
      parent, db, depth := base, base.db, base.depth + 1;
      cacheCoins, cachedCoinsUsage := map[], 0;
    }

    /** The fields of this cache are the top layer. */
    method SetTop(c: Cache, usage: int)
      requires Chained()
      modifies `cacheCoins, `cachedCoinsUsage
      ensures cacheCoins == c && cachedCoinsUsage == usage
      ensures State() == old(State()).(layers := old(State()).layers[depth - 1 := Layer(c, usage)])
    {
      if parent != null {
        NotBelow();
      }
      cacheCoins, cachedCoinsUsage := c, usage;
    }

    method FetchCoin(o: OutPoint) returns (found: bool)
      requires Chained() && Inv(State())
      modifies Repr()
      ensures State() == Fetched(old(State()), depth, o) && Inv(State()) && SameViews(old(State()), State())
      ensures found <==> o in cacheCoins
      decreases depth, 0
    {
      hide Inv;
      hide SameViews;
      FetchKeeps(State(), depth, o);
      if o in cacheCoins {
        return true;
      }
      ghost var s := State();
      ghost var top := Layer(cacheCoins, cachedCoinsUsage);
      var got, tmp := ReadBase(o);
      if !got {
        return false;
      }
      UsageUpdate(cacheCoins, o, Entry(tmp, false, tmp.IsSpent()));
      UsageOf(s, depth - 1);
      SetTop(cacheCoins[o := Entry(tmp, false, tmp.IsSpent())], cachedCoinsUsage + tmp.Usage());
      return true;
    }

    /** `GetCoin` of whatever lies below. */
    method ReadBase(o: OutPoint) returns (got: bool, coin: Coin)
      requires Chained() && Inv(State()) && o !in cacheCoins
      modifies Repr() - {this}
      ensures State() == Fetched(old(State()), depth - 1, o)
      ensures cacheCoins == old(cacheCoins) && cachedCoinsUsage == old(cachedCoinsUsage)
      ensures got == View(old(State()), depth - 1, o).Some?
      ensures got ==> coin == View(old(State()), depth - 1, o).value
      decreases depth, -1
    {
      if parent == null {
        got := o in db.coins;
        coin := if got then db.coins[o] else CLEARED;
      } else {
        NotBelow();
        InvPrefix(parent.State(), Layer(cacheCoins, cachedCoinsUsage));
        FetchedPrefix(parent.State(), Layer(cacheCoins, cachedCoinsUsage), depth - 1, o);
        ViewBelow(parent.State(), State(), depth - 1, o);
        got, coin := parent.GetCoin(o);
      }
    }

    method GetCoin(o: OutPoint) returns (found: bool, coin: Coin)
      requires Chained() && Inv(State())
      modifies Repr()
      ensures State() == Fetched(old(State()), depth, o) && Inv(State()) && SameViews(old(State()), State())
      ensures found == View(old(State()), depth, o).Some?
      ensures found ==> coin == View(old(State()), depth, o).value
      decreases depth, 1
    {
      ghost var s := State();
      var cached := FetchCoin(o);
      SameViewsAt(s, State(), depth, o);
      if cached {
        coin := cacheCoins[o].coin;
        found := !coin.IsSpent();
      } else {
        found, coin := false, CLEARED;
        FetchKeeps(s, depth, o);
      }
    }

    /** The last layer of the state is this cache. */
    lemma TopIsThis()
      requires Chained()
      ensures State().layers[depth - 1] == Layer(cacheCoins, cachedCoinsUsage)
    {
    }

    /** `AddCoin`; a result of false stands for the exception. */
    method AddCoin(o: OutPoint, coin: Coin, unspendable: bool, overwrite: bool) returns (ok: bool)
      requires Chained() && Inv(State()) && !coin.IsSpent()
      modifies this
      ensures ok == WithCoin(old(State()), o, coin, unspendable, overwrite).Some?
      ensures ok ==> State() == WithCoin(old(State()), o, coin, unspendable, overwrite).value
    {
      hide Inv;
      if unspendable {
        return true;
      }
      UsageOf(State(), depth - 1);
      var inserted := o !in cacheCoins;
      var e := if inserted then Entry(CLEARED, false, false) else cacheCoins[o];
      var usage := cachedCoinsUsage;
      if !inserted {
        usage := usage - e.coin.Usage();
      }
      var nowFresh := false;
      if !overwrite {
        if !e.coin.IsSpent() {
          SetTop(cacheCoins, usage);
          return false;
        }
        nowFresh := !e.isDirty;
      }
      var f := Entry(coin, true, e.isFresh || nowFresh);
      UsageUpdate(cacheCoins, o, f);
      SetTop(cacheCoins[o := f], usage + coin.Usage());
      return true;
    }

    /** `SpendCoin` without an assets cache. */
    method SpendCoin(o: OutPoint) returns (found: bool, moveout: Coin)
      requires Chained() && Inv(State())
      modifies Repr()
      ensures State() == Spent(old(State()), o)
      ensures found == SpendFinds(old(State()), o).Some?
      ensures found ==> moveout == SpendFinds(old(State()), o).value
    {
      hide Inv;
      hide SameViews;
      hide Fetched;
      ghost var s := State();
      found := FetchCoin(o);
      moveout := CLEARED;
      if !found {
        return;
      }
      UsageOf(State(), depth - 1);
      var usage := cachedCoinsUsage - cacheCoins[o].coin.Usage();
      moveout := cacheCoins[o].coin;
      UsageRemove(cacheCoins, o);
      if cacheCoins[o].isFresh {
        SetTop(cacheCoins - {o}, usage);
      } else {
        UsageUpdate(cacheCoins, o, Entry(CLEARED, true, false));
        SetTop(cacheCoins[o := Entry(CLEARED, true, false)], usage);
      }
    }

    method Uncache(o: OutPoint)
      requires Chained() && Inv(State())
      modifies this
      ensures State() == Uncached(old(State()), depth - 1, o)
    {
      hide Inv;
      UsageOf(State(), depth - 1);
      if o in cacheCoins && !cacheCoins[o].isDirty && !cacheCoins[o].isFresh {
        UsageRemove(cacheCoins, o);
        SetTop(cacheCoins - {o}, cachedCoinsUsage - cacheCoins[o].coin.Usage());
      }
    }

    /** One entry of `BatchWrite`. */
    method MergeEntry(o: OutPoint, it: Entry)
      requires Chained() && cachedCoinsUsage == Usage(cacheCoins) && !Misapplied(Own(cacheCoins, o), it)
      modifies this
      ensures cachedCoinsUsage == Usage(cacheCoins)
      ensures cacheCoins == WithOwn(old(cacheCoins), o, Merged(Own(old(cacheCoins), o), it))
      ensures State() == WithCoins(old(State()), depth - 1, cacheCoins)
    {
      SetTop(cacheCoins, cachedCoinsUsage);
      if !it.isDirty {
        assert cacheCoins == WithOwn(cacheCoins, o, Own(cacheCoins, o));
        return;
      }
      if o !in cacheCoins {
        if !(it.isFresh && it.coin.IsSpent()) {
          UsageUpdate(cacheCoins, o, Entry(it.coin, true, it.isFresh));
          SetTop(cacheCoins[o := Entry(it.coin, true, it.isFresh)], cachedCoinsUsage + it.coin.Usage());
        } else {
          assert cacheCoins == cacheCoins - {o};
        }
      } else {
        if cacheCoins[o].isFresh && it.coin.IsSpent() {
          UsageRemove(cacheCoins, o);
          SetTop(cacheCoins - {o}, cachedCoinsUsage - cacheCoins[o].coin.Usage());
        } else {
          UsageUpdate(cacheCoins, o, Entry(it.coin, true, cacheCoins[o].isFresh));
          SetTop(cacheCoins[o := Entry(it.coin, true, cacheCoins[o].isFresh)],
                 cachedCoinsUsage - cacheCoins[o].coin.Usage() + it.coin.Usage());
        }
      }
    }

    /** `BatchWrite`; a result of false stands for the exception. */
    method BatchWrite(child: Cache) returns (ok: bool)
      requires Chained() && cachedCoinsUsage == Usage(cacheCoins)
      modifies this
      ensures ok <==> forall o :: o in child ==> !Misapplied(Own(old(cacheCoins), o), child[o])
      ensures ok ==> State() == WithCoins(old(State()), depth - 1, MergedAll(old(cacheCoins), child))
    {
      hide Merged;
      hide Usage;
      hide State;
      SetTop(cacheCoins, cachedCoinsUsage);
      var rest := child.Keys;
      while rest != {}
        invariant rest <= child.Keys && cachedCoinsUsage == Usage(cacheCoins)
        invariant MergedSoFar(old(cacheCoins), child, rest, cacheCoins)
        invariant forall o :: o in child && o !in rest ==> !Misapplied(Own(old(cacheCoins), o), child[o])
        invariant State() == WithCoins(old(State()), depth - 1, cacheCoins)
      {
        var o :| o in rest;
        MergedNext(old(cacheCoins), child, rest, cacheCoins, o);
        if Misapplied(Own(cacheCoins, o), child[o]) {
          return false;
        }
        MergeEntry(o, child[o]);
        rest := rest - {o};
      }
      MergedDone(old(cacheCoins), child, cacheCoins);
      return true;
    }

    method Flush() returns (ok: bool)
      requires Chained() && Inv(State())
      modifies Repr()
      ensures ok && State() == Flushed(old(State()), depth - 1)
    {
      hide Inv;
      hide MergedAll;
      hide Misapplied;
      ghost var s := State();
      FlushKeeps(s, depth - 1);
      TopIsThis();
      if parent == null {
        db.BatchWrite(cacheCoins);
        ok := true;
      } else {
        NotBelow();
        UsageOf(s, depth - 2);
        parent.TopIsThis();
        assert s.layers[depth - 2] == parent.State().layers[depth - 2];
        ok := parent.BatchWrite(cacheCoins);
      }
      SetTop(map[], 0);
      assert State().layers == Flushed(s, depth - 1).layers;
    }
  }
}
