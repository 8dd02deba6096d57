/** A stack of coin caches over a database, as a value.

Each layer is a write-back cache over the layers below it.  What a layer says about an output is its view;
the layers together must act like a plain map from outputs to unspent coins.
*/
module Coins {
  import opened Basics

  datatype OutPoint = OutPoint(txid: nat, n: nat)

  /** A coin; a value of -1 marks a spent one. */
  datatype Coin = Coin(value: int, script: seq<nat>, height: nat, coinBase: bool) {
    predicate IsSpent() {
      value == -1
    }

    /** Heap memory of the script: scripts of up to 28 bytes are stored in place. */
    function Usage(): nat {
      if |script| <= 28 then 0 else ((|script| + 31) / 16) * 16
    }
  }

  /** What `Clear` leaves. */
  const CLEARED := Coin(-1, [], 0, false)

  /** The flags are DIRTY and FRESH. */
  datatype Entry = Entry(coin: Coin, isDirty: bool, isFresh: bool)

  type Cache = map<OutPoint, Entry>

  datatype Layer = Layer(coins: Cache, usage: int)

  datatype Stack = Stack(db: map<OutPoint, Coin>, layers: seq<Layer>)

  // ----- views

  /** What an entry says about its output. */
  function Said(e: Entry): Option<Coin> {
    if e.coin.IsSpent() then None else Some(e.coin)
  }

  /** What the database and the lowest `k` layers say about an output. */
  function View(s: Stack, k: nat, o: OutPoint): Option<Coin>
    requires k <= |s.layers|
    decreases k
  {
    if k == 0 then (if o in s.db then Some(s.db[o]) else None)
    else if o in s.layers[k - 1].coins then Said(s.layers[k - 1].coins[o])
    else View(s, k - 1, o)
  }

  lemma {:induction false} ViewBelow(s: Stack, t: Stack, k: nat, o: OutPoint)
    requires k <= |s.layers| && k <= |t.layers| && s.db == t.db
    requires forall i :: 0 <= i < k ==> s.layers[i].coins == t.layers[i].coins
    ensures View(s, k, o) == View(t, k, o)
    decreases k
  {
    if k != 0 {
      ViewBelow(s, t, k - 1, o);
    }
  }

  lemma SameBelow(s: Stack, t: Stack, k: nat)
    requires k <= |s.layers| && k <= |t.layers| && s.db == t.db
    requires forall i :: 0 <= i < k ==> s.layers[i].coins == t.layers[i].coins
    ensures SameView(s, t, k)
  {
    forall o ensures View(s, k, o) == View(t, k, o) {
      ViewBelow(s, t, k, o);
    }
  }

  // ----- the invariant

  /** The memory used by the coins of a cache. */
  ghost function Usage(c: Cache): int
    decreases c.Keys
  {
    if c == map[] then 0 else
    assert exists o :: o in c;
    var o :| o in c;
    c[o].coin.Usage() + Usage(c - {o})
  }

  lemma {:induction false} UsageRemove(c: Cache, p: OutPoint)
    requires p in c
    ensures Usage(c) == c[p].coin.Usage() + Usage(c - {p})
    decreases c.Keys
  {
    var o :| o in c && Usage(c) == c[o].coin.Usage() + Usage(c - {o});
    if o != p {
      UsageRemove(c - {o}, p);
      UsageRemove(c - {p}, o);
      assert c - {o} - {p} == c - {p} - {o};
    }
  }

  lemma UsageUpdate(c: Cache, o: OutPoint, e: Entry)
    ensures Usage(c[o := e]) == Usage(c) - (if o in c then c[o].coin.Usage() else 0) + e.coin.Usage()
  {
    UsageRemove(c[o := e], o);
    if o in c {
      UsageRemove(c, o);
      assert c[o := e] - {o} == c - {o};
    } else {
      assert c[o := e] - {o} == c;
    }
  }

  /** What an entry promises about the view it lies over: an unmodified entry repeats it, and a FRESH one is
      unspent where that view has nothing. */
  predicate Sound(e: Entry, parent: Option<Coin>) {
    && (!e.isDirty ==> !e.isFresh && !e.coin.IsSpent() && parent == Some(e.coin))
    && (e.isFresh ==> parent == None && !e.coin.IsSpent())
    && (e.coin.IsSpent() ==> e.coin == CLEARED)
  }

  ghost predicate LayerOk(s: Stack, k: nat)
    requires k < |s.layers|
  {
    && s.layers[k].usage == Usage(s.layers[k].coins)
    && forall o :: o in s.layers[k].coins ==> Sound(s.layers[k].coins[o], View(s, k, o))
  }

  ghost predicate Inv(s: Stack) {
    && (forall o :: o in s.db ==> !s.db[o].IsSpent())
    && forall k :: 0 <= k < |s.layers| ==> LayerOk(s, k)
  }

  // ----- one layer at a time

  /** Layer `j` with other coins; the memory use follows. */
  ghost function WithCoins(s: Stack, j: nat, c: Cache): Stack
    requires j < |s.layers|
  {
    s.(layers := s.layers[j := Layer(c, Usage(c))])
  }

  /** Views above a changed layer are unchanged when that layer's own view is. */
  lemma {:induction false} ViewAbove(s: Stack, t: Stack, j: nat, k: nat, o: OutPoint)
    requires |s.layers| == |t.layers| && j < k <= |s.layers|
    requires forall i :: j < i < |s.layers| ==> s.layers[i] == t.layers[i]
    requires View(s, j + 1, o) == View(t, j + 1, o)
    ensures View(s, k, o) == View(t, k, o)
    decreases k
  {
    if k != j + 1 {
      ViewAbove(s, t, j, k - 1, o);
    }
  }

  ghost predicate SameView(s: Stack, t: Stack, k: nat)
    requires k <= |s.layers| && k <= |t.layers|
  {
    forall o :: View(s, k, o) == View(t, k, o)
  }

  ghost predicate SameViews(s: Stack, t: Stack) {
    && |s.layers| == |t.layers|
    && forall k, o :: 0 <= k <= |s.layers| ==> View(s, k, o) == View(t, k, o)
  }

  /** Changing the coins of a layer so that its view stays the same changes no view. */
  lemma QuietViews(s: Stack, j: nat, c: Cache)
    requires j < |s.layers|
    requires SameView(s, WithCoins(s, j, c), j + 1)
    ensures SameViews(s, WithCoins(s, j, c))
  {
    var t := WithCoins(s, j, c);
    forall k, o | 0 <= k <= |s.layers| ensures View(s, k, o) == View(t, k, o) {
      if k <= j {
        ViewBelow(s, t, k, o);
      } else {
        ViewAbove(s, t, j, k, o);
      }
    }
  }

  /** Such a change keeps the invariant if the new coins are sound. */
  lemma QuietKeeps(s: Stack, j: nat, c: Cache)
    requires Inv(s) && j < |s.layers| && SameViews(s, WithCoins(s, j, c))
    requires forall o :: o in c ==> Sound(c[o], View(s, j, o))
    ensures Inv(WithCoins(s, j, c))
  {
    hide View;
    hide Usage;
    hide Sound;
    var t := WithCoins(s, j, c);
    forall k | 0 <= k < |t.layers| ensures LayerOk(t, k) {
      assert LayerOk(s, k);
    }
  }

  // ----- reading

  /** `FetchCoin` in layer `k`-1 (the database for `k` = 0): whatever is read is cached on the way. */
  ghost function Fetched(s: Stack, k: nat, o: OutPoint): (t: Stack)
    requires k <= |s.layers|
    ensures |t.layers| == |s.layers| && t.db == s.db
    ensures forall i :: k <= i < |s.layers| ==> t.layers[i] == s.layers[i]
    decreases k
  {
    if k == 0 || o in s.layers[k - 1].coins then s else
    var t := Fetched(s, k - 1, o);
    match View(s, k - 1, o)
    case None => t
    case Some(coin) => WithCoins(t, k - 1, t.layers[k - 1].coins[o := Entry(coin, false, coin.IsSpent())])
  }

  lemma {:induction false} ViewUnspent(s: Stack, k: nat, o: OutPoint)
    requires Inv(s) && k <= |s.layers|
    ensures View(s, k, o).Some? ==> !View(s, k, o).value.IsSpent()
    decreases k
  {
    if k != 0 {
      ViewUnspent(s, k - 1, o);
    }
  }

  /** Caching in layer `j` what the view below says changes no view. */
  lemma CacheKeeps(s: Stack, j: nat, o: OutPoint, coin: Coin)
    requires Inv(s) && j < |s.layers| && o !in s.layers[j].coins && View(s, j, o) == Some(coin)
    ensures var t := WithCoins(s, j, s.layers[j].coins[o := Entry(coin, false, coin.IsSpent())]);
      SameViews(s, t) && Inv(t)
  {
    ViewUnspent(s, j, o);
    var c := s.layers[j].coins[o := Entry(coin, false, coin.IsSpent())];
    var t := WithCoins(s, j, c);
    SameBelow(s, t, j);
    QuietViews(s, j, c);
    assert LayerOk(s, j);
    QuietKeeps(s, j, c);
  }

  /** Reading changes no view and keeps the invariant. */
  lemma {:induction false} FetchKeeps(s: Stack, k: nat, o: OutPoint)
    requires Inv(s) && k <= |s.layers|
    ensures SameViews(s, Fetched(s, k, o)) && Inv(Fetched(s, k, o))
    ensures k != 0 && View(s, k, o).Some? ==> o in Fetched(s, k, o).layers[k - 1].coins
    decreases k
  {
    hide Inv;
    hide SameViews;
    if k == 0 || o in s.layers[k - 1].coins {
      SameViewsReflexive(s);
    } else {
      FetchKeeps(s, k - 1, o);
      var t := Fetched(s, k - 1, o);
      if View(s, k - 1, o).Some? {
        var coin := View(s, k - 1, o).value;
        SameViewsAt(s, t, k - 1, o);
        CacheKeeps(t, k - 1, o, coin);
        SameViewsTransitive(s, t, Fetched(s, k, o));
      }
    }
  }

  lemma SameViewsReflexive(s: Stack)
    ensures SameViews(s, s)
  {
  }

  lemma SameViewsAt(s: Stack, t: Stack, k: nat, o: OutPoint)
    requires SameViews(s, t) && k <= |s.layers|
    ensures |s.layers| == |t.layers| && View(s, k, o) == View(t, k, o)
  {
  }

  lemma SameViewsTransitive(s: Stack, t: Stack, u: Stack)
    requires SameViews(s, t) && SameViews(t, u)
    ensures SameViews(s, u)
  {
  }

  // ----- forgetting an unmodified entry

  /** `Uncache` in layer `j`. */
  ghost function Uncached(s: Stack, j: nat, o: OutPoint): Stack
    requires j < |s.layers|
  {
    var c := s.layers[j].coins;
    if o in c && !c[o].isDirty && !c[o].isFresh then WithCoins(s, j, c - {o}) else s
  }

  lemma UncacheKeeps(s: Stack, j: nat, o: OutPoint)
    requires Inv(s) && j < |s.layers|
    ensures SameViews(s, Uncached(s, j, o)) && Inv(Uncached(s, j, o))
  {
    assert LayerOk(s, j);
    var c := s.layers[j].coins;
    if o in c && !c[o].isDirty && !c[o].isFresh {
      var t := WithCoins(s, j, c - {o});
      SameBelow(s, t, j);
      var above := j + 1;
      forall p ensures View(s, above, p) == View(t, above, p) {
        assert View(s, j, p) == View(t, j, p);
      }
      QuietViews(s, j, c - {o});
      QuietKeeps(s, j, c - {o});
    }
  }

  // ----- changing the top layer

  /** The view of the whole stack. */
  function Top(s: Stack, o: OutPoint): Option<Coin> {
    View(s, |s.layers|, o)
  }

  /** The stack with another coin, or none, for one output, as far as views can tell. */
  ghost predicate TopChanged(s: Stack, t: Stack, o: OutPoint, now: Option<Coin>) {
    && |t.layers| == |s.layers|
    && (forall k, p :: 0 <= k < |s.layers| ==> View(t, k, p) == View(s, k, p))
    && forall p :: Top(t, p) == if p == o then now else Top(s, p)
  }

  /** Changing one entry of the top layer. */
  lemma TopKeeps(s: Stack, o: OutPoint, c: Cache, now: Option<Coin>)
    requires Inv(s) && s.layers != []
    requires var n := |s.layers| - 1;
      && (forall p :: p != o ==> (p in c <==> p in s.layers[n].coins))
      && (forall p :: p != o && p in c ==> c[p] == s.layers[n].coins[p])
      && if o in c then Sound(c[o], View(s, n, o)) && now == Said(c[o]) else now == View(s, n, o)
    ensures var t := WithCoins(s, |s.layers| - 1, c);
      TopChanged(s, t, o, now) && Inv(t)
  {
    hide Usage;
    hide Sound;
    var n := |s.layers| - 1;
    var t := WithCoins(s, n, c);
    forall k, p | 0 <= k < |s.layers| ensures View(t, k, p) == View(s, k, p) {
      ViewBelow(s, t, k, p);
    }
    forall p ensures Top(t, p) == if p == o then now else Top(s, p) {
      assert View(t, n, p) == View(s, n, p);
    }
    forall k | 0 <= k < |t.layers| ensures LayerOk(t, k) {
      assert LayerOk(s, k);
    }
  }

  /** `AddCoin` on the top layer; none stands for the exception. */
  ghost function WithCoin(s: Stack, o: OutPoint, coin: Coin, unspendable: bool, overwrite: bool): Option<Stack>
    requires s.layers != []
  {
    if unspendable then Some(s) else
    var n := |s.layers| - 1;
    var c := s.layers[n].coins;
    var e := if o in c then c[o] else Entry(CLEARED, false, false);
    if !overwrite && !e.coin.IsSpent() then None else
    Some(WithCoins(s, n, c[o := Entry(coin, true, e.isFresh || (!overwrite && !e.isDirty))]))
  }

  /** Adding a coin is adding it to the map, if it replaces none or may replace one. */
  lemma AddKeeps(s: Stack, o: OutPoint, coin: Coin, overwrite: bool)
    requires Inv(s) && s.layers != [] && !coin.IsSpent()
    requires !overwrite ==> Top(s, o) == None
    ensures var r := WithCoin(s, o, coin, false, overwrite);
      r.Some? && TopChanged(s, r.value, o, Some(coin)) && Inv(r.value)
  {
    var n := |s.layers| - 1;
    var c := s.layers[n].coins;
    assert LayerOk(s, n);
    var e := if o in c then c[o] else Entry(CLEARED, false, false);
    TopKeeps(s, o, c[o := Entry(coin, true, e.isFresh || (!overwrite && !e.isDirty))], Some(coin));
  }

  /** The exception is thrown just when the top layer itself knows the coin as unspent. */
  lemma AddThrows(s: Stack, o: OutPoint, coin: Coin, overwrite: bool)
    requires Inv(s) && s.layers != []
    ensures var c := s.layers[|s.layers| - 1].coins;
      WithCoin(s, o, coin, false, overwrite) == None <==> !overwrite && o in c && Top(s, o) != None
  {
  }

  /** Without that knowledge the coin is marked FRESH over an unspent one: the invariant is lost, spending the new
      coin brings the old one back into view, and if the layer below has the old one cached, flushing throws. */
  lemma AddMisused(s: Stack, o: OutPoint, coin: Coin)
    requires Inv(s) && s.layers != [] && !coin.IsSpent()
    requires o !in s.layers[|s.layers| - 1].coins && Top(s, o) != None
    ensures WithCoin(s, o, coin, false, false).Some?
    ensures var n, t := |s.layers| - 1, WithCoin(s, o, coin, false, false).value;
      && !Inv(t) && Top(t, o) == Some(coin)
      && Top(Spent(t, o), o) == Top(s, o)
      && (n != 0 && o in s.layers[n - 1].coins ==> Misapplied(Own(t.layers[n - 1].coins, o), t.layers[n].coins[o]))
  {
    var n := |s.layers| - 1;
    var t := WithCoin(s, o, coin, false, false).value;
    ViewBelow(s, t, n, o);
    assert !LayerOk(t, n);
    assert Fetched(t, n + 1, o) == t;
    var u := Spent(t, o);
    ViewBelow(s, u, n, o);
  }

  /** `SpendCoin` on the top layer. */
  ghost function Spent(s: Stack, o: OutPoint): Stack
    requires s.layers != []
  {
    var n := |s.layers| - 1;
    var t := Fetched(s, n + 1, o);
    var c := t.layers[n].coins;
    if o !in c then t
    else if c[o].isFresh then WithCoins(t, n, c - {o})
    else WithCoins(t, n, c[o := Entry(CLEARED, true, false)])
  }

  /** What `SpendCoin` returns: whether there was an entry, even one already spent, and its coin. */
  ghost function SpendFinds(s: Stack, o: OutPoint): Option<Coin>
    requires s.layers != []
  {
    var c := Fetched(s, |s.layers|, o).layers[|s.layers| - 1].coins;
    if o in c then Some(c[o].coin) else None
  }

  /** Spending a coin is removing it from the map. The coin found is the one in the view; where there is none, a
      cleared one is found just if the cache itself has an entry. */
  lemma SpendKeeps(s: Stack, o: OutPoint)
    requires Inv(s) && s.layers != []
    ensures TopChanged(s, Spent(s, o), o, None) && Inv(Spent(s, o))
    ensures Top(s, o).Some? ==> SpendFinds(s, o) == Top(s, o)
    ensures Top(s, o).None? ==>
      SpendFinds(s, o) == if o in s.layers[|s.layers| - 1].coins then Some(CLEARED) else None
  {
    hide Inv;
    hide Fetched;
    var n := |s.layers| - 1;
    FetchKeeps(s, n + 1, o);
    FetchedTop(s, o);
    var t := Fetched(s, n + 1, o);
    var c := t.layers[n].coins;
    assert Top(s, o) == Top(t, o);
    if o in c {
      EntrySound(t, n, o);
      var d := if c[o].isFresh then c - {o} else c[o := Entry(CLEARED, true, false)];
      TopKeeps(t, o, d, None);
      TopChangedFrom(s, t, Spent(s, o), o, None);
    }
  }

  lemma EntrySound(s: Stack, n: nat, o: OutPoint)
    requires Inv(s) && n < |s.layers| && o in s.layers[n].coins
    ensures Sound(s.layers[n].coins[o], View(s, n, o))
  {
    assert LayerOk(s, n);
  }

  /** What reading puts into the top cache is in the view. */
  lemma FetchedTop(s: Stack, o: OutPoint)
    requires Inv(s) && s.layers != []
    ensures var n, t := |s.layers| - 1, Fetched(s, |s.layers|, o);
      && |t.layers| == |s.layers|
      && (o in t.layers[n].coins <==> o in s.layers[n].coins || Top(s, o).Some?)
  {
    FetchKeeps(s, |s.layers|, o);
  }

  /** A coin that is spent twice in the same cache: the second time there is an entry too, with a cleared coin. */
  lemma SpentTwice(o: OutPoint, coin: Coin)
    requires !coin.IsSpent()
    ensures
      var s := Stack(map[o := coin], [Layer(map[], 0)]);
      && Inv(s) && SpendFinds(s, o) == Some(coin)
      && Top(Spent(s, o), o) == None && SpendFinds(Spent(s, o), o) == Some(CLEARED)
  {
    var s := Stack(map[o := coin], [Layer(map[], 0)]);
    assert Inv(s);
    SpendKeeps(s, o);
    var t := Spent(s, o);
    SpendKeeps(t, o);
    assert Fetched(s, 1, o).layers[0].coins == map[o := Entry(coin, false, false)];
    assert o in t.layers[0].coins;
  }

  lemma TopChangedFrom(s: Stack, t: Stack, u: Stack, o: OutPoint, now: Option<Coin>)
    requires SameViews(s, t) && TopChanged(t, u, o, now)
    ensures TopChanged(s, u, o, now)
  {
  }

  // ----- flushing a layer into the one below

  /** What `BatchWrite` makes of an entry of its own, if any, when the child has entry `it`. */
  function Merged(own: Option<Entry>, it: Entry): Option<Entry> {
    if !it.isDirty then own else
    match own
    case None => if it.isFresh && it.coin.IsSpent() then None else Some(Entry(it.coin, true, it.isFresh))
    case Some(e) => if e.isFresh && it.coin.IsSpent() then None else Some(Entry(it.coin, true, e.isFresh))
  }

  /** The combination for which `BatchWrite` throws. */
  predicate Misapplied(own: Option<Entry>, it: Entry) {
    it.isDirty && it.isFresh && own.Some? && !own.value.coin.IsSpent()
  }

  function Own(c: Cache, o: OutPoint): Option<Entry> {
    if o in c then Some(c[o]) else None
  }

  function MergedAt(c: Cache, child: Cache, o: OutPoint): Option<Entry> {
    if o in child then Merged(Own(c, o), child[o]) else Own(c, o)
  }

  /** `BatchWrite` of a cache into another. */
  function MergedAll(c: Cache, child: Cache): Cache {
    map o | o in c.Keys + child.Keys && MergedAt(c, child, o).Some? :: MergedAt(c, child, o).value
  }

  /** `BatchWrite` of a cache into the database. */
  function Written(db: map<OutPoint, Coin>, child: Cache): map<OutPoint, Coin> {
    map o | o in db.Keys + child.Keys && (if o in child && child[o].isDirty then !child[o].coin.IsSpent() else o in db)
      :: if o in child && child[o].isDirty then child[o].coin else db[o]
  }

  /** The layers above the one below are left alone, and the flushed layer is empty. */
  ghost function Flushed(s: Stack, k: nat): Stack
    requires k < |s.layers|
  {
    var c := s.layers[k].coins;
    var t := WithCoins(s, k, map[]);
    if k == 0 then t.(db := Written(s.db, c)) else WithCoins(t, k - 1, MergedAll(s.layers[k - 1].coins, c))
  }

  /** No view changes but the one below the flushed layer, which becomes the flushed layer's own. */
  ghost predicate FlushedViews(s: Stack, t: Stack, k: nat) {
    && |t.layers| == |s.layers| && k < |s.layers|
    && forall i, o :: 0 <= i <= |s.layers| ==> View(t, i, o) == View(s, if i == k then k + 1 else i, o)
  }

  /** One entry is merged: the view of the layer becomes what the child says, and the entry is sound. */
  lemma MergedSound(own: Option<Entry>, it: Entry, parent: Option<Coin>, below: Option<Coin>)
    requires parent == (if own.Some? then Said(own.value) else below)
    requires Sound(it, parent) && (own.Some? ==> Sound(own.value, below))
    ensures !Misapplied(own, it)
    ensures var e := Merged(own, it);
      && (if e.Some? then Said(e.value) else below) == Said(it)
      && (e.Some? ==> Sound(e.value, below))
  {
  }

  lemma FlushedBelow(s: Stack, k: nat, o: OutPoint)
    requires Inv(s) && k < |s.layers|
    ensures View(Flushed(s, k), k, o) == View(s, k + 1, o)
  {
    var t := Flushed(s, k);
    assert LayerOk(s, k);
    if k != 0 {
      ViewBelow(s, t, k - 1, o);
      assert LayerOk(s, k - 1);
      if o in s.layers[k].coins {
        MergedSound(Own(s.layers[k - 1].coins, o), s.layers[k].coins[o], View(s, k, o), View(s, k - 1, o));
      }
    }
  }

  lemma FlushedAbove(s: Stack, k: nat, i: nat, o: OutPoint)
    requires Inv(s) && k < i <= |s.layers|
    ensures View(Flushed(s, k), i, o) == View(s, i, o)
  {
    FlushedBelow(s, k, o);
    var t := Flushed(s, k);
    assert View(t, k + 1, o) == View(t, k, o);
    ViewAbove(s, t, k, i, o);
  }

  /** Flushing any layer changes nothing for that layer and those above it. */
  lemma FlushViews(s: Stack, k: nat)
    requires Inv(s) && k < |s.layers|
    ensures FlushedViews(s, Flushed(s, k), k)
  {
    hide Inv;
    var t := Flushed(s, k);
    forall i, o | 0 <= i <= |s.layers| ensures View(t, i, o) == View(s, if i == k then k + 1 else i, o) {
      if i < k {
        ViewBelow(s, t, i, o);
      } else if i == k {
        FlushedBelow(s, k, o);
      } else {
        FlushedAbove(s, k, i, o);
      }
    }
  }

  lemma FlushedLayer(s: Stack, k: nat, i: nat)
    requires Inv(s) && k < |s.layers| && i < |s.layers| && FlushedViews(s, Flushed(s, k), k)
    ensures LayerOk(Flushed(s, k), i)
  {
    hide Usage;
    hide Merged;
    hide Sound;
    var t := Flushed(s, k);
    assert LayerOk(s, i);
    if i == k {
      assert t.layers[i] == Layer(map[], Usage(map[]));
    } else if i + 1 == k {
      assert LayerOk(s, k);
      var c := s.layers[i].coins;
      forall o | o in t.layers[i].coins ensures Sound(t.layers[i].coins[o], View(t, i, o)) {
        assert View(t, i, o) == View(s, i, o);
        if o in s.layers[k].coins {
          MergedSound(Own(c, o), s.layers[k].coins[o], View(s, k, o), View(s, i, o));
        }
      }
    }
  }

  /** Flushing changes no view at all just when the layer says nothing that the one below it does not. */
  lemma FlushSilent(s: Stack, k: nat)
    requires Inv(s) && k < |s.layers|
    ensures SameViews(s, Flushed(s, k)) <==>
      forall o :: o in s.layers[k].coins ==> Said(s.layers[k].coins[o]) == View(s, k, o)
  {
    hide Inv;
    hide Flushed;
    FlushViews(s, k);
    var t := Flushed(s, k);
    if SameViews(s, t) {
      forall o | o in s.layers[k].coins ensures Said(s.layers[k].coins[o]) == View(s, k, o) {
        assert View(t, k, o) == View(s, k + 1, o);
      }
    }
    if forall o :: o in s.layers[k].coins ==> Said(s.layers[k].coins[o]) == View(s, k, o) {
      forall i, o | 0 <= i <= |s.layers| ensures View(s, i, o) == View(t, i, o) {
        assert View(s, k + 1, o) == View(s, k, o);
      }
    }
  }

  /** One new coin in the only cache: the database does not show it before the flush, and shows it after. */
  lemma FlushShows(o: OutPoint, coin: Coin)
    requires !coin.IsSpent()
    ensures
      var c := map[o := Entry(coin, true, true)];
      var s := Stack(map[], [Layer(c, Usage(c))]);
      Inv(s) && View(s, 0, o) == None && View(Flushed(s, 0), 0, o) == Some(coin)
  {
    var c := map[o := Entry(coin, true, true)];
    var s := Stack(map[], [Layer(c, Usage(c))]);
    assert Inv(s);
    FlushViews(s, 0);
    assert View(Flushed(s, 0), 0, o) == View(s, 1, o);
  }

  /** Flushing any layer keeps the invariant, and the exception of `BatchWrite` is not thrown. */
  lemma FlushKeeps(s: Stack, k: nat)
    requires Inv(s) && k < |s.layers|
    ensures Inv(Flushed(s, k)) && FlushedViews(s, Flushed(s, k), k)
    ensures k != 0 ==> forall o :: o in s.layers[k].coins ==>
      !Misapplied(Own(s.layers[k - 1].coins, o), s.layers[k].coins[o])
  {
    hide FlushedViews;
    hide Usage;
    FlushViews(s, k);
    forall i | 0 <= i < |s.layers| ensures LayerOk(Flushed(s, k), i) {
      FlushedLayer(s, k, i);
    }
    assert LayerOk(s, k);
    if k != 0 {
      assert LayerOk(s, k - 1);
      forall o | o in s.layers[k].coins
        ensures !Misapplied(Own(s.layers[k - 1].coins, o), s.layers[k].coins[o])
      {
        MergedSound(Own(s.layers[k - 1].coins, o), s.layers[k].coins[o], View(s, k, o), View(s, k - 1, o));
      }
    }
  }

  // ----- every run refines plain maps

  /** What can be done to a stack: reading through a layer, forgetting an unmodified entry, adding or spending
      on top, flushing a layer, putting an empty layer on top, and throwing the top layer away. */
  datatype Op =
    | Read(k: nat, o: OutPoint)
    | Forget(j: nat, o: OutPoint)
    | Add(o: OutPoint, coin: Coin, unspendable: bool, overwrite: bool)
    | Spend(o: OutPoint)
    | Flush(k: nat)
    | Push
    | Pop

  /** The same stack as maps from outputs to coins, the database first. */
  type Plain = seq<map<OutPoint, Coin>>

  ghost predicate Agrees(s: Stack, m: Plain) {
    && |m| == |s.layers| + 1
    && forall k, o :: 0 <= k < |m| ==> View(s, k, o) == if o in m[k] then Some(m[k][o]) else None
  }

  /** What callers must keep to. */
  predicate Allowed(m: Plain, op: Op) {
    m != [] &&
    match op
    case Read(k, _) => k < |m|
    case Forget(j, _) => j < |m| - 1
    case Add(o, coin, unspendable, overwrite) =>
      |m| > 1 && !coin.IsSpent() && (unspendable || overwrite || o !in m[|m| - 1])
    case Spend(_) => |m| > 1
    case Flush(k) => k < |m| - 1
    case Push => true
    case Pop => |m| > 1
  }

  /** What the operations are on plain maps. */
  function PlainDone(m: Plain, op: Op): Plain
    requires Allowed(m, op)
  {
    var n := |m| - 1;
    match op
    case Read(_, _) => m
    case Forget(_, _) => m
    case Add(o, coin, unspendable, _) => if unspendable then m else m[n := m[n][o := coin]]
    case Spend(o) => m[n := m[n] - {o}]
    case Flush(k) => m[k := m[k + 1]]
    case Push => m + [m[n]]
    case Pop => m[..n]
  }

  /** What they are on caches. */
  ghost function Done(s: Stack, op: Op, m: Plain): Option<Stack>
    requires Agrees(s, m) && Allowed(m, op)
  {
    match op
    case Read(k, o) => Some(Fetched(s, k, o))
    case Forget(j, o) => Some(Uncached(s, j, o))
    case Add(o, coin, unspendable, overwrite) => WithCoin(s, o, coin, unspendable, overwrite)
    case Spend(o) => Some(Spent(s, o))
    case Flush(k) => Some(Flushed(s, k))
    case Push => Some(s.(layers := s.layers + [Layer(map[], 0)]))
    case Pop => Some(s.(layers := s.layers[..|s.layers| - 1]))
  }

  lemma AgreesSame(s: Stack, t: Stack, m: Plain)
    requires Agrees(s, m) && SameViews(s, t)
    ensures Agrees(t, m)
  {
  }

  lemma AgreesTop(s: Stack, t: Stack, m: Plain, o: OutPoint, now: Option<Coin>)
    requires Agrees(s, m) && TopChanged(s, t, o, now)
    ensures var n := |m| - 1;
      Agrees(t, m[n := if now.Some? then m[n][o := now.value] else m[n] - {o}])
  {
    var n := |m| - 1;
    var m' := m[n := if now.Some? then m[n][o := now.value] else m[n] - {o}];
    forall k, p | 0 <= k < |m'| ensures View(t, k, p) == if p in m'[k] then Some(m'[k][p]) else None {
      assert View(s, k, p) == if p in m[k] then Some(m[k][p]) else None;
      if k == n {
        assert Top(t, p) == if p == o then now else Top(s, p);
      }
    }
  }

  lemma AgreesFlushed(s: Stack, t: Stack, m: Plain, k: nat)
    requires Agrees(s, m) && FlushedViews(s, t, k)
    ensures Agrees(t, m[k := m[k + 1]])
  {
    var m' := m[k := m[k + 1]];
    forall i, o | 0 <= i < |m'| ensures View(t, i, o) == if o in m'[i] then Some(m'[i][o]) else None {
      var j := if i == k then k + 1 else i;
      assert View(s, j, o) == if o in m[j] then Some(m[j][o]) else None;
    }
  }

  lemma PushKeeps(s: Stack, m: Plain)
    requires Inv(s) && Agrees(s, m)
    ensures var t := s.(layers := s.layers + [Layer(map[], 0)]); Inv(t) && Agrees(t, m + [m[|m| - 1]])
  {
    var t := s.(layers := s.layers + [Layer(map[], 0)]);
    var m' := m + [m[|m| - 1]];
    forall k, o | 0 <= k < |m'| ensures View(t, k, o) == if o in m'[k] then Some(m'[k][o]) else None {
      var j := if k == |m| then |m| - 1 else k;
      ViewBelow(s, t, j, o);
      assert View(s, j, o) == if o in m[j] then Some(m[j][o]) else None;
    }
    forall k | 0 <= k < |t.layers| ensures LayerOk(t, k) {
      if k < |s.layers| {
        assert LayerOk(s, k);
        SameBelow(s, t, k);
      }
    }
  }

  lemma PopKeeps(s: Stack, m: Plain)
    requires Inv(s) && Agrees(s, m) && |m| > 1
    ensures var t := s.(layers := s.layers[..|s.layers| - 1]); Inv(t) && Agrees(t, m[..|m| - 1])
  {
    var t := s.(layers := s.layers[..|s.layers| - 1]);
    forall k, o | 0 <= k < |m| - 1 ensures View(t, k, o) == if o in m[k] then Some(m[k][o]) else None {
      ViewBelow(s, t, k, o);
    }
    forall k | 0 <= k < |t.layers| ensures LayerOk(t, k) {
      assert LayerOk(s, k);
      SameBelow(s, t, k);
    }
  }

  /** Every operation does to the views what it does to plain maps, and no exception is thrown. */
  lemma StepRefines(s: Stack, m: Plain, op: Op)
    requires Inv(s) && Agrees(s, m) && Allowed(m, op)
    ensures Done(s, op, m).Some?
    ensures Inv(Done(s, op, m).value) && Agrees(Done(s, op, m).value, PlainDone(m, op))
  {
    hide Inv;
    hide SameViews;
    hide TopChanged;
    hide FlushedViews;
    match op {
      case Read(k, o) => FetchKeeps(s, k, o); AgreesSame(s, Fetched(s, k, o), m);
      case Forget(j, o) => UncacheKeeps(s, j, o); AgreesSame(s, Uncached(s, j, o), m);
      case Add(o, coin, unspendable, overwrite) =>
        if !unspendable {
          assert Top(s, o) == View(s, |m| - 1, o);
          AddKeeps(s, o, coin, overwrite);
          AgreesTop(s, WithCoin(s, o, coin, false, overwrite).value, m, o, Some(coin));
        }
      case Spend(o) => SpendKeeps(s, o); AgreesTop(s, Spent(s, o), m, o, None);
      case Flush(k) => FlushKeeps(s, k); AgreesFlushed(s, Flushed(s, k), m, k);
      case Push => PushKeeps(s, m);
      case Pop => PopKeeps(s, m);
    }
  }

  /** The states of a run, or none once an exception was thrown. */
  ghost predicate Runs(s: Stack, m: Plain, ops: seq<Op>, t: Stack, m': Plain)
    decreases |ops|
  {
    if ops == [] then t == s && m' == m
    else
      && Agrees(s, m) && Allowed(m, ops[0])
      && Done(s, ops[0], m).Some?
      && Runs(Done(s, ops[0], m).value, PlainDone(m, ops[0]), ops[1..], t, m')
  }

  /** Whether callers keep to the rules along the whole run. */
  predicate AllAllowed(m: Plain, ops: seq<Op>)
    decreases |ops|
  {
    ops == [] || (Allowed(m, ops[0]) && AllAllowed(PlainDone(m, ops[0]), ops[1..]))
  }

  /** Every run within the rules, over any database and through any number of layers, goes through without an
      exception and ends with the views that the plain maps have. */
  lemma {:induction false} RunRefines(s: Stack, m: Plain, ops: seq<Op>) returns (t: Stack, m': Plain)
    requires Inv(s) && Agrees(s, m) && AllAllowed(m, ops)
    ensures Runs(s, m, ops, t, m') && Inv(t) && Agrees(t, m')
    decreases |ops|
  {
    hide Inv;
    hide Agrees;
    hide Done;
    hide PlainDone;
    if ops == [] {
      t, m' := s, m;
    } else {
      StepRefines(s, m, ops[0]);
      t, m' := RunRefines(Done(s, ops[0], m).value, PlainDone(m, ops[0]), ops[1..]);
    }
  }

  /** Where runs start: a database without caches. */
  lemma StartAgrees(db: map<OutPoint, Coin>)
    requires forall o :: o in db ==> !db[o].IsSpent()
    ensures Inv(Stack(db, [])) && Agrees(Stack(db, []), [db])
  {
  }
}
