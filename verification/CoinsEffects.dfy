/** What the caches hold after each operation, beyond what views can tell: what is cached, what is forgotten, and
that a coin which comes and goes leaves no trace. */
module CoinsEffects {
  import opened Basics
  import opened Coins

  /** In every layer only the entry for one output may differ. */
  ghost predicate OnlyEntry(s: Stack, t: Stack, o: OutPoint) {
    && t.db == s.db && |t.layers| == |s.layers|
    && forall i, p :: 0 <= i < |s.layers| && p != o ==> Own(t.layers[i].coins, p) == Own(s.layers[i].coins, p)
  }

  /** Reading caches the coin, unmodified, in every layer down to the first that has an entry, and nothing where
      there is no coin. */
  lemma {:induction false} FetchCaches(s: Stack, k: nat, o: OutPoint, i: nat)
    requires Inv(s) && k <= |s.layers| && i < k
    ensures var t := Fetched(s, k, o);
      && OnlyEntry(s, t, o)
      && (o in s.layers[i].coins || View(s, k, o).None? ==> Own(t.layers[i].coins, o) == Own(s.layers[i].coins, o))
      && (View(s, k, o).Some? && (forall j :: i <= j < k ==> o !in s.layers[j].coins) ==>
            Own(t.layers[i].coins, o) == Some(Entry(View(s, k, o).value, false, false)))
    decreases k
  {
    hide Inv;
    hide Usage;
    ViewUnspent(s, k - 1, o);
    if o !in s.layers[k - 1].coins && i < k - 1 {
      FetchCaches(s, k - 1, o, i);
    } else if o !in s.layers[k - 1].coins && 0 < k - 1 {
      FetchCaches(s, k - 1, o, 0);
    }
  }

  /** Forgetting takes the entry out of its layer if it is unmodified, and does nothing otherwise. */
  lemma UncacheExactly(s: Stack, j: nat, o: OutPoint)
    requires j < |s.layers|
    ensures var t, c := Uncached(s, j, o), s.layers[j].coins;
      && OnlyEntry(s, t, o)
      && (forall i :: 0 <= i < |s.layers| && i != j ==> t.layers[i] == s.layers[i])
      && (if o in c && (c[o].isDirty || c[o].isFresh) then t == s else o !in t.layers[j].coins)
  {
    hide Usage;
  }

  /** A flushed layer is empty, and no other changes but the one below it. */
  lemma FlushEmpties(s: Stack, k: nat)
    requires k < |s.layers|
    ensures var t := Flushed(s, k);
      && |t.layers| == |s.layers| && t.layers[k] == Layer(map[], 0)
      && (forall i :: 0 <= i < |s.layers| && i != k && i != k - 1 ==> t.layers[i] == s.layers[i])
      && (0 < k ==> t.db == s.db)
  {
  }

  /** What becomes of an entry below when one is flushed onto it: nothing if that is unmodified; else it is modified,
      and FRESH if the only entry there is was FRESH, and gone if that one was and the coin is spent. */
  lemma MergedExactly(c: Cache, child: Cache, o: OutPoint)
    requires o in child
    ensures var own, now := Own(c, o), Own(MergedAll(c, child), o);
      if !child[o].isDirty then now == own else
      var unknown := if own.Some? then own.value.isFresh else child[o].isFresh;
      if unknown && child[o].coin.IsSpent() then now == None else now == Some(Entry(child[o].coin, true, unknown))
  {
  }

  /** A coin that is added and spent in the same layer leaves the layer as it was. */
  lemma NoTrace(s: Stack, o: OutPoint, coin: Coin)
    requires Inv(s) && s.layers != [] && !coin.IsSpent() && Top(s, o) == None
    requires o !in s.layers[|s.layers| - 1].coins
    ensures var r := WithCoin(s, o, coin, false, false);
      r.Some? && Spent(r.value, o).layers[|s.layers| - 1].coins == s.layers[|s.layers| - 1].coins
  {
    hide Usage;
    var n := |s.layers| - 1;
    var c := s.layers[n].coins;
    var t := WithCoin(s, o, coin, false, false).value;
    assert t.layers[n].coins == c[o := Entry(coin, true, true)];
    assert c[o := Entry(coin, true, true)] - {o} == c;
  }

  /** Nor does one that is added in one layer, flushed to the next, and spent there. */
  lemma NoTraceBelow(s: Stack, o: OutPoint, coin: Coin)
    requires Inv(s) && 2 <= |s.layers| && !coin.IsSpent() && Top(s, o) == None
    requires var n := |s.layers| - 1; s.layers[n].coins == map[] && o !in s.layers[n - 1].coins
    ensures var n, r := |s.layers| - 1, WithCoin(s, o, coin, false, false);
      && r.Some?
      && var t := Flushed(r.value, n);
         var u := Stack(t.db, t.layers[..n]);
         u.layers != [] && Spent(u, o).layers[n - 1].coins == s.layers[n - 1].coins
  {
    hide Usage;
    var n := |s.layers| - 1;
    var c := s.layers[n - 1].coins;
    var r := WithCoin(s, o, coin, false, false).value;
    assert r.layers[n].coins == map[o := Entry(coin, true, true)];
    var t := Flushed(r, n);
    MergedExactly(c, r.layers[n].coins, o);
    assert t.layers[n - 1].coins == c[o := Entry(coin, true, true)];
    assert c[o := Entry(coin, true, true)] - {o} == c;
  }

  /** An added coin is marked as modified. It is FRESH if the entry it replaces was, or, where there is none, if it
      cannot overwrite a coin. */
  lemma AddedEntry(s: Stack, o: OutPoint, coin: Coin, overwrite: bool)
    requires Inv(s) && s.layers != []
    ensures var n, r := |s.layers| - 1, WithCoin(s, o, coin, false, overwrite);
      r.Some? ==>
        && OnlyEntry(s, r.value, o)
        && var own := Own(s.layers[n].coins, o);
        Own(r.value.layers[n].coins, o) ==
        Some(Entry(coin, true, if own.Some? then own.value.isFresh else !overwrite))
  {
    hide Usage;
    var n := |s.layers| - 1;
    assert LayerOk(s, n);
  }
}
