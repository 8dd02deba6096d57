/** The mempool as the block assembler sees it: a finite graph of transactions by ancestry, with the costs of
each transaction and the totals of each transaction together with all its ancestors. */
module TxPool {
  import opened Basics

  /** Transactions are ordered by their hashes. */
  datatype TxId = TxId(hash: nat)

  type Costs = map<TxId, int>

  /** `GetVirtualTransactionSize`: a quarter of the weight, rounded up, but at least so many bytes per sigop. Four
      times the size is thus more than the weight by the rounding, or by the weight that was put on for sigops. */
  function VirtualSize(weight: int, sigops: int, bytesPerSigOp: nat): (size: int)
    requires 0 <= weight
    ensures 0 <= size && weight <= 4 * size && sigops * bytesPerSigOp <= 4 * size
    ensures 4 * size <= Max(weight, sigops * bytesPerSigOp) + 3
    ensures sigops * bytesPerSigOp <= weight ==> 4 * size <= weight + 3
  {
    (Max(weight, sigops * bytesPerSigOp) + 3) / 4
  }

  datatype Pool = Pool(
    ancestors: map<TxId, set<TxId>>,
    size: Costs, weight: Costs, sigops: Costs, fee: Costs, modFee: Costs,
    sizeWithAncestors: Costs, modFeesWithAncestors: Costs, sigopsWithAncestors: Costs,
    bytesPerSigOp: nat)
  {
    /** A transaction and all its ancestors. */
    function Family(t: TxId): set<TxId>
      requires t in ancestors
    {
      ancestors[t] + {t}
    }

    /** `CalculateDescendants`, without the transaction itself. */
    function Descendants(t: TxId): set<TxId> {
      set d | d in ancestors && t in ancestors[d]
    }

    /** Ancestry is transitive and without cycles, within the pool. */
    ghost predicate Acyclic() {
      forall t :: t in ancestors ==>
        && t !in ancestors[t]
        && forall a :: a in ancestors[t] ==> a in ancestors && ancestors[a] <= ancestors[t]
    }

    ghost predicate Costed() {
      && size.Keys == weight.Keys == sigops.Keys == fee.Keys == modFee.Keys == ancestors.Keys
      && sizeWithAncestors.Keys == modFeesWithAncestors.Keys == sigopsWithAncestors.Keys == ancestors.Keys
      && forall t :: t in ancestors ==>
           0 <= sigops[t] && 0 < weight[t] && size[t] == VirtualSize(weight[t], sigops[t], bytesPerSigOp)
    }

    /** The totals kept with the entries are exact. */
    ghost predicate Totalled()
      requires Acyclic() && Costed()
    {
      forall t :: t in ancestors ==>
        && sizeWithAncestors[t] == Total(size, Family(t))
        && modFeesWithAncestors[t] == Total(modFee, Family(t))
        && sigopsWithAncestors[t] == Total(sigops, Family(t))
    }

    ghost predicate Valid() {
      Acyclic() && Costed() && Totalled()
    }
  }

  ghost function Total(cost: Costs, s: set<TxId>): int
    requires s <= cost.Keys
  {
    if s == {} then 0 else
    var x :| x in s;
    cost[x] + Total(cost, s - {x})
  }

  lemma {:induction false} TotalRemove(cost: Costs, s: set<TxId>, y: TxId)
    requires s <= cost.Keys && y in s
    ensures Total(cost, s) == cost[y] + Total(cost, s - {y})
  {
    var x :| x in s && Total(cost, s) == cost[x] + Total(cost, s - {x});
    if x != y {
      TotalRemove(cost, s - {x}, y);
      TotalRemove(cost, s - {y}, x);
      assert s - {x} - {y} == s - {y} - {x};
    }
  }

  lemma TotalAdd(cost: Costs, s: set<TxId>, y: TxId)
    requires s + {y} <= cost.Keys && y !in s
    ensures Total(cost, s + {y}) == Total(cost, s) + cost[y]
  {
    TotalRemove(cost, s + {y}, y);
    assert s + {y} - {y} == s;
  }

  lemma {:induction false} TotalSplit(cost: Costs, a: set<TxId>, b: set<TxId>)
    requires a + b <= cost.Keys && a !! b
    ensures Total(cost, a + b) == Total(cost, a) + Total(cost, b)
  {
    if b == {} {
      assert a + b == a;
    } else {
      var y :| y in b;
      TotalSplit(cost, a, b - {y});
      TotalRemove(cost, b, y);
      TotalAdd(cost, a + (b - {y}), y);
      assert a + b == a + (b - {y}) + {y};
    }
  }

  lemma {:induction false} TotalNonNegative(cost: Costs, s: set<TxId>)
    requires s <= cost.Keys && forall x :: x in s ==> 0 <= cost[x]
    ensures 0 <= Total(cost, s)
  {
    if s != {} {
      var y :| y in s;
      TotalNonNegative(cost, s - {y});
      TotalRemove(cost, s, y);
    }
  }

  lemma TotalMonotone(cost: Costs, a: set<TxId>, b: set<TxId>)
    requires a <= b <= cost.Keys && forall x :: x in b ==> 0 <= cost[x]
    ensures Total(cost, a) <= Total(cost, b)
  {
    TotalSplit(cost, a, b - a);
    TotalNonNegative(cost, b - a);
    assert a + (b - a) == b;
  }

  /** Weights are at most four times the sizes, in total as well. */
  lemma {:induction false} TotalWeight(weight: Costs, size: Costs, s: set<TxId>)
    requires s <= weight.Keys && s <= size.Keys && forall x :: x in s ==> weight[x] <= 4 * size[x]
    ensures Total(weight, s) <= 4 * Total(size, s)
    ensures (forall x :: x in s ==> weight[x] == 4 * size[x]) ==> Total(weight, s) == 4 * Total(size, s)
  {
    if s != {} {
      var y :| y in s;
      TotalWeight(weight, size, s - {y});
      TotalRemove(weight, s, y);
      TotalRemove(size, s, y);
    }
  }

  /** An ancestor has fewer ancestors. */
  lemma FewerAncestors(p: Pool, a: TxId, t: TxId)
    requires p.Acyclic() && t in p.ancestors && a in p.ancestors[t]
    ensures a in p.ancestors && |p.ancestors[a]| < |p.ancestors[t]|
  {
    assert p.ancestors[a] <= p.ancestors[t] - {a};
    SubsetSize(p.ancestors[a], p.ancestors[t] - {a});
  }

}
