/** The contents of the address manager as a value, and the moves its operations are made of.

A `Book` is what an address manager holds: the entries by id, the index by network address, the
random-order vector, the two bucket tables and their counters.  `Core` is the structural invariant
that the debug routine `Check_` tests, generalised so that it also describes the states in the
middle of an operation: `limbo` is a set of entries that are known but sit in no table, and
`offset` is how far `nNew` is ahead of the entries that are really in the "new" table.
Between operations `limbo` is empty and `offset` is zero; that is `Inv`.
*/
module AddrBook {

  const NEW_BUCKET_COUNT := 1024
  const TRIED_BUCKET_COUNT := 256
  const BUCKET_SIZE := 64
  const NEW_BUCKETS_PER_ADDRESS := 8

  datatype NetAddr = NetAddr(ip: nat)
  datatype Service = Service(addr: NetAddr, port: nat)

  // Service flags are kept as the set of bits that are on.

  /** One entry: the address with its statistics, and the bookkeeping fields. */
  datatype Info = Info(
    service: Service, services: set<nat>, time: int,
    source: NetAddr, lastSuccess: int, attempts: int,
    lastTry: int, lastCountAttempt: int,
    refCount: int, inTried: bool, randomPos: int)

  /** The keyed hashes behind the bucket choice, before reduction to the table sizes. */
  datatype Hashes = Hashes(
    triedHash: (nat, Service) -> nat,
    newHash: (nat, Service, NetAddr) -> nat,
    positionHash: (nat, bool, int, Service) -> nat)
  {
    function TriedBucket(key: nat, who: Service): (bucket: int)
      ensures 0 <= bucket < TRIED_BUCKET_COUNT
    {
      triedHash(key, who) % TRIED_BUCKET_COUNT
    }

    function NewBucket(key: nat, who: Service, source: NetAddr): (bucket: int)
      ensures 0 <= bucket < NEW_BUCKET_COUNT
    {
      newHash(key, who, source) % NEW_BUCKET_COUNT
    }

    function Position(key: nat, inNew: bool, bucket: int, who: Service): (pos: int)
      ensures 0 <= pos < BUCKET_SIZE
    {
      positionHash(key, inNew, bucket, who) % BUCKET_SIZE
    }

    function TriedSlot(key: nat, who: Service): (s: Slot)
      ensures 0 <= s.bucket < TRIED_BUCKET_COUNT && 0 <= s.pos < BUCKET_SIZE
    {
      var bucket := TriedBucket(key, who);
      Slot(bucket, Position(key, false, bucket, who))
    }

    function NewSlot(key: nat, who: Service, source: NetAddr): (s: Slot)
      ensures 0 <= s.bucket < NEW_BUCKET_COUNT && 0 <= s.pos < BUCKET_SIZE
    {
      var bucket := NewBucket(key, who, source);
      Slot(bucket, Position(key, true, bucket, who))
    }
  }

  datatype Slot = Slot(bucket: int, pos: int)
  type Table = map<Slot, int>

  /** The value of an empty table cell. */
  const NONE := -1

  datatype Book = Book(
    key: nat,
    idCount: int,
    info: map<int, Info>,
    addr: map<NetAddr, int>,
    random: seq<int>,
    news: Table,
    tried: Table,
    nNew: int,
    nTried: int,
    lastGood: int)

  // ----- the invariant

  ghost predicate IsGrid(t: Table, buckets: int) {
    forall s: Slot :: s in t <==> 0 <= s.bucket < buckets && 0 <= s.pos < BUCKET_SIZE
  }

  ghost function SlotsOf(t: Table, id: int): set<Slot> {
    set s | s in t && t[s] == id
  }

  ghost predicate IdsInRange(b: Book) {
    0 <= b.idCount && forall id :: id in b.info ==> 0 <= id < b.idCount
  }

  /** `mapAddr` and `mapInfo` are inverse to each other. */
  ghost predicate AddrIndexed(b: Book) {
    && (forall id :: id in b.info ==>
          b.info[id].service.addr in b.addr && b.addr[b.info[id].service.addr] == id)
    && (forall a :: a in b.addr ==>
          b.addr[a] in b.info && b.info[b.addr[a]].service.addr == a)
  }

  /** `vRandom` lists every id exactly once, and each entry knows its place in it. */
  ghost predicate RandomIndexed(b: Book) {
    && (forall id :: id in b.info ==>
          0 <= b.info[id].randomPos < |b.random| && b.random[b.info[id].randomPos] == id)
    && (forall i :: 0 <= i < |b.random| ==>
          b.random[i] in b.info && b.info[b.random[i]].randomPos == i)
  }

  /** Whatever a "new" cell holds is a known entry outside "tried", at its hashed position. */
  ghost predicate NewPlaced(h: Hashes, b: Book) {
    forall s :: s in b.news && b.news[s] != NONE ==>
      && b.news[s] in b.info
      && !b.info[b.news[s]].inTried
      && s.pos == h.Position(b.key, true, s.bucket, b.info[b.news[s]].service)
  }

  /** "tried" cells and entries marked as tried are the same thing, at the hashed cell. */
  ghost predicate TriedPlaced(h: Hashes, b: Book) {
    && (forall s :: s in b.tried && b.tried[s] != NONE ==>
          && b.tried[s] in b.info
          && b.info[b.tried[s]].inTried
          && s == h.TriedSlot(b.key, b.info[b.tried[s]].service))
    && (forall id :: id in b.info && b.info[id].inTried ==>
          && h.TriedSlot(b.key, b.info[id].service) in b.tried
          && b.tried[h.TriedSlot(b.key, b.info[id].service)] == id)
  }

  /** Reference counts are exact: the number of "new" cells that hold the entry. */
  ghost predicate RefCounted(b: Book, limbo: set<int>) {
    forall id :: id in b.info ==>
      && b.info[id].refCount == |SlotsOf(b.news, id)|
      && b.info[id].refCount <= NEW_BUCKETS_PER_ADDRESS
      && (b.info[id].inTried || id in limbo ==> b.info[id].refCount == 0)
      && (!b.info[id].inTried && id !in limbo ==> 1 <= b.info[id].refCount)
  }

  ghost predicate InLimbo(b: Book, limbo: set<int>) {
    forall id :: id in limbo ==> id in b.info && !b.info[id].inTried
  }

  ghost function TriedIds(b: Book): set<int> {
    set id | id in b.info && b.info[id].inTried
  }

  ghost function NewIds(b: Book, limbo: set<int>): set<int> {
    set id | id in b.info && !b.info[id].inTried && id !in limbo
  }

  ghost predicate Counted(b: Book, limbo: set<int>, offset: int) {
    && b.nTried == |TriedIds(b)|
    && b.nNew == |NewIds(b, limbo)| + offset
  }

  /** The three indexes over the entries agree. */
  ghost predicate Indexed(b: Book) {
    IdsInRange(b) && AddrIndexed(b) && RandomIndexed(b)
  }

  /** The tables, the marks on the entries and the counters agree. */
  ghost predicate Placed(h: Hashes, b: Book, limbo: set<int>, offset: int) {
    && IsGrid(b.news, NEW_BUCKET_COUNT)
    && IsGrid(b.tried, TRIED_BUCKET_COUNT)
    && NewPlaced(h, b)
    && TriedPlaced(h, b)
    && RefCounted(b, limbo)
    && InLimbo(b, limbo)
    && Counted(b, limbo, offset)
  }

  /** With the given entries in limbo and the given offset. */
  ghost predicate Core(h: Hashes, b: Book, limbo: set<int>, offset: int) {
    Indexed(b) && Placed(h, b, limbo, offset)
  }

  ghost predicate Inv(h: Hashes, b: Book) {
    Core(h, b, {}, 0)
  }

  // ----- sets of ids, cells and sets of slots

  lemma SameIds(a: set<int>, b: set<int>)
    requires forall id :: id in a <==> id in b
    ensures a == b
  {
    assert forall id :: id in a <==> id in b;
  }

  lemma SlotsOfUpdate(t: Table, s: Slot, id: int, x: int)
    requires s in t
    ensures SlotsOf(t[s := id], x) ==
            if x == id then SlotsOf(t, x) + {s} else SlotsOf(t, x) - {s}
    ensures t[s] == id ==> t[s := id] == t
    ensures x == id && t[s] != id ==> |SlotsOf(t[s := id], x)| == |SlotsOf(t, x)| + 1
    ensures x != id && t[s] == x ==> |SlotsOf(t[s := id], x)| == |SlotsOf(t, x)| - 1
    ensures x != id && t[s] != x ==> SlotsOf(t[s := id], x) == SlotsOf(t, x)
  {
    assert SlotsOf(t[s := id], x) == if x == id then SlotsOf(t, x) + {s} else SlotsOf(t, x) - {s};
    if x == id && t[s] != id {
      assert s !in SlotsOf(t, x);
    } else if x != id && t[s] == x {
      assert s in SlotsOf(t, x);
    } else if x != id {
      assert s !in SlotsOf(t, x);
    }
  }

  // ----- going through a table

  /** Whether a cell comes before position `p` of bucket `k`. */
  predicate Before(s: Slot, k: int, p: int) {
    s.bucket < k || (s.bucket == k && s.pos < p)
  }

  /** The part of a table before position `p` of bucket `k`. */
  function UpTo(t: Table, k: int, p: int): Table {
    map s | s in t :: if Before(s, k, p) then t[s] else NONE
  }

  lemma UpToNext(t: Table, k: int, p: int)
    requires Slot(k, p) in t
    ensures UpTo(t, k, p + 1) == UpTo(t, k, p)[Slot(k, p) := t[Slot(k, p)]]
    ensures t[Slot(k, p)] == NONE ==> UpTo(t, k, p + 1) == UpTo(t, k, p)
    ensures UpTo(t, k, p)[Slot(k, p)] == NONE
  {
  }

  lemma UpToNextBucket(t: Table, buckets: int, k: int)
    requires IsGrid(t, buckets)
    ensures UpTo(t, k, BUCKET_SIZE) == UpTo(t, k + 1, 0)
  {
  }

  /** Pigeonholes: different keys with different values below `n` are at most `n`. */
  lemma {:induction false} Pigeonhole(s: set<int>, f: map<int, int>, n: nat)
    requires forall x :: x in s ==> x in f && 0 <= f[x] < n
    requires forall x, y :: x in s && y in s && f[x] == f[y] ==> x == y
    ensures |s| <= n
    decreases n
  {
    if n == 0 {
      assert forall x :: x !in s;
      SameIds(s, {});
    } else if x :| x in s && f[x] == n - 1 {
      Pigeonhole(s - {x}, f, n - 1);
    } else {
      Pigeonhole(s, f, n - 1);
    }
  }

  // ----- the moves

  /** A new, unplaced entry (`Create`). */
  function Created(b: Book, e: Info): Book {
    b.(idCount := b.idCount + 1,
       info := b.info[b.idCount := e.(randomPos := |b.random|)],
       addr := b.addr[e.service.addr := b.idCount],
       random := b.random + [b.idCount])
  }

  lemma CreatedIndexed(b: Book, e: Info)
    requires Indexed(b)
    requires e.service.addr !in b.addr
    ensures Indexed(Created(b, e))
  {
    assert AddrIndexed(Created(b, e));
  }

  lemma CreatedPlaced(h: Hashes, b: Book, e: Info, limbo: set<int>, offset: int)
    requires Placed(h, b, limbo, offset) && IdsInRange(b)
    requires e.refCount == 0 && !e.inTried
    ensures Placed(h, Created(b, e), limbo + {b.idCount}, offset)
  {
    var c, id := Created(b, e), b.idCount;
    assert TriedIds(c) == TriedIds(b);
    assert NewIds(c, limbo + {id}) == NewIds(b, limbo);
    assert SlotsOf(c.news, id) == {};
  }

  /** Two places of the random-order vector exchanged (`SwapRandom`). */
  function Swapped(b: Book, i: int, j: int): Book
    requires 0 <= i < |b.random| && 0 <= j < |b.random|
    requires b.random[i] in b.info && b.random[j] in b.info
  {
    var x, y := b.random[i], b.random[j];
    if i == j then b else
    var info1 := b.info[x := b.info[x].(randomPos := j)];
    b.(info := info1[y := info1[y].(randomPos := i)],
       random := b.random[i := y][j := x])
  }

  function Transposed(k: int, i: int, j: int): int {
    if k == i then j else if k == j then i else k
  }

  lemma SwappedFacts(b: Book, i: int, j: int)
    requires RandomIndexed(b) && 0 <= i < |b.random| && 0 <= j < |b.random|
    ensures var c := Swapped(b, i, j);
      && SamePlacement(b.info, c.info)
      && forall id :: id in b.info ==> c.info[id].randomPos == Transposed(b.info[id].randomPos, i, j)
  {
    assert b.info[b.random[i]].randomPos == i;
    assert b.info[b.random[j]].randomPos == j;
  }

  lemma SwappedIndexed(b: Book, i: int, j: int)
    requires Indexed(b) && 0 <= i < |b.random| && 0 <= j < |b.random|
    ensures Indexed(Swapped(b, i, j))
  {
    SwappedFacts(b, i, j);
    SamePlacementIndexed(b, Swapped(b, i, j));
    SwappedRandom(b, i, j);
  }

  lemma SwappedRandom(b: Book, i: int, j: int)
    requires RandomIndexed(b) && 0 <= i < |b.random| && 0 <= j < |b.random|
    requires forall id :: id in b.info <==> id in Swapped(b, i, j).info
    requires forall id :: id in b.info ==>
      Swapped(b, i, j).info[id].randomPos == Transposed(b.info[id].randomPos, i, j)
    ensures RandomIndexed(Swapped(b, i, j))
  {
    var c := Swapped(b, i, j);
    forall k | 0 <= k < |c.random|
      ensures c.random[k] == b.random[Transposed(k, i, j)]
      ensures c.random[k] in c.info && c.info[c.random[k]].randomPos == k
    {
      assert b.random[Transposed(k, i, j)] in b.info;
    }
  }

  /** The entries agree in everything the tables and the address index depend on. */
  ghost predicate SamePlacement(m: map<int, Info>, m': map<int, Info>) {
    && (forall id :: id in m <==> id in m')
    && forall id :: id in m ==>
         m'[id].service == m[id].service && m'[id].refCount == m[id].refCount && m'[id].inTried == m[id].inTried
  }

  lemma SamePlacementIndexed(b: Book, c: Book)
    requires IdsInRange(b) && AddrIndexed(b)
    requires SamePlacement(b.info, c.info) && c.addr == b.addr && c.idCount == b.idCount
    ensures IdsInRange(c) && AddrIndexed(c)
  {
    forall a | a in c.addr ensures c.addr[a] in c.info && c.info[c.addr[a]].service.addr == a {
      var id := b.addr[a];
      assert id in b.info && id in c.info;
    }
  }

  lemma SamePlacementPlaced(h: Hashes, b: Book, c: Book, limbo: set<int>, offset: int)
    requires Placed(h, b, limbo, offset)
    requires SamePlacement(b.info, c.info)
    requires c.key == b.key && c.news == b.news && c.tried == b.tried
    requires c.nNew == b.nNew && c.nTried == b.nTried
    ensures Placed(h, c, limbo, offset)
  {
    SameIds(TriedIds(c), TriedIds(b));
    SameIds(NewIds(c, limbo), NewIds(b, limbo));
  }

  /** The entry last in the random order leaves the indexes. */
  function Removed(b: Book, id: int): Book
    requires id in b.info && b.random != []
  {
    b.(random := b.random[..|b.random| - 1],
       addr := b.addr - {b.info[id].service.addr},
       info := b.info - {id},
       nNew := b.nNew - 1)
  }

  /** An entry leaves the manager altogether (`Delete`). */
  function Deleted(b: Book, id: int): Book
    requires id in b.info && 0 <= b.info[id].randomPos < |b.random|
    requires forall i :: 0 <= i < |b.random| ==> b.random[i] in b.info
  {
    Removed(Swapped(b, b.info[id].randomPos, |b.random| - 1), id)
  }

  lemma MovedToEnd(b: Book, id: int)
    requires Indexed(b) && id in b.info
    ensures var c := Swapped(b, b.info[id].randomPos, |b.random| - 1);
      Indexed(c) && id in c.info && c.info[id].randomPos == |c.random| - 1
  {
    var i, j := b.info[id].randomPos, |b.random| - 1;
    SwappedFacts(b, i, j);
    assert Indexed(Swapped(b, i, j)) by { SwappedIndexed(b, i, j); }
  }

  /** What the steps on the indexes rely on. */
  lemma IndexedMeans(b: Book)
    requires Indexed(b)
    ensures NONE !in b.info && RandomIndexed(b) && IdsInRange(b)
    ensures forall id :: id in b.info ==> 0 <= b.info[id].randomPos < |b.random|
    ensures forall i :: 0 <= i < |b.random| ==> b.random[i] in b.info
  {
  }

  /** The indexes do not depend on the tables and the counters. */
  lemma SameIndexes(b: Book, c: Book)
    requires Indexed(b) && c.info == b.info && c.addr == b.addr && c.random == b.random && c.idCount == b.idCount
    ensures Indexed(c)
  {
  }

  lemma DeletedIndexed(b: Book, id: int)
    requires Indexed(b) && id in b.info
    ensures Indexed(Deleted(b, id))
  {
    hide Indexed;
    hide RandomIndexed;
    hide Swapped;
    hide Removed;
    IndexedMeans(b);
    MovedToEnd(b, id);
    assert Indexed(Swapped(b, b.info[id].randomPos, |b.random| - 1));
    IndexedMeans(Swapped(b, b.info[id].randomPos, |b.random| - 1));
    RemovedIndexed(Swapped(b, b.info[id].randomPos, |b.random| - 1), id);
  }

  lemma RemovedIndexed(c: Book, id: int)
    requires Indexed(c) && id in c.info && c.info[id].randomPos == |c.random| - 1
    ensures Indexed(Removed(c, id))
  {
    var d := Removed(c, id);
    forall a | a in d.addr ensures d.addr[a] in d.info && d.info[d.addr[a]].service.addr == a {
      var x := c.addr[a];
      assert x in c.info && x != id;
    }
    RemovedRandom(c, id);
  }

  lemma RemovedRandom(c: Book, id: int)
    requires RandomIndexed(c) && id in c.info && c.info[id].randomPos == |c.random| - 1
    ensures RandomIndexed(Removed(c, id))
  {
    var d := Removed(c, id);
    forall x | x in d.info
      ensures 0 <= d.info[x].randomPos < |d.random| && d.random[d.info[x].randomPos] == x
    {
      assert c.random[c.info[x].randomPos] == x;
    }
    forall k | 0 <= k < |d.random| ensures d.random[k] in d.info && d.info[d.random[k]].randomPos == k {
      var x := c.random[k];
      assert x in c.info && c.info[x].randomPos == k;
    }
  }

  lemma SwappedPlaced(h: Hashes, b: Book, i: int, j: int, limbo: set<int>, offset: int)
    requires Placed(h, b, limbo, offset) && RandomIndexed(b)
    requires 0 <= i < |b.random| && 0 <= j < |b.random|
    ensures Placed(h, Swapped(b, i, j), limbo, offset)
  {
    assert SamePlacement(b.info, Swapped(b, i, j).info) by { SwappedFacts(b, i, j); }
    SamePlacementPlaced(h, b, Swapped(b, i, j), limbo, offset);
  }

  lemma DeletedPlaced(h: Hashes, b: Book, id: int, limbo: set<int>, offset: int)
    requires Placed(h, b, limbo, offset) && RandomIndexed(b) && id in limbo
    ensures Placed(h, Deleted(b, id), limbo - {id}, offset - 1)
  {
    var c := Swapped(b, b.info[id].randomPos, |b.random| - 1);
    assert |c.random| == |b.random|;
    assert Placed(h, c, limbo, offset) by {
      SwappedPlaced(h, b, b.info[id].randomPos, |b.random| - 1, limbo, offset);
    }
    assert Placed(h, Removed(c, id), limbo - {id}, offset - 1) by {
      RemovedPlaced(h, c, id, limbo, offset);
    }
  }

  lemma RemovedPlaced(h: Hashes, c: Book, id: int, limbo: set<int>, offset: int)
    requires Placed(h, c, limbo, offset) && id in limbo && c.random != []
    ensures Placed(h, Removed(c, id), limbo - {id}, offset - 1)
  {
    var d := Removed(c, id);
    assert SlotsOf(c.news, id) == {};
    assert forall s :: s in c.news && c.news[s] == id ==> s in SlotsOf(c.news, id);
    SameIds(TriedIds(d), TriedIds(c));
    SameIds(NewIds(d, limbo - {id}), NewIds(c, limbo));
  }

  lemma EntryIndexed(b: Book, id: int, e: Info)
    requires Indexed(b) && id in b.info
    requires e.service == b.info[id].service && e.randomPos == b.info[id].randomPos
    ensures Indexed(b.(info := b.info[id := e]))
  {
    var c := b.(info := b.info[id := e]);
    forall a | a in c.addr ensures c.addr[a] in c.info && c.info[c.addr[a]].service.addr == a {
      var x := b.addr[a];
      assert x in b.info;
    }
    forall k | 0 <= k < |c.random| ensures c.random[k] in c.info && c.info[c.random[k]].randomPos == k {
      var x := b.random[k];
      assert x in b.info;
    }
  }

  /** One more "new" cell holds the entry. */
  function Referenced(b: Book, id: int, s: Slot): Book
    requires id in b.info
  {
    b.(info := b.info[id := b.info[id].(refCount := b.info[id].refCount + 1)],
       news := b.news[s := id])
  }

  lemma ReferencedRefs(h: Hashes, b: Book, id: int, s: Slot, limbo: set<int>)
    requires RefCounted(b, limbo) && InLimbo(b, limbo)
    requires id in b.info && !b.info[id].inTried && b.info[id].refCount < NEW_BUCKETS_PER_ADDRESS
    requires s in b.news && b.news[s] == NONE && 0 <= id && NONE !in b.info
    ensures RefCounted(Referenced(b, id, s), limbo - {id})
  {
    var c := Referenced(b, id, s);
    forall x | x in c.info
      ensures c.info[x].refCount == |SlotsOf(c.news, x)| && 0 <= |SlotsOf(b.news, x)|
    {
      SlotsOfUpdate(b.news, s, id, x);
    }
  }

  lemma ReferencedCounts(b: Book, id: int, s: Slot, limbo: set<int>, offset: int)
    requires Counted(b, limbo, offset) && id in b.info && !b.info[id].inTried
    ensures Counted(Referenced(b, id, s), limbo - {id}, if id in limbo then offset - 1 else offset)
  {
    var c := Referenced(b, id, s);
    SameIds(TriedIds(c), TriedIds(b));
    SameIds(NewIds(c, limbo - {id}), NewIds(b, limbo) + {id});
    assert id in limbo ==> id !in NewIds(b, limbo);
    assert id !in limbo ==> NewIds(b, limbo) + {id} == NewIds(b, limbo);
  }

  lemma ReferencedPlaced(h: Hashes, b: Book, id: int, s: Slot, limbo: set<int>, offset: int)
    requires Placed(h, b, limbo, offset) && NONE !in b.info
    requires id in b.info && !b.info[id].inTried && b.info[id].refCount < NEW_BUCKETS_PER_ADDRESS
    requires s in b.news && b.news[s] == NONE && 0 <= id
    requires s.pos == h.Position(b.key, true, s.bucket, b.info[id].service)
    ensures Placed(h, Referenced(b, id, s), limbo - {id}, if id in limbo then offset - 1 else offset)
  {
    var c := Referenced(b, id, s);
    assert RefCounted(c, limbo - {id}) by { ReferencedRefs(h, b, id, s, limbo); }
    ReferencedCounts(b, id, s, limbo, offset);
  }

  /** A "new" cell gives up its entry; the entry itself stays. */
  function Dereferenced(b: Book, s: Slot): Book
    requires s in b.news && b.news[s] in b.info
  {
    var id := b.news[s];
    b.(info := b.info[id := b.info[id].(refCount := b.info[id].refCount - 1)],
       news := b.news[s := NONE])
  }

  lemma DereferencedRefs(h: Hashes, b: Book, s: Slot, limbo: set<int>)
    requires RefCounted(b, limbo) && InLimbo(b, limbo) && NewPlaced(h, b) && NONE !in b.info
    requires s in b.news && b.news[s] != NONE
    ensures b.news[s] !in limbo && 1 <= b.info[b.news[s]].refCount
    ensures var id := b.news[s];
      RefCounted(Dereferenced(b, s), if b.info[id].refCount == 1 then limbo + {id} else limbo)
  {
    var id := b.news[s];
    assert id in b.info && s in SlotsOf(b.news, id);
    var c := Dereferenced(b, s);
    forall x | x in c.info
      ensures c.info[x].refCount == |SlotsOf(c.news, x)| && 0 <= |SlotsOf(c.news, x)|
    {
      SlotsOfUpdate(b.news, s, NONE, x);
    }
  }

  lemma DereferencedCounts(b: Book, s: Slot, limbo: set<int>, offset: int)
    requires Counted(b, limbo, offset) && s in b.news && b.news[s] in b.info
    requires !b.info[b.news[s]].inTried && b.news[s] !in limbo
    ensures Counted(Dereferenced(b, s), limbo, offset)
    ensures Counted(Dereferenced(b, s), limbo + {b.news[s]}, offset + 1)
  {
    var c, id := Dereferenced(b, s), b.news[s];
    SameIds(TriedIds(c), TriedIds(b));
    SameIds(NewIds(c, limbo), NewIds(b, limbo));
    SameIds(NewIds(c, limbo + {id}) + {id}, NewIds(b, limbo));
  }

  lemma DereferencedPlaced(h: Hashes, b: Book, s: Slot, limbo: set<int>, offset: int)
    requires Placed(h, b, limbo, offset) && NONE !in b.info
    requires s in b.news && b.news[s] != NONE
    ensures b.news[s] !in limbo && 1 <= b.info[b.news[s]].refCount
    ensures var id := b.news[s];
      var last := b.info[id].refCount == 1;
      Placed(h, Dereferenced(b, s), if last then limbo + {id} else limbo, if last then offset + 1 else offset)
  {
    DereferencedRefs(h, b, s, limbo);
    DereferencedCounts(b, s, limbo, offset);
  }

  /** What `ClearNew` relies on: the entry in the cell is a referenced one outside "tried". */
  ghost predicate Clearable(b: Book, s: Slot) {
    && s in b.news
    && (b.news[s] != NONE ==>
          b.news[s] in b.info && b.info[b.news[s]].refCount > 0 && !b.info[b.news[s]].inTried)
    && (forall id :: id in b.info ==> 0 <= b.info[id].randomPos < |b.random|)
    && (forall i :: 0 <= i < |b.random| ==> b.random[i] in b.info)
  }

  lemma CoreClearable(h: Hashes, b: Book, limbo: set<int>, offset: int, s: Slot)
    requires Core(h, b, limbo, offset) && s in b.news
    ensures Clearable(b, s)
  {
    if b.news[s] != NONE {
      var id := b.news[s];
      assert id in b.info;
      assert s in SlotsOf(b.news, id);
    }
  }

  /** A "new" cell is emptied, and its entry deleted with the last reference (`ClearNew`). */
  function Cleared(b: Book, s: Slot): Book
    requires s in b.news && (b.news[s] != NONE ==> b.news[s] in b.info)
    requires forall id :: id in b.info ==> 0 <= b.info[id].randomPos < |b.random|
    requires forall i :: 0 <= i < |b.random| ==> b.random[i] in b.info
  {
    if b.news[s] == NONE then b else
    var c, id := Dereferenced(b, s), b.news[s];
    if c.info[id].refCount == 0 then Deleted(c, id) else c
  }

  lemma DereferencedIndexed(b: Book, s: Slot)
    requires Indexed(b) && s in b.news && b.news[s] in b.info
    ensures Indexed(Dereferenced(b, s))
  {
    hide Indexed;
    var id := b.news[s];
    var e := b.info[id].(refCount := b.info[id].refCount - 1);
    EntryIndexed(b, id, e);
    SameIndexes(b.(info := b.info[id := e]), Dereferenced(b, s));
  }

  lemma PlacedMeans(h: Hashes, b: Book, s: Slot, limbo: set<int>, offset: int)
    requires Placed(h, b, limbo, offset) && s in b.news
    ensures b.news[s] != NONE ==> b.news[s] in b.info
  {
  }

  lemma ClearedCore(h: Hashes, b: Book, s: Slot, limbo: set<int>, offset: int)
    requires Core(h, b, limbo, offset) && s in b.news
    ensures Core(h, Cleared(b, s), limbo, offset)
    ensures Cleared(b, s).news == b.news[s := NONE]
  {
    hide Indexed;
    hide RandomIndexed;
    hide Placed;
    IndexedMeans(b);
    PlacedMeans(h, b, s, limbo, offset);
    if b.news[s] != NONE {
      var id := b.news[s];
      var c := Dereferenced(b, s);
      DereferencedIndexed(b, s);
      DereferencedPlaced(h, b, s, limbo, offset);
      if b.info[id].refCount == 1 {
        IndexedMeans(c);
        DeletedIndexed(c, id);
        DeletedPlaced(h, c, id, limbo + {id}, offset + 1);
        assert limbo + {id} - {id} == limbo;
      }
    }
  }

  lemma DeletedOthers(b: Book, id: int, x: int)
    requires id in b.info && 0 <= b.info[id].randomPos < |b.random|
    requires forall i :: 0 <= i < |b.random| ==> b.random[i] in b.info
    requires x in b.info && x != id
    ensures x in Deleted(b, id).info
    ensures var e := Deleted(b, id).info[x]; e == b.info[x].(randomPos := e.randomPos)
  {
  }

  /** What `ClearNew` does to every entry other than the one in the cell. */
  lemma ClearedOthers(b: Book, s: Slot, x: int)
    requires Clearable(b, s) && x in b.info && x != b.news[s]
    ensures x in Cleared(b, s).info
    ensures var e := Cleared(b, s).info[x]; e == b.info[x].(randomPos := e.randomPos)
  {
    if b.news[s] != NONE {
      var c, id := Dereferenced(b, s), b.news[s];
      if c.info[id].refCount == 0 {
        DeletedOthers(c, id, x);
      }
    }
  }

  lemma ClearedTables(b: Book, s: Slot)
    requires Clearable(b, s)
    ensures var c := Cleared(b, s);
      && c.news == b.news[s := NONE] && c.tried == b.tried && c.key == b.key
      && c.idCount == b.idCount && c.lastGood == b.lastGood
      && (b.news[s] != NONE && b.info[b.news[s]].refCount == 1 ==> b.news[s] !in c.info)
  {
    if b.news[s] != NONE {
      var c, id := Dereferenced(b, s), b.news[s];
      if c.info[id].refCount == 0 {
        DeletedTables(c, id);
      }
    } else {
      assert b.news[s := NONE] == b.news;
    }
  }

  lemma DeletedTables(b: Book, id: int)
    requires id in b.info && 0 <= b.info[id].randomPos < |b.random|
    requires forall i :: 0 <= i < |b.random| ==> b.random[i] in b.info
    ensures var c := Deleted(b, id);
      && c.news == b.news && c.tried == b.tried && c.key == b.key
      && c.idCount == b.idCount && c.lastGood == b.lastGood && id !in c.info
  {
  }

  /** The entry leaves every "new" cell. */
  function Unlisted(b: Book, id: int): Book
    requires id in b.info
  {
    b.(info := b.info[id := b.info[id].(refCount := 0)],
       news := map s | s in b.news :: if b.news[s] == id then NONE else b.news[s],
       nNew := b.nNew - 1)
  }

  // The same, bucket by bucket, as `MakeTried` goes through the table.

  ghost function Thinned(t: Table, id: int, n: int): Table {
    map s | s in t :: if s.bucket < n && t[s] == id then NONE else t[s]
  }

  ghost function UnlistedUpTo(b: Book, id: int, n: int): Book
    requires id in b.info
  {
    var news := Thinned(b.news, id, n);
    b.(info := b.info[id := b.info[id].(refCount := |SlotsOf(news, id)|)], news := news)
  }

  /** One step of it, at the only cell of a bucket that can hold the entry. */
  function UnlistedAt(b: Book, id: int, s: Slot): Book
    requires id in b.info && s in b.news
  {
    if b.news[s] != id then b else
    b.(info := b.info[id := b.info[id].(refCount := b.info[id].refCount - 1)],
       news := b.news[s := NONE])
  }

  ghost predicate Listed(h: Hashes, b: Book, id: int) {
    && IsGrid(b.news, NEW_BUCKET_COUNT) && id in b.info && id != NONE
    && b.info[id].refCount == |SlotsOf(b.news, id)|
    && forall s :: s in b.news && b.news[s] == id ==>
         s.pos == h.Position(b.key, true, s.bucket, b.info[id].service)
  }

  lemma UnlistedStart(b: Book, id: int)
    requires id in b.info && b.info[id].refCount == |SlotsOf(b.news, id)|
    requires IsGrid(b.news, NEW_BUCKET_COUNT)
    ensures UnlistedUpTo(b, id, 0) == b
  {
    assert Thinned(b.news, id, 0) == b.news;
    assert b.info[id := b.info[id].(refCount := |SlotsOf(b.news, id)|)] == b.info;
  }

  lemma UnlistedStep(h: Hashes, b: Book, id: int, n: int)
    requires Listed(h, b, id) && 0 <= n < NEW_BUCKET_COUNT
    ensures var c := UnlistedUpTo(b, id, n);
      c.key == b.key && id in c.info && c.info[id].service == b.info[id].service
    ensures var p := h.Position(b.key, true, n, b.info[id].service);
      && Slot(n, p) in b.news
      && UnlistedUpTo(b, id, n + 1) == UnlistedAt(UnlistedUpTo(b, id, n), id, Slot(n, p))
  {
    hide Hashes.Position;
    var p := h.Position(b.key, true, n, b.info[id].service);
    var t, t' := Thinned(b.news, id, n), Thinned(b.news, id, n + 1);
    if b.news[Slot(n, p)] != id {
      assert t' == t;
    } else {
      assert t' == t[Slot(n, p) := NONE];
      SlotsOfUpdate(t, Slot(n, p), NONE, id);
    }
  }

  lemma UnlistedEnd(b: Book, id: int)
    requires IsGrid(b.news, NEW_BUCKET_COUNT) && id in b.info && id != NONE
    ensures var c := UnlistedUpTo(b, id, NEW_BUCKET_COUNT); c.(nNew := c.nNew - 1) == Unlisted(b, id)
  {
    assert Thinned(b.news, id, NEW_BUCKET_COUNT) == Unlisted(b, id).news;
    assert SlotsOf(Thinned(b.news, id, NEW_BUCKET_COUNT), id) == {};
  }

  lemma UnlistedCore(h: Hashes, b: Book, id: int, limbo: set<int>, offset: int)
    requires Core(h, b, limbo, offset)
    requires id in b.info && !b.info[id].inTried && id !in limbo
    ensures Core(h, Unlisted(b, id), limbo + {id}, offset)
  {
    EntryIndexed(b, id, b.info[id].(refCount := 0));
    UnlistedPlaced(h, b, id, limbo, offset);
  }

  lemma UnlistedRefs(b: Book, id: int, limbo: set<int>)
    requires RefCounted(b, limbo) && NONE !in b.info && id in b.info
    ensures RefCounted(Unlisted(b, id), limbo + {id})
  {
    var c := Unlisted(b, id);
    assert SlotsOf(c.news, id) == {};
    forall x | x in c.info && x != id ensures SlotsOf(c.news, x) == SlotsOf(b.news, x) {}
  }

  lemma UnlistedPlaced(h: Hashes, b: Book, id: int, limbo: set<int>, offset: int)
    requires Placed(h, b, limbo, offset) && NONE !in b.info
    requires id in b.info && !b.info[id].inTried && id !in limbo
    ensures Placed(h, Unlisted(b, id), limbo + {id}, offset)
  {
    hide RefCounted;
    hide Counted;
    hide NewPlaced;
    hide TriedPlaced;
    UnlistedRefs(b, id, limbo);
    UnlistedCounts(b, id, limbo, offset);
    UnlistedTables(h, b, id);
  }

  lemma UnlistedCounts(b: Book, id: int, limbo: set<int>, offset: int)
    requires Counted(b, limbo, offset) && id in b.info && !b.info[id].inTried && id !in limbo
    ensures Counted(Unlisted(b, id), limbo + {id}, offset)
  {
    var c := Unlisted(b, id);
    SameIds(TriedIds(c), TriedIds(b));
    SameIds(NewIds(c, limbo + {id}) + {id}, NewIds(b, limbo));
  }

  lemma UnlistedTables(h: Hashes, b: Book, id: int)
    requires NewPlaced(h, b) && TriedPlaced(h, b) && id in b.info && NONE !in b.info
    ensures NewPlaced(h, Unlisted(b, id)) && TriedPlaced(h, Unlisted(b, id))
  {
  }

  /** The entry leaves its "tried" cell. */
  function Evicted(h: Hashes, b: Book, id: int): Book
    requires id in b.info
  {
    b.(info := b.info[id := b.info[id].(inTried := false)],
       tried := b.tried[h.TriedSlot(b.key, b.info[id].service) := NONE],
       nTried := b.nTried - 1)
  }

  lemma EvictedCore(h: Hashes, b: Book, id: int, limbo: set<int>, offset: int)
    requires Core(h, b, limbo, offset)
    requires id in b.info && b.info[id].inTried
    ensures id !in limbo
    ensures Core(h, Evicted(h, b, id), limbo + {id}, offset)
  {
    EntryIndexed(b, id, b.info[id].(inTried := false));
    EvictedPlaced(h, b, id, limbo, offset);
  }

  lemma EvictedPlaced(h: Hashes, b: Book, id: int, limbo: set<int>, offset: int)
    requires Placed(h, b, limbo, offset) && NONE !in b.info
    requires id in b.info && b.info[id].inTried
    ensures Placed(h, Evicted(h, b, id), limbo + {id}, offset)
  {
    var c := Evicted(h, b, id);
    SameIds(TriedIds(c) + {id}, TriedIds(b));
    SameIds(NewIds(c, limbo + {id}), NewIds(b, limbo));
    TriedPlacedChange(h, b, c, id);
  }

  /** Entry `id` and its "tried" cell change together; everything else about "tried" stays. */
  lemma TriedPlacedChange(h: Hashes, b: Book, c: Book, id: int)
    requires TriedPlaced(h, b) && id in b.info && id in c.info && c.key == b.key
    requires c.info == b.info[id := c.info[id]] && c.info[id].service == b.info[id].service
    requires var k := h.TriedSlot(b.key, b.info[id].service);
      && k in b.tried && b.tried[k] in {id, NONE}
      && c.tried == b.tried[k := if c.info[id].inTried then id else NONE]
    requires NONE !in b.info
    ensures TriedPlaced(h, c)
  {
    var k := h.TriedSlot(b.key, b.info[id].service);
    forall s | s in c.tried && c.tried[s] != NONE
      ensures
        && c.tried[s] in c.info && c.info[c.tried[s]].inTried
        && s == h.TriedSlot(c.key, c.info[c.tried[s]].service)
    {
      var x := c.tried[s];
      if s != k {
        assert b.tried[s] == x && x in b.info;
      }
    }
  }

  /** The entry takes its "tried" cell. */
  function Seated(h: Hashes, b: Book, id: int): Book
    requires id in b.info
  {
    b.(info := b.info[id := b.info[id].(inTried := true)],
       tried := b.tried[h.TriedSlot(b.key, b.info[id].service) := id],
       nTried := b.nTried + 1)
  }

  lemma SeatedCore(h: Hashes, b: Book, id: int, limbo: set<int>, offset: int)
    requires Core(h, b, limbo, offset) && id in limbo
    requires b.tried[h.TriedSlot(b.key, b.info[id].service)] == NONE
    ensures Core(h, Seated(h, b, id), limbo - {id}, offset)
  {
    EntryIndexed(b, id, b.info[id].(inTried := true));
    SeatedPlaced(h, b, id, limbo, offset);
  }

  lemma SeatedPlaced(h: Hashes, b: Book, id: int, limbo: set<int>, offset: int)
    requires Placed(h, b, limbo, offset) && id in limbo && NONE !in b.info
    requires b.tried[h.TriedSlot(b.key, b.info[id].service)] == NONE
    ensures Placed(h, Seated(h, b, id), limbo - {id}, offset)
  {
    var c := Seated(h, b, id);
    TriedPlacedChange(h, b, c, id);
    SameIds(TriedIds(c), TriedIds(b) + {id});
    SameIds(NewIds(c, limbo - {id}), NewIds(b, limbo));
    assert SlotsOf(b.news, id) == {};
    assert forall s :: s in b.news && b.news[s] == id ==> s in SlotsOf(b.news, id);
  }
}
