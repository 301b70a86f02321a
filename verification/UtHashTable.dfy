/** The operations of uthash: adding, finding and deleting items. */
module UtHashTable {
  import opened ByteSeqs
  import opened UtHash
  import opened UtHashLoad

  /** How doubling has gone so far: the ideal length of the lists and the items beyond it as they were when the buckets
      were last doubled, how many times in a row that was of little use, and whether it is given up. */
  datatype Growth = Growth(ideal: nat, nonideal: nat, ineff: nat, noexpand: bool)

  /** What HASH_MAKE_TABLE begins with. */
  function NoLists(): seq<Bucket> {
    seq(HASH_INITIAL_NUM_BUCKETS, _ => Bucket(null, 0, 0))
  }

  const NoGrowth: Growth := Growth(0, 0, 0, false)

  /** UT_hash_table and the pointer to its first item; without items there is no table. */
  class Table {
    const hash: Key -> nat
    var head: Item?
    var tail: Item?
    var buckets: seq<Bucket>
    var numBuckets: nat
    var log2NumBuckets: nat
    var numItems: nat
    var idealChainMaxlen: nat
    var nonidealItems: nat
    var ineffExpands: nat
    var noexpand: bool

    /** The items in the order in which they were added, and those of each bucket. */
    ghost var items: seq<Item>
    ghost var chains: seq<seq<Item>>

    constructor (hash: Key -> nat)
      ensures Valid() && Loose() && items == [] && this.hash == hash
    {
      this.hash := hash;
      head, tail, items := null, null, [];
    }

    /** The list of all items. */
    ghost predicate ListOk()
      reads this`items, this`head, this`tail, items`next, items`prev
    {
      && Distinct(items) && Linked(items)
      && head == At(items, 0) && (|items| > 0 ==> tail == items[|items| - 1])
    }

    ghost predicate KeysOk()
      reads this`items, items`key, items`hashv
    {
      && (forall i {:trigger Hashed(hash, items[i])} :: 0 <= i < |items| ==> Hashed(hash, items[i]))
      && (forall i, j {:trigger KeysDiffer(items[i], items[j])} :: 0 <= i < j < |items| ==>
         KeysDiffer(items[i], items[j]))
    }

    ghost predicate TableOk()
      reads this`items, this`chains, this`buckets, this`numBuckets, this`log2NumBuckets, this`numItems
      reads items`hhNext, items`hhPrev, items`hashv
    {
      && numItems == |items| && numBuckets == Pow2(log2NumBuckets)
      && BucketsOk(items, chains, buckets, numBuckets)
    }

    /** What HASH_FSCK looks at, and that each item is in the bucket of its key's hash value. */
    ghost predicate Valid()
      reads this, items
    {
      ListOk() && KeysOk() && (head != null ==> TableOk())
    }

    /** The buckets, with those of the table that the first item is going to make. */
    ghost function Lists(): seq<Bucket>
      reads this
    {
      if head == null then NoLists() else buckets
    }

    ghost function Counters(): Growth
      reads this
    {
      Growth(idealChainMaxlen, nonidealItems, ineffExpands, noexpand)
    }

    ghost function GrowthSoFar(): Growth
      reads this
    {
      if head == null then NoGrowth else Counters()
    }

    /** Unless doubling is given up, no bucket has become too long since the buckets were last doubled. */
    ghost predicate Loose()
      reads this
    {
      head != null && !noexpand ==> exists q, was {:trigger Bounded(buckets, q, was)} :: Bounded(buckets, q, was)
    }

    /** HASH_FIND_BYHASHVALUE */
    method Find(key: Key) returns (out: Item?)
      requires Valid()
      ensures out != null ==> out in items && out.key == key
      ensures out == null ==> forall i {:trigger items[i]} :: 0 <= i < |items| ==> items[i].key != key
    {
      if head == null {
        return null;
      }
      var hashval := hash(key);
      ToBktIsMod(hashval, log2NumBuckets);
      var b := ToBkt(hashval, numBuckets);
      ghost var c := chains[b];
      assert BucketIs(buckets[b], c) && ChainOk(items, c, numBuckets, b);
      out := buckets[b].head;
      ghost var k := 0;
      while out != null
        invariant k <= |c| && out == At(c, k)
        invariant forall i {:trigger c[i]} :: 0 <= i < k ==> c[i].key != key
        decreases |c| - k
      {
        if out.hashv == hashval && out.key == key {
          return;
        }
        assert HhLinkAt(c, k);
        assert out.key == key ==> Hashed(hash, out);
        out := out.hhNext;
        k := k + 1;
      }
      forall i | 0 <= i < |items| ensures items[i].key != key {
        assert Hashed(hash, items[i]) && Placed(items[i], chains, numBuckets);
      }
    }
  }

  ghost predicate Hashed(hash: Key -> nat, x: Item)
    reads x`key, x`hashv
  {
    x.hashv == hash(x.key)
  }

  ghost predicate KeysDiffer(x: Item, y: Item)
    reads x`key, y`key
  {
    x.key != y.key
  }

  lemma {:induction false} ExcessOfEmpty(chains: seq<seq<Item>>, max: nat, n: nat)
    requires n <= |chains| && forall b {:trigger chains[b]} :: 0 <= b < n ==> chains[b] == []
    ensures Excess(chains, max, n) == 0
  {
    if n > 0 {
      ExcessOfEmpty(chains, max, n - 1);
    }
  }

  /** Buckets that are all zero hold nothing. */
  lemma NoneInZeroed(chains: seq<seq<Item>>, buckets: seq<Bucket>, n: nat, ideal: nat)
    requires n > 0 && |chains| == |buckets| == n
    requires forall b {:trigger chains[b]} :: 0 <= b < n ==> chains[b] == []
    requires forall b {:trigger buckets[b]} :: 0 <= b < n ==> buckets[b] == Bucket(null, 0, 0)
    ensures BucketsOk([], chains, buckets, n) && Counted(chains, buckets, n, ideal, 0)
  {
    ExcessOfEmpty(chains, 0, n);
    ExcessOfEmpty(chains, ideal, n);
    forall b | 0 <= b < n ensures ChainOk([], chains[b], n, b) && BucketIs(buckets[b], chains[b])
      && MultIs(buckets[b], ideal) {
      assert chains[b] == [] && buckets[b] == Bucket(null, 0, 0);
    }
  }

  /** The items of the first i buckets, and no others, are in m. */
  ghost predicate Moved(items: seq<Item>, chains: seq<seq<Item>>, n: nat, i: nat, m: seq<Item>)
    requires n > 0 && i <= |chains|
    reads items`hashv, m`hashv
  {
    && |m| == Excess(chains, 0, i)
    && (forall j {:trigger m[j]} :: 0 <= j < |m| ==> m[j] in items && ToBkt(m[j].hashv, n) < i)
    && (forall b, j {:trigger chains[b][j]} :: 0 <= b < i && 0 <= j < |chains[b]| ==> chains[b][j] in m)
  }

  lemma MovedStep(items: seq<Item>, chains: seq<seq<Item>>, n: nat, i: nat, m: seq<Item>)
    requires n > 0 && i < |chains| && Moved(items, chains, n, i, m)
    requires var c := chains[i]; forall j {:trigger c[j]} :: 0 <= j < |c| ==> c[j] in items && ToBkt(c[j].hashv, n) == i
    ensures Moved(items, chains, n, i + 1, m + chains[i])
  {
    var c, t := chains[i], m + chains[i];
    forall j | 0 <= j < |t| ensures t[j] in items && ToBkt(t[j].hashv, n) < i + 1 {
      if j < |m| {
        assert m[j] in items && ToBkt(m[j].hashv, n) < i;
      } else {
        assert c[j - |m|] in items;
      }
    }
  }

  lemma AllMoved(items: seq<Item>, chains: seq<seq<Item>>, n: nat, m: seq<Item>)
    requires n == |chains| > 0 && Total(chains) == |items| && Moved(items, chains, n, n, m)
    requires forall i {:trigger Placed(items[i], chains, n)} :: 0 <= i < |items| ==> Placed(items[i], chains, n)
    ensures |m| == |items|
    ensures forall i {:trigger items[i]} :: 0 <= i < |items| ==> items[i] in m
  {
    forall i | 0 <= i < |items| ensures items[i] in m {
      assert Placed(items[i], chains, n);
      var b := ToBkt(items[i].hashv, n);
      var j :| 0 <= j < |chains[b]| && chains[b][j] == items[i];
      assert chains[b][j] in m;
    }
  }

  /** The least length that lists of n items in b buckets can have, if all are used alike. */
  ghost predicate IsCeil(q: nat, n: nat, b: nat) {
    n <= q * b && (q > 0 ==> (q - 1) * b < n)
  }

  lemma CeilByBits(n: nat, k: nat) returns (q: nat)
    ensures q == n / Pow2(k) + if And(n, Pow2(k) - 1) != 0 then 1 else 0
    ensures IsCeil(q, n, Pow2(k))
  {
    var b := Pow2(k);
    var rest := And(n, b - 1);
    assert rest == n % b by { ToBktIsMod(n, k); }
    q := n / b + if rest != 0 then 1 else 0;
    DivMod(n, b);
    Ceil(n, b, n / b, n % b);
  }

  lemma DivMod(n: nat, b: nat)
    requires b > 0
    ensures n == b * (n / b) + n % b
  {
  }

  lemma Ceil(n: nat, b: nat, d: nat, r: nat)
    requires b > 0 && n == b * d + r && r < b
    ensures IsCeil(if r != 0 then d + 1 else d, n, b)
  {
    assert (d + 1) * b == b * d + b;
    assert (d - 1) * b == b * d - b;
  }

  /** The loops of HASH_EXPAND_BUCKETS: twice as many buckets with the same items. */
  method Redistribute(t: Table, ideal: nat) returns (buckets: seq<Bucket>, nonideal: nat, ghost chains: seq<seq<Item>>)
    requires t.TableOk()
    modifies t.items`hhNext, t.items`hhPrev
    ensures BucketsOk(t.items, chains, buckets, 2 * t.numBuckets)
    ensures Counted(chains, buckets, 2 * t.numBuckets, ideal, nonideal)
  {
    var n := t.numBuckets;
    ghost var items, were := t.items, t.chains;
    buckets, nonideal := seq(2 * n, _ => Bucket(null, 0, 0)), 0;
    chains := seq(2 * n, _ => []);
    NoneInZeroed(chains, buckets, 2 * n, ideal);
    ghost var m: seq<Item> := [];
    forall b | 0 <= b < n ensures Forward(were[b], 0) && Distinct(were[b]) {
      assert ChainOk(items, were[b], n, b);
      forall j | 0 <= j < |were[b]| ensures FwdAt(were[b], j) { assert HhLinkAt(were[b], j); }
    }
    var i := 0;
    while i < n
      invariant i <= n && Moved(items, were, n, i, m)
      invariant BucketsOk(m, chains, buckets, 2 * n) && Counted(chains, buckets, 2 * n, ideal, nonideal)
      invariant forall b {:trigger Forward(were[b], 0)} :: i <= b < n ==> Forward(were[b], 0)
    {
      ghost var c := were[i];
      assert BucketIs(t.buckets[i], c) && Forward(c, 0);
      forall b, j {:trigger were[b][j]} | 0 <= b < n && 0 <= j < |were[b]|
        ensures were[b][j] in items && ToBkt(were[b][j].hashv, n) == b && ToBkt(were[b][j].hashv, 2 * n) < 2 * n {
        assert old(ChainOk(items, were[b], n, b)) && old(Belongs(were[b][j], n, b));
        ToBktIsMod(were[b][j].hashv, t.log2NumBuckets + 1);
      }
      forall j | 0 <= j < |c| ensures c[j] !in m { assert were[i][j] in items; }
      label Before:
      buckets, nonideal, chains := MoveList(t.buckets[i].head, buckets, 2 * n, ideal, nonideal, c, m, chains);
      forall b | i + 1 <= b < n ensures Forward(were[b], 0) {
        assert old@Before(Forward(were[b], 0));
        forall j | 0 <= j < |were[b]| ensures FwdAt(were[b], j) {
          assert old@Before(FwdAt(were[b], j));
          assert ToBkt(were[b][j].hashv, n) == b && forall k {:trigger c[k]} :: 0 <= k < |c| ==>
                   ToBkt(were[i][k].hashv, n) == i;
          assert were[b][j] !in c;
        }
      }
      MovedStep(items, were, n, i, m);
      m := m + c;
      i := i + 1;
    }
    AllMoved(items, were, n, m);
    SameMembers(m, items, chains, buckets, 2 * n);
  }

  /** The writes that put the new buckets in place of the old ones. */
  method TwiceAsMany(t: Table, buckets: seq<Bucket>, ghost chains: seq<seq<Item>>, nonideal: nat)
    modifies t`buckets, t`chains, t`numBuckets, t`log2NumBuckets, t`nonidealItems
    ensures t.buckets == buckets && t.chains == chains && t.nonidealItems == nonideal
    ensures t.numBuckets == 2 * old(t.numBuckets) && t.log2NumBuckets == old(t.log2NumBuckets) + 1
  {
    t.nonidealItems := nonideal;
    t.numBuckets := t.numBuckets * 2;
    t.log2NumBuckets := t.log2NumBuckets + 1;
    t.buckets, t.chains := buckets, chains;
  }

  /** HASH_EXPAND_BUCKETS */
  method Expand(t: Table)
    requires t.TableOk()
    modifies t`buckets, t`chains, t`numBuckets, t`log2NumBuckets, t`idealChainMaxlen, t`nonidealItems, t`ineffExpands,
             t`noexpand, t.items`hhNext, t.items`hhPrev
    ensures t.TableOk() && t.numBuckets == 2 * old(t.numBuckets)
    ensures IsCeil(t.idealChainMaxlen, t.numItems, t.numBuckets)
    ensures Counted(t.chains, t.buckets, t.numBuckets, t.idealChainMaxlen, t.nonidealItems)
    ensures t.ineffExpands == if t.nonidealItems > t.numItems / 2 then old(t.ineffExpands) + 1 else 0
    ensures t.noexpand == (old(t.noexpand) || t.ineffExpands > 1)
  {
    ghost var q := CeilByBits(t.numItems, t.log2NumBuckets + 1);
    t.idealChainMaxlen :=
      t.numItems / Pow2(t.log2NumBuckets + 1) + if And(t.numItems, 2 * t.numBuckets - 1) != 0 then 1 else 0;
    var buckets, nonideal;
    ghost var chains;
    buckets, nonideal, chains := Redistribute(t, t.idealChainMaxlen);
    TwiceAsMany(t, buckets, chains, nonideal);
    t.ineffExpands := if t.nonidealItems > t.numItems / 2 then t.ineffExpands + 1 else 0;
    if t.ineffExpands > 1 {
      t.noexpand := true;
    }
  }

  /** HASH_MAKE_TABLE */
  method MakeTable(t: Table, head: Item)
    modifies t
    ensures t.tail == head && t.head == old(t.head) && t.items == old(t.items)
    ensures t.numBuckets == Pow2(t.log2NumBuckets) == HASH_INITIAL_NUM_BUCKETS && t.numItems == 0
    ensures BucketsOk([], t.chains, t.buckets, t.numBuckets)
    ensures t.buckets == NoLists() && t.Counters() == NoGrowth
  {
    t.tail := head;
    t.numBuckets, t.log2NumBuckets, t.numItems := HASH_INITIAL_NUM_BUCKETS, HASH_INITIAL_NUM_BUCKETS_LOG2, 0;
    t.idealChainMaxlen, t.nonidealItems, t.ineffExpands, t.noexpand := 0, 0, 0, false;
    t.buckets := NoLists();
    t.chains := seq(HASH_INITIAL_NUM_BUCKETS, _ => []);
    NoneInZeroed(t.chains, t.buckets, t.numBuckets, 0);
    assert Pow2(5) == 2 * Pow2(4) && Pow2(4) == 2 * Pow2(3) && Pow2(3) == 2 * Pow2(2);
  }

  /** HASH_APPEND_LIST */
  method AppendList(t: Table, add: Item)
    requires t.ListOk() && |t.items| > 0 && add !in t.items
    modifies t`tail, t`items, add`next, add`prev, t.tail`next
    ensures t.ListOk() && t.items == old(t.items) + [add]
  {
    ghost var s := t.items;
    assert LinkAt(s, |s| - 1);
    AppendLinks(t, add);
    forall i | 0 <= i < |t.items| ensures LinkAt(t.items, i) {
      if i < |s| {
        assert old(LinkAt(s, i));
        assert i < |s| - 1 ==> Differ(s[i], s[|s| - 1]);
      }
    }
    forall i, j | 0 <= i < j < |t.items| ensures Differ(t.items[i], t.items[j]) {
      assert j < |s| ==> Differ(s[i], s[j]);
    }
  }

  method AppendLinks(t: Table, add: Item)
    requires t.tail != null && t.tail != add
    modifies t`tail, t`items, add`next, add`prev, t.tail`next
    ensures t.tail == add && t.items == old(t.items) + [add]
    ensures add.next == null && add.prev == old(t.tail) && old(t.tail).next == add
  {
    add.next := null;
    add.prev := t.tail;
    t.tail.next := add;
    t.tail := add;
    t.items := t.items + [add];
  }

  /** The bucket is to be split if one more item comes into it. */
  predicate Overfull(bucket: Bucket, noexpand: bool) {
    bucket.count + 1 >= (bucket.expandMult + 1) * HASH_BKT_CAPACITY_THRESH && !noexpand
  }

  /** The table after add has come to the front of its list: nothing else has changed, or the buckets were doubled. */
  ghost predicate Added(t: Table, add: Item, hashval: nat, lists: seq<Bucket>, was: Growth)
    reads t
  {
    |lists| > 0
    && var b := ToBkt(hashval, |lists|);
      b < |lists|
      && if Overfull(lists[b], was.noexpand) then Doubled(t, |lists|, was)
         else
           && t.buckets == lists[b := lists[b].(head := add, count := lists[b].count + 1)]
           && t.numBuckets == |lists| && t.Counters() == was
  }

  ghost predicate Doubled(t: Table, n: nat, was: Growth)
    reads t
  {
    && t.numBuckets == 2 * n && IsCeil(t.idealChainMaxlen, t.numItems, t.numBuckets)
    && Counted(t.chains, t.buckets, t.numBuckets, t.idealChainMaxlen, t.nonidealItems)
    && t.ineffExpands == (if t.nonidealItems > t.numItems / 2 then was.ineff + 1 else 0)
    && t.noexpand == (was.noexpand || t.ineffExpands > 1)
  }

  /** HASH_ADD_TO_TABLE */
  method AddToTable(t: Table, add: Item, hashval: nat, ghost m: seq<Item>)
    requires t.items == m + [add] && add !in m && add.hashv == hashval
    requires t.numItems == |m| && t.numBuckets == Pow2(t.log2NumBuckets)
    requires BucketsOk(m, t.chains, t.buckets, t.numBuckets)
    modifies t`numItems, t`buckets, t`chains, t`numBuckets, t`log2NumBuckets, t`idealChainMaxlen, t`nonidealItems,
             t`ineffExpands, t`noexpand, t.items`hhNext, t.items`hhPrev
    ensures t.TableOk() && Added(t, add, hashval, old(t.buckets), old(t.Counters()))
  {
    ToBktIsMod(hashval, t.log2NumBuckets);
    var b := ToBkt(hashval, t.numBuckets);
    var buckets;
    ghost var chains;
    assert t.items[|m|] == add;
    forall i | 0 <= i < |m| ensures m[i] in t.items {
      assert t.items[i] == m[i];
    }
    buckets, chains := PushFront(t.buckets, add, t.numBuckets, m, t.chains);
    t.numItems := t.numItems + 1;
    t.buckets, t.chains := buckets, chains;
    if t.buckets[b].count >= (t.buckets[b].expandMult + 1) * HASH_BKT_CAPACITY_THRESH && !t.noexpand {
      Expand(t);
    }
  }

  /** Put add into the list of all items; the table is made for the first one. */
  method AddToList(t: Table, add: Item)
    requires t.ListOk() && add !in t.items && (t.head != null ==> t.TableOk())
    modifies t, add`next, add`prev, t.items`next
    ensures t.ListOk() && t.items == old(t.items) + [add]
    ensures BucketsOk(old(t.items), t.chains, t.buckets, t.numBuckets)
    ensures t.numItems == |old(t.items)| && t.numBuckets == Pow2(t.log2NumBuckets)
    ensures t.buckets == old(t.Lists()) && t.Counters() == old(t.GrowthSoFar())
  {
    if t.head == null {
      add.next, add.prev := null, null;
      MakeTable(t, add);
      t.head, t.items := add, [add];
    } else {
      AppendList(t, add);
    }
  }

  lemma KeysOkSnoc(hash: Key -> nat, m: seq<Item>, s: seq<Item>, x: Item)
    requires s == m + [x] && Hashed(hash, x)
    requires forall i {:trigger m[i]} :: 0 <= i < |m| ==> m[i].key != x.key && Hashed(hash, m[i])
    requires forall i, j {:trigger KeysDiffer(m[i], m[j])} :: 0 <= i < j < |m| ==> KeysDiffer(m[i], m[j])
    ensures forall i {:trigger Hashed(hash, s[i])} :: 0 <= i < |s| ==> Hashed(hash, s[i])
    ensures forall i, j {:trigger KeysDiffer(s[i], s[j])} :: 0 <= i < j < |s| ==> KeysDiffer(s[i], s[j])
  {
    forall i, j | 0 <= i < j < |s| ensures KeysDiffer(s[i], s[j]) {
      assert j < |m| ==> KeysDiffer(m[i], m[j]);
      assert s[i] == m[i];
    }
  }

  /** Unless doubling is given up, the lists of a table are bounded. */
  ghost predicate LooseSoFar(lists: seq<Bucket>, was: Growth) {
    was.noexpand || exists q, w {:trigger Bounded(lists, q, w)} :: Bounded(lists, q, w)
  }

  lemma LooseBefore(t: Table)
    requires t.Loose()
    ensures LooseSoFar(t.Lists(), t.GrowthSoFar())
  {
    if t.head == null {
      var w := BoundedAtFirst(NoLists());
    }
  }

  lemma LoadSoFar(m: seq<Item>, chains: seq<seq<Item>>, buckets: seq<Bucket>, was: Growth)
    requires BucketsOk(m, chains, buckets, |buckets|) && LooseSoFar(buckets, was)
    ensures was.noexpand || |m| <= 30 * |buckets|
  {
    if !was.noexpand {
      var q, w :| Bounded(buckets, q, w);
      LoadAtMost(chains, buckets, q, w);
    }
  }

  /** A loose table has at most thirty items for each bucket, unless doubling is given up. */
  lemma LooseLoad(t: Table)
    requires t.Valid() && t.Loose() && t.head != null
    ensures t.noexpand || t.numItems <= 30 * t.numBuckets
  {
    if !t.noexpand {
      var q, was :| Bounded(t.buckets, q, was);
      LoadAtMost(t.chains, t.buckets, q, was);
    }
  }

  lemma AddedLoose(t: Table, add: Item, hashval: nat, lists: seq<Bucket>, was: Growth)
    requires t.TableOk() && Added(t, add, hashval, lists, was) && t.numItems > 0
    requires LooseSoFar(lists, was) && (was.noexpand || t.numItems <= 30 * |lists| + 1)
    ensures t.Loose()
  {
    var b := ToBkt(hashval, |lists|);
    if t.noexpand {
    } else if Overfull(lists[b], was.noexpand) {
      CeilAtMost(t.idealChainMaxlen, t.numItems, |lists|);
      var w := BoundedAgain(t.chains, t.buckets, t.idealChainMaxlen, t.nonidealItems);
    } else {
      var q, w :| Bounded(lists, q, w);
      BoundedOne(lists, q, w, b, t.buckets[b]);
    }
  }

  /** HASH_ADD_KEYPTR_BYHASHVALUE, for a key that is not in the table. */
  method Add(t: Table, add: Item, key: Key)
    requires t.Valid() && add !in t.items
    requires forall i {:trigger t.items[i]} :: 0 <= i < |t.items| ==> t.items[i].key != key
    modifies t, add, t.items`next, t.items`hhNext, t.items`hhPrev
    ensures t.Valid() && t.items == old(t.items) + [add] && add.key == key
    ensures Added(t, add, t.hash(key), old(t.Lists()), old(t.GrowthSoFar()))
    ensures old(t.Loose()) ==> t.Loose()
  {
    ghost var m := t.items;
    ghost var lists, was, loose := t.Lists(), t.GrowthSoFar(), t.Loose();
    if loose { LooseBefore(t); }
    var hashval := t.hash(key);
    SetKey(t, add, key, hashval);
    Enlist(t, add);
    if loose { LoadSoFar(m, t.chains, t.buckets, was); }
    AddToBuckets(t, add, hashval, m);
    if loose { AddedLoose(t, add, hashval, lists, was); }
  }

  /** HASH_ADD_TO_TABLE, which leaves the list of all items alone. */
  method AddToBuckets(t: Table, add: Item, hashval: nat, ghost m: seq<Item>)
    requires t.ListOk() && t.KeysOk() && t.items == m + [add] && add !in m && add.hashv == hashval
    requires t.numItems == |m| && t.numBuckets == Pow2(t.log2NumBuckets)
    requires BucketsOk(m, t.chains, t.buckets, t.numBuckets)
    modifies t`numItems, t`buckets, t`chains, t`numBuckets, t`log2NumBuckets, t`idealChainMaxlen, t`nonidealItems,
             t`ineffExpands, t`noexpand, t.items`hhNext, t.items`hhPrev
    ensures t.Valid() && Added(t, add, hashval, old(t.buckets), old(t.Counters()))
  {
    AddToTable(t, add, hashval, m);
  }

  /** The list of all items, and their keys, with a new item. */
  method Enlist(t: Table, add: Item)
    requires t.Valid() && add !in t.items && Hashed(t.hash, add)
    requires forall i {:trigger t.items[i]} :: 0 <= i < |t.items| ==>
               t.items[i].key != add.key && Hashed(t.hash, t.items[i])
    modifies t, add`next, add`prev, t.items`next
    ensures t.ListOk() && t.KeysOk() && t.items == old(t.items) + [add]
    ensures BucketsOk(old(t.items), t.chains, t.buckets, t.numBuckets)
    ensures t.numItems == |old(t.items)| && t.numBuckets == Pow2(t.log2NumBuckets)
    ensures t.buckets == old(t.Lists()) && t.Counters() == old(t.GrowthSoFar())
  {
    ghost var m := t.items;
    AddToList(t, add);
    KeysOkSnoc(t.hash, m, t.items, add);
  }

  /** The key and the hash value of a new item, which is no key of the others. */
  method SetKey(t: Table, add: Item, key: Key, hashval: nat)
    requires t.Valid() && add !in t.items && hashval == t.hash(key)
    requires forall i {:trigger t.items[i]} :: 0 <= i < |t.items| ==> t.items[i].key != key
    modifies add`hashv, add`key
    ensures t.Valid() && add.key == key && add.hashv == hashval && Hashed(t.hash, add)
    ensures forall i {:trigger t.items[i]} :: 0 <= i < |t.items| ==> t.items[i].key != key && Hashed(t.hash, t.items[i])
  {
    add.hashv, add.key := hashval, key;
    forall i | 0 <= i < |t.items| ensures t.items[i].key != key && Hashed(t.hash, t.items[i]) {
      assert old(Hashed(t.hash, t.items[i]));
    }
    forall i, j | 0 <= i < j < |t.items| ensures KeysDiffer(t.items[i], t.items[j]) {
      assert old(KeysDiffer(t.items[i], t.items[j]));
    }
  }

  // ---------- deleting ----------

  /** s without its element number k. */
  ghost function Without<T>(s: seq<T>, k: nat): (r: seq<T>)
    requires k < |s|
    ensures |r| == |s| - 1
    ensures forall i {:trigger r[i]} :: 0 <= i < |r| ==> r[i] == if i < k then s[i] else s[i + 1]
  {
    s[..k] + s[k + 1..]
  }

  lemma DistinctWithout(s: seq<Item>, k: nat)
    requires Distinct(s) && k < |s|
    ensures Distinct(Without(s, k)) && s[k] !in Without(s, k)
    ensures forall x {:trigger x in s} :: x in s && x != s[k] ==> x in Without(s, k)
  {
    var r := Without(s, k);
    forall i, j | 0 <= i < j < |r| ensures Differ(r[i], r[j]) {
      var a, b := if i < k then i else i + 1, if j < k then j else j + 1;
      assert Differ(s[a], s[b]);
    }
    forall i | 0 <= i < |r| ensures r[i] != s[k] {
      Other(s, if i < k then i else i + 1, k);
    }
    forall i | 0 <= i < |s| && i != k ensures s[i] in r {
      assert r[if i < k then i else i - 1] == s[i];
    }
  }

  /** The writes that take del out of its bucket. */
  method HhUnlink(bucket: Bucket, del: Item, ghost c: seq<Item>, ghost k: nat) returns (less: Bucket)
    requires BucketIs(bucket, c) && k < |c| && c[k] == del && Distinct(c) && HhLinked(c)
    modifies c`hhNext, c`hhPrev
    ensures BucketIs(less, Without(c, k)) && HhLinked(Without(c, k))
    ensures less == bucket.(head := less.head, count := bucket.count - 1)
  {
    assert HhLinkAt(c, k);
    ghost var next, prev := At(c, k + 1), At(c, k - 1);
    assert k > 0 ==> HhLinkAt(c, k - 1) && Differ(c[k - 1], c[k]);
    assert k + 1 < |c| ==> Differ(c[k], c[k + 1]);
    less := HhWrites(bucket, del, c);
    ghost var r := Without(c, k);
    forall i | 0 <= i < |r| ensures HhLinkAt(r, i) {
      var a := if i < k then i else i + 1;
      assert old(HhLinkAt(c, a)) && c[a] in c && r[i] == c[a];
      assert At(r, i + 1) == if i + 1 < k then c[i + 1] else At(c, i + 2);
      assert At(r, i - 1) == if i <= k then At(c, i - 1) else c[i];
      if a != k - 1 && k > 0 { Other(c, a, k - 1); }
      if a != k + 1 && k + 1 < |c| { Other(c, a, k + 1); }
      Other(c, a, k);
    }
    if k > 0 { Other(c, 0, k); }
  }

  /** HASH_DEL_IN_BKT */
  method HhWrites(bucket: Bucket, del: Item, ghost c: seq<Item>) returns (less: Bucket)
    requires del.hhNext != null ==> del.hhNext in c && del.hhNext != del
    requires del.hhPrev != null ==> del.hhPrev in c && del.hhPrev != del
    requires bucket.count > 0
    modifies c`hhNext, c`hhPrev
    ensures less == bucket.(count := bucket.count - 1, head := if bucket.head == del then del.hhNext else bucket.head)
    ensures del.hhNext == old(del.hhNext) && del.hhPrev == old(del.hhPrev)
    ensures del.hhPrev != null ==> del.hhPrev.hhNext == del.hhNext
    ensures del.hhNext != null ==> del.hhNext.hhPrev == del.hhPrev
    ensures forall x {:trigger x in c} :: x in c && x != del.hhPrev ==> x.hhNext == old(x.hhNext)
    ensures forall x {:trigger x in c} :: x in c && x != del.hhNext ==> x.hhPrev == old(x.hhPrev)
  {
    less := bucket.(count := bucket.count - 1);
    if less.head == del {
      less := less.(head := del.hhNext);
    }
    if del.hhPrev != null {
      del.hhPrev.hhNext := del.hhNext;
    }
    if del.hhNext != null {
      del.hhNext.hhPrev := del.hhPrev;
    }
  }

  /** Only bucket b has changed, and has one item less. */
  ghost predicate OneLess(buckets: seq<Bucket>, fewer: seq<Bucket>, b: nat) {
    && b < |buckets| == |fewer| && buckets[b].count > 0
    && fewer == buckets[b := buckets[b].(head := fewer[b].head, count := buckets[b].count - 1)]
  }

  /** The others in that list stay as they were. */
  ghost predicate TakenFrom(chains: seq<seq<Item>>, shorter: seq<seq<Item>>, b: nat, del: Item) {
    b < |chains|
    && exists k: nat {:trigger Without(chains[b], k)} ::
         k < |chains[b]| && chains[b][k] == del && shorter == chains[b := Without(chains[b], k)]
  }

  /** Take item number p out of the buckets. */
  method RemoveFromBuckets(buckets: seq<Bucket>, del: Item, n: nat, ghost m: seq<Item>, ghost p: nat,
                           ghost chains: seq<seq<Item>>)
    returns (fewer: seq<Bucket>, ghost shorter: seq<seq<Item>>)
    requires BucketsOk(m, chains, buckets, n) && Distinct(m) && p < |m| && m[p] == del
    modifies m`hhNext, m`hhPrev
    ensures BucketsOk(Without(m, p), shorter, fewer, n) && TakenFrom(chains, shorter, ToBkt(del.hashv, n), del)
    ensures OneLess(buckets, fewer, ToBkt(del.hashv, n))
  {
    var b := ToBkt(del.hashv, n);
    assert Placed(m[p], chains, n);
    ghost var c := chains[b];
    assert ChainOk(m, c, n, b) && BucketIs(buckets[b], c);
    ghost var k :| 0 <= k < |c| && c[k] == del;
    ghost var r := Without(m, p);
    DistinctWithout(m, p);
    DistinctWithout(c, k);
    forall i | 0 <= i < |c| ensures c[i] in m && ToBkt(c[i].hashv, n) == b {
      assert Belongs(c[i], n, b);
    }
    var less := HhUnlink(buckets[b], del, c, k);
    fewer, shorter := buckets[b := less], chains[b := Without(c, k)];
    assert OneLess(buckets, fewer, b) && TakenFrom(chains, shorter, b, del);
    ExcessUpdate(chains, 0, n, b, Without(c, k));
    forall d | 0 <= d < n ensures ChainOk(r, shorter[d], n, d) {
      assert old(ChainOk(m, chains[d], n, d));
      forall i | 0 <= i < |chains[d]| ensures chains[d][i] in m && ToBkt(chains[d][i].hashv, n) == d {
        assert old(Belongs(chains[d][i], n, d));
      }
      if d != b {
        forall i | 0 <= i < |chains[d]| ensures HhLinkAt(chains[d], i) {
          assert old(HhLinkAt(chains[d], i));
          assert chains[d][i] !in c;
        }
      }
    }
    forall i | 0 <= i < |r| ensures Placed(r[i], shorter, n) {
      var a := if i < p then i else i + 1;
      assert old(Placed(m[a], chains, n));
      Other(m, a, p);
    }
    forall d | 0 <= d < n ensures BucketIs(fewer[d], shorter[d]) {
      assert BucketIs(buckets[d], chains[d]);
    }
  }

  /** The writes that take del out of the list of all items. */
  method ListWrites(t: Table, del: Item, ghost s: seq<Item>)
    requires del.next != null ==> del.next in s && del.next != del
    requires del.prev != null ==> del.prev in s && del.prev != del
    modifies t`head, t`tail, s`next, s`prev
    ensures t.tail == if old(t.tail) == del then del.prev else old(t.tail)
    ensures t.head == if del.prev == null then del.next else old(t.head)
    ensures del.next == old(del.next) && del.prev == old(del.prev)
    ensures del.prev != null ==> del.prev.next == del.next
    ensures del.next != null ==> del.next.prev == del.prev
    ensures forall x {:trigger x in s} :: x in s && x != del.prev ==> x.next == old(x.next)
    ensures forall x {:trigger x in s} :: x in s && x != del.next ==> x.prev == old(x.prev)
  {
    if del == t.tail {
      t.tail := del.prev;
    }
    if del.prev != null {
      del.prev.next := del.next;
    } else {
      t.head := del.next;
    }
    if del.next != null {
      del.next.prev := del.prev;
    }
  }

  /** Take item number p, which is not the only one, out of the list of all items. */
  method RemoveFromList(t: Table, del: Item, ghost p: nat)
    requires t.ListOk() && p < |t.items| && t.items[p] == del && |t.items| > 1
    modifies t`head, t`tail, t`items, t.items`next, t.items`prev
    ensures t.ListOk() && t.items == Without(old(t.items), p)
  {
    ghost var s, r := t.items, Without(t.items, p);
    assert LinkAt(s, p);
    assert p > 0 ==> LinkAt(s, p - 1) && Differ(s[p - 1], s[p]);
    assert p + 1 < |s| ==> Differ(s[p], s[p + 1]);
    DistinctWithout(s, p);
    ListWrites(t, del, s);
    t.items := r;
    forall i | 0 <= i < |r| ensures LinkAt(r, i) {
      var a := if i < p then i else i + 1;
      assert old(LinkAt(s, a)) && s[a] in s && r[i] == s[a];
      assert At(r, i + 1) == if i + 1 < p then s[i + 1] else At(s, i + 2);
      assert At(r, i - 1) == if i <= p then At(s, i - 1) else s[i];
      if a != p - 1 && p > 0 { Other(s, a, p - 1); }
      if a != p + 1 && p + 1 < |s| { Other(s, a, p + 1); }
      Other(s, a, p);
    }
    if p > 0 { Other(s, 0, p); }
    if p + 1 < |s| { Other(s, |s| - 1, p); }
  }

  lemma KeysOkWithout(hash: Key -> nat, s: seq<Item>, p: nat)
    requires p < |s| && forall i {:trigger Hashed(hash, s[i])} :: 0 <= i < |s| ==> Hashed(hash, s[i])
    requires forall i, j {:trigger KeysDiffer(s[i], s[j])} :: 0 <= i < j < |s| ==> KeysDiffer(s[i], s[j])
    ensures var r := Without(s, p);
      && (forall i {:trigger Hashed(hash, r[i])} :: 0 <= i < |r| ==> Hashed(hash, r[i]))
      && (forall i, j {:trigger KeysDiffer(r[i], r[j])} :: 0 <= i < j < |r| ==> KeysDiffer(r[i], r[j]))
    ensures forall i {:trigger Without(s, p)[i]} :: 0 <= i < |s| - 1 ==> Without(s, p)[i].key != s[p].key
  {
    var r := Without(s, p);
    forall i | 0 <= i < |r| ensures Hashed(hash, r[i]) && r[i].key != s[p].key {
      var a := if i < p then i else i + 1;
      assert Hashed(hash, s[a]);
      assert if a < p then KeysDiffer(s[a], s[p]) else KeysDiffer(s[p], s[a]);
    }
    forall i, j | 0 <= i < j < |r| ensures KeysDiffer(r[i], r[j]) {
      assert KeysDiffer(s[if i < p then i else i + 1], s[if j < p then j else j + 1]);
    }
  }

  /** The buckets after del was taken out of one of them. */
  ghost predicate Deleted(t: Table, del: Item, buckets: seq<Bucket>, chains: seq<seq<Item>>)
    requires t.numBuckets > 0
    reads t, del
  {
    var b := ToBkt(del.hashv, t.numBuckets);
    OneLess(buckets, t.buckets, b) && TakenFrom(chains, t.chains, b, del)
  }

  /** HASH_DELETE_HH. With the last item the table goes, too. */
  method Delete(t: Table, del: Item, ghost p: nat)
    requires t.Valid() && p < |t.items| && t.items[p] == del
    modifies t`head, t`tail, t`items, t`chains, t`buckets, t`numItems
    modifies t.items`next, t.items`prev, t.items`hhNext, t.items`hhPrev
    ensures t.Valid() && t.items == Without(old(t.items), p)
    ensures forall i {:trigger t.items[i]} :: 0 <= i < |t.items| ==> t.items[i].key != del.key
    ensures if old(|t.items|) == 1 then t.head == null
            else t.head != null && Deleted(t, del, old(t.buckets), old(t.chains))
    ensures old(t.Loose()) ==> t.Loose()
  {
    KeysOkWithout(t.hash, t.items, p);
    assert LinkAt(t.items, p) && LinkAt(t.items, 0);
    if del.prev == null && del.next == null {
      assert |t.items| == 1;
      t.head, t.items := null, [];
    } else {
      RemoveTwice(t, del, p);
    }
  }

  method RemoveTwice(t: Table, del: Item, ghost p: nat)
    requires t.ListOk() && t.TableOk() && p < |t.items| && t.items[p] == del && |t.items| > 1
    modifies t`head, t`tail, t`items, t`chains, t`buckets, t`numItems
    modifies t.items`next, t.items`prev, t.items`hhNext, t.items`hhPrev
    ensures t.ListOk() && t.TableOk() && t.items == Without(old(t.items), p)
    ensures Deleted(t, del, old(t.buckets), old(t.chains))
    ensures old(t.Loose()) ==> t.Loose()
  {
    ghost var s, lists := t.items, t.buckets;
    RemoveFromList(t, del, p);
    var buckets;
    ghost var chains;
    buckets, chains := RemoveFromBuckets(t.buckets, del, t.numBuckets, s, p, t.chains);
    t.buckets, t.chains := buckets, chains;
    t.numItems := t.numItems - 1;
    if old(t.Loose()) && !t.noexpand {
      ghost var q, was :| Bounded(lists, q, was);
      BoundedOne(lists, q, was, ToBkt(del.hashv, t.numBuckets), t.buckets[ToBkt(del.hashv, t.numBuckets)]);
    }
  }

  /** Find the item with the key, and delete it. */
  method DeleteKey(t: Table, key: Key) returns (replaced: Item?, ghost p: nat)
    requires t.Valid()
    modifies t, t.items`next, t.items`prev, t.items`hhNext, t.items`hhPrev
    ensures t.Valid() && (old(t.Loose()) ==> t.Loose())
    ensures forall i {:trigger t.items[i]} :: 0 <= i < |t.items| ==> t.items[i] in old(t.items) && t.items[i].key != key
    ensures replaced == null ==> t.items == old(t.items) && t.Lists() == old(t.Lists())
                                 && t.GrowthSoFar() == old(t.GrowthSoFar())
    ensures replaced != null ==> p < |old(t.items)| && old(t.items)[p] == replaced && replaced.key == key
                                 && t.items == Without(old(t.items), p)
    ensures replaced != null && old(|t.items|) == 1 ==> t.Lists() == NoLists() && t.GrowthSoFar() == NoGrowth
    ensures replaced != null && old(|t.items|) > 1 ==>
              t.GrowthSoFar() == old(t.Counters()) && old(|t.buckets|) > 0
              && OneLess(old(t.buckets), t.Lists(), ToBkt(t.hash(key), old(|t.buckets|)))
  {
    replaced := t.Find(key);
    p := 0;
    if replaced != null {
      ghost var s := t.items;
      p :| 0 <= p < |s| && s[p] == replaced;
      DistinctWithout(s, p);
      assert Hashed(t.hash, s[p]);
      Delete(t, replaced, p);
    }
  }

  /** HASH_REPLACE: add an item, in place of the one with the same key, if there is one. */
  method Replace(t: Table, add: Item)
    returns (replaced: Item?, ghost p: nat, ghost lists: seq<Bucket>, ghost growth: Growth)
    requires t.Valid() && add !in t.items
    modifies t, add, t.items`next, t.items`prev, t.items`hhNext, t.items`hhPrev
    ensures t.Valid()
    ensures replaced == null ==> t.items == old(t.items) + [add]
                                 && forall i {:trigger old(t.items)[i]} :: 0 <= i < |old(t.items)| ==>
                                    old(t.items)[i].key != add.key
    ensures replaced != null ==> p < |old(t.items)| && old(t.items)[p] == replaced && replaced.key == add.key
                                 && t.items == Without(old(t.items), p) + [add]
    ensures Added(t, add, t.hash(add.key), lists, growth) && (old(t.Loose()) ==> t.Loose())
    ensures replaced == null ==> lists == old(t.Lists()) && growth == old(t.GrowthSoFar())
    ensures replaced != null && old(|t.items|) == 1 ==> lists == NoLists() && growth == NoGrowth
    ensures replaced != null && old(|t.items|) > 1 ==>
              growth == old(t.Counters()) && old(|t.buckets|) > 0
              && OneLess(old(t.buckets), lists, ToBkt(t.hash(add.key), old(|t.buckets|)))
  {
    replaced, p := DeleteKey(t, add.key);
    lists, growth := t.Lists(), t.GrowthSoFar();
    Add(t, add, add.key);
  }

  // ---------- many items for one bucket ----------

  /** None of the keys from number i on is in the table, or comes twice. */
  ghost predicate Fresh(t: Table, keys: seq<Key>, i: nat)
    reads t, t.items
  {
    && (forall j, k {:trigger t.items[j], keys[k]} :: 0 <= j < |t.items| && i <= k < |keys| ==>
          t.items[j].key != keys[k])
    && (forall j, k {:trigger keys[j], keys[k]} :: i <= j < k < |keys| ==> keys[j] != keys[k])
  }

  /** The first i of the items have come to those of s, all into bucket b, and nothing else has changed. */
  ghost predicate SoFar(t: Table, s: seq<Item>, adds: seq<Item>, keys: seq<Key>, lists: seq<Bucket>, was: Growth,
                        b: nat, i: nat)
    reads t, t.items
  {
    && i <= |adds| == |keys| && t.items == s + adds[..i] && Fresh(t, keys, i)
    && b < |lists| == |t.Lists()| && t.GrowthSoFar() == was
    && t.Lists() == lists[b := lists[b].(head := t.Lists()[b].head, count := lists[b].count + i)]
  }

  /** One of them. */
  method AddOne(t: Table, adds: seq<Item>, keys: seq<Key>, ghost b: nat, i: nat, ghost s: seq<Item>,
                ghost lists: seq<Bucket>, ghost was: Growth)
    requires t.Valid() && i < |adds| && Distinct(adds) && SoFar(t, s, adds, keys, lists, was, b, i)
    requires adds[i] !in s && ToBkt(t.hash(keys[i]), |lists|) == b
    requires !was.noexpand && lists[b].count + i < 10 * (lists[b].expandMult + 1)
    modifies t, adds, t.items`next, t.items`hhNext, t.items`hhPrev
    ensures t.Valid() && t.items == s + adds[..i + 1] && (old(t.Loose()) ==> t.Loose())
    ensures if lists[b].count + i + 1 == 10 * (lists[b].expandMult + 1) then Doubled(t, |lists|, was)
            else
              && SoFar(t, s, adds, keys, lists, was, b, i + 1) && t.numBuckets == |lists| && t.Counters() == was
              && t.buckets == t.Lists() && t.buckets[b].head == adds[i]
  {
    forall j | 0 <= j < i ensures adds[j] != adds[i] {
      Other(adds, j, i);
    }
    assert s + adds[..i + 1] == t.items + [adds[i]];
    Add(t, adds[i], keys[i]);
    forall j, k | 0 <= j < |t.items| && i + 1 <= k < |keys| ensures t.items[j].key != keys[k] {
      if j < |t.items| - 1 { assert old(t.items)[j].key != keys[k]; }
    }
  }

  /** Items whose keys all belong into bucket b, one after another. While doubling is not given up, the buckets are
      doubled with the last one if the bucket has ten items for its multiplier and one by then, and not before. */
  method AddAll(t: Table, adds: seq<Item>, keys: seq<Key>, ghost b: nat)
    requires t.Valid() && |adds| == |keys| > 0 && Distinct(adds) && Fresh(t, keys, 0)
    requires forall i {:trigger adds[i]} :: 0 <= i < |adds| ==> adds[i] !in t.items
    requires |t.Lists()| > b && forall i {:trigger keys[i]} :: 0 <= i < |keys| ==>
               ToBkt(t.hash(keys[i]), |t.Lists()|) == b
    requires !t.GrowthSoFar().noexpand && t.Lists()[b].count + |adds| <= 10 * (t.Lists()[b].expandMult + 1)
    modifies t, adds, t.items`next, t.items`hhNext, t.items`hhPrev
    ensures t.Valid() && t.items == old(t.items) + adds && (old(t.Loose()) ==> t.Loose())
    ensures var lists := old(t.Lists());
      if lists[b].count + |adds| == 10 * (lists[b].expandMult + 1) then Doubled(t, |lists|, old(t.GrowthSoFar()))
      else
        && t.buckets == lists[b := lists[b].(head := adds[|adds| - 1], count := lists[b].count + |adds|)]
        && t.numBuckets == |lists| && t.Counters() == old(t.GrowthSoFar())
  {
    ghost var lists, was, s := t.Lists(), t.GrowthSoFar(), t.items;
    var i := 0;
    while i < |adds| - 1
      invariant 0 <= i < |adds| && t.Valid() && SoFar(t, s, adds, keys, lists, was, b, i)
      invariant old(t.Loose()) ==> t.Loose()
    {
      AddOne(t, adds, keys, b, i, s, lists, was);
      i := i + 1;
    }
    AddOne(t, adds, keys, b, i, s, lists, was);
    assert adds[..i + 1] == adds;
  }
}
