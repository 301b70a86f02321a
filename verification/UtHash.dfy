/** uthash: an intrusive hash table. Every item stands in one bucket's list, and in one list of all items. */
module UtHash {
  import opened ByteSeqs

  type Key = seq<Byte>

  const HASH_INITIAL_NUM_BUCKETS: nat := 32
  const HASH_INITIAL_NUM_BUCKETS_LOG2: nat := 5
  const HASH_BKT_CAPACITY_THRESH: nat := 10

  /** An element and its UT_hash_handle. */
  class Item {
    var key: Key
    var hashv: nat
    var next: Item?
    var prev: Item?
    var hhNext: Item?
    var hhPrev: Item?

    constructor (key: Key)
      ensures this.key == key
    {
      this.key, hashv, next, prev, hhNext, hhPrev := key, 0, null, null, null, null;
    }
  }

  datatype Bucket = Bucket(head: Item?, count: nat, expandMult: nat)

  // ---------- buckets of a power of two ----------

  function Pow2(k: nat): (n: nat)
    ensures n > 0
  {
    if k == 0 then 1 else 2 * Pow2(k - 1)
  }

  /** Bitwise and. */
  function And(a: nat, b: nat): nat {
    if a == 0 || b == 0 then 0 else (a % 2) * (b % 2) + 2 * And(a / 2, b / 2)
  }

  /** HASH_TO_BKT */
  function ToBkt(hashv: nat, n: nat): nat
    requires n > 0
  {
    And(hashv, n - 1)
  }

  /** With a power of two buckets, the bucket's number is the remainder of the hash value. */
  lemma {:induction false} ToBktIsMod(hashv: nat, k: nat)
    ensures ToBkt(hashv, Pow2(k)) == hashv % Pow2(k) < Pow2(k)
  {
    if k > 0 {
      ToBktIsMod(hashv / 2, k - 1);
      AndHalves(hashv, Pow2(k - 1));
      ModHalves(hashv, Pow2(k - 1));
    }
  }

  lemma AndHalves(hashv: nat, m: nat)
    requires m > 0
    ensures And(hashv, 2 * m - 1) == hashv % 2 + 2 * And(hashv / 2, m - 1)
  {
    assert (2 * m - 1) / 2 == m - 1 && (2 * m - 1) % 2 == 1;
    assert And(0, m - 1) == 0;
  }

  lemma ModHalves(a: nat, m: nat)
    requires m > 0
    ensures a % (2 * m) == a % 2 + 2 * (a / 2 % m)
  {
    var q, r := a / 2 / m, a / 2 % m;
    assert a == q * (2 * m) + (2 * r + a % 2) by {
      assert a / 2 == q * m + r;
      assert 2 * (q * m) == q * (2 * m);
    }
    ModIs(a, 2 * m, q, 2 * r + a % 2);
  }

  lemma ModIs(a: nat, m: nat, q: nat, r: nat)
    requires m > 0 && a == q * m + r && r < m
    ensures a % m == r
  {
    var d := a / m;
    assert a == d * m + a % m;
    assert (d - q) * m == r - a % m;
    assert d - q >= 1 ==> (d - q) * m >= m;
    assert (q - d) * m == a % m - r;
    assert q - d >= 1 ==> (q - d) * m >= m;
  }

  // ---------- lists ----------

  ghost function At(s: seq<Item>, i: int): Item? {
    if 0 <= i < |s| then s[i] else null
  }

  ghost predicate Differ(x: Item, y: Item) {
    x != y
  }

  ghost predicate Distinct(s: seq<Item>) {
    forall i, j {:trigger Differ(s[i], s[j])} :: 0 <= i < j < |s| ==> Differ(s[i], s[j])
  }

  lemma Other(s: seq<Item>, i: nat, j: nat)
    requires Distinct(s) && i < |s| && j < |s| && i != j
    ensures s[i] != s[j]
  {
    assert if i < j then Differ(s[i], s[j]) else Differ(s[j], s[i]);
  }

  ghost predicate LinkAt(s: seq<Item>, i: nat)
    requires i < |s|
    reads s`next, s`prev
  {
    s[i].next == At(s, i + 1) && s[i].prev == At(s, i - 1)
  }

  /** A doubly linked list by next and prev. */
  ghost predicate Linked(s: seq<Item>)
    reads s`next, s`prev
  {
    forall i {:trigger LinkAt(s, i)} :: 0 <= i < |s| ==> LinkAt(s, i)
  }

  ghost predicate HhLinkAt(s: seq<Item>, i: nat)
    requires i < |s|
    reads s`hhNext, s`hhPrev
  {
    s[i].hhNext == At(s, i + 1) && s[i].hhPrev == At(s, i - 1)
  }

  /** A doubly linked list by hhNext and hhPrev. */
  ghost predicate HhLinked(s: seq<Item>)
    reads s`hhNext, s`hhPrev
  {
    forall i {:trigger HhLinkAt(s, i)} :: 0 <= i < |s| ==> HhLinkAt(s, i)
  }

  // ---------- the buckets ----------

  /** The item belongs into bucket b of n. */
  ghost predicate Belongs(x: Item, n: nat, b: nat)
    requires n > 0
    reads x`hashv
  {
    ToBkt(x.hashv, n) == b
  }

  /** The list of bucket b of n, with members of m only. */
  ghost predicate ChainOk(m: seq<Item>, c: seq<Item>, n: nat, b: nat)
    requires n > 0
    reads m`hhNext, m`hhPrev, m`hashv
  {
    && Distinct(c)
    && (forall i {:trigger c[i]} :: 0 <= i < |c| ==> c[i] in m)
    && HhLinked(c)
    && (forall i {:trigger Belongs(c[i], n, b)} :: 0 <= i < |c| ==> Belongs(c[i], n, b))
  }

  ghost predicate BucketIs(bucket: Bucket, c: seq<Item>) {
    bucket.head == At(c, 0) && bucket.count == |c|
  }

  /** The sum over the first n lists of what exceeds max. */
  ghost function Excess(chains: seq<seq<Item>>, max: nat, n: nat): nat
    requires n <= |chains|
  {
    if n == 0 then 0
    else Excess(chains, max, n - 1) + if |chains[n - 1]| > max then |chains[n - 1]| - max else 0
  }

  /** The number of items in all the lists. */
  ghost function Total(chains: seq<seq<Item>>): nat {
    Excess(chains, 0, |chains|)
  }

  ghost predicate Placed(x: Item, chains: seq<seq<Item>>, n: nat)
    requires n > 0
    reads x`hashv
  {
    ToBkt(x.hashv, n) < |chains| && x in chains[ToBkt(x.hashv, n)]
  }

  /** The buckets hold each item of m once, in the bucket it belongs into, and nothing else. */
  ghost predicate BucketsOk(m: seq<Item>, chains: seq<seq<Item>>, buckets: seq<Bucket>, n: nat)
    reads m`hhNext, m`hhPrev, m`hashv
  {
    && n > 0 && |chains| == n && |buckets| == n && Total(chains) == |m|
    && (forall b {:trigger ChainOk(m, chains[b], n, b)} :: 0 <= b < n ==> ChainOk(m, chains[b], n, b))
    && (forall b {:trigger BucketIs(buckets[b], chains[b])} :: 0 <= b < n ==> BucketIs(buckets[b], chains[b]))
    && (forall i {:trigger Placed(m[i], chains, n)} :: 0 <= i < |m| ==> Placed(m[i], chains, n))
  }

  /** One list has become longer or shorter. */
  lemma {:induction false} ExcessUpdate(chains: seq<seq<Item>>, max: nat, n: nat, b: nat, c: seq<Item>)
    requires b < |chains| && n <= |chains|
    ensures b >= n ==> Excess(chains[b := c], max, n) == Excess(chains, max, n)
    ensures b < n ==> Excess(chains[b := c], max, n) + (if |chains[b]| > max then |chains[b]| - max else 0)
                      == Excess(chains, max, n) + (if |c| > max then |c| - max else 0)
  {
    if n > 0 {
      ExcessUpdate(chains, max, n - 1, b, c);
    }
  }

  /** The writes that put x in front of the list that starts at head. */
  method LinkInFront(x: Item, head: Item?, ghost m: seq<Item>)
    requires head != null ==> head in m && head != x
    modifies x`hhNext, x`hhPrev, m`hhPrev
    ensures forall y {:trigger y in m} :: y in m && y != head && y != x ==> y.hhPrev == old(y.hhPrev)
    ensures x.hhNext == head && x.hhPrev == null && (head != null ==> head.hhPrev == x)
  {
    x.hhNext := head;
    x.hhPrev := null;
    if head != null {
      head.hhPrev := x;
    }
  }

  /** Put x in front of the list of its bucket. */
  method PushFront(buckets: seq<Bucket>, x: Item, n: nat, ghost m: seq<Item>, ghost chains: seq<seq<Item>>)
    returns (more: seq<Bucket>, ghost longer: seq<seq<Item>>)
    requires BucketsOk(m, chains, buckets, n) && x !in m && ToBkt(x.hashv, n) < n
    modifies x`hhNext, x`hhPrev, m`hhPrev
    ensures var b := ToBkt(x.hashv, n);
      && longer == chains[b := [x] + chains[b]]
      && more == buckets[b := buckets[b].(head := x, count := buckets[b].count + 1)]
    ensures BucketsOk(m + [x], longer, more, n)
  {
    var b := ToBkt(x.hashv, n);
    ghost var c := chains[b];
    assert BucketIs(buckets[b], c) && ChainOk(m, c, n, b);
    LinkInFront(x, buckets[b].head, m);
    more := buckets[b := buckets[b].(head := x, count := buckets[b].count + 1)];
    longer := chains[b := [x] + c];
    ExcessUpdate(chains, 0, n, b, [x] + c);
    assert Total(longer) == |m + [x]|;
    forall d | 0 <= d < n ensures ChainOk(m + [x], longer[d], n, d) {
      assert old(ChainOk(m, chains[d], n, d));
      forall i | 0 <= i < |chains[d]| ensures chains[d][i] in m && chains[d][i] != x && Belongs(chains[d][i], n, d) {
        assert chains[d][i] in m && old(Belongs(chains[d][i], n, d));
      }
      if d == b {
        forall i | 0 <= i < |[x] + c| ensures HhLinkAt([x] + c, i) {
          if i > 0 {
            assert old(HhLinkAt(c, i - 1));
            assert i > 1 ==> Differ(c[0], c[i - 1]);
          }
        }
        FrontOk(m + [x], c, n, b, x);
      } else {
        forall i | 0 <= i < |chains[d]| ensures HhLinkAt(chains[d], i) {
          assert old(HhLinkAt(chains[d], i) && Belongs(chains[d][i], n, d));
          assert |c| > 0 ==> old(Belongs(c[0], n, b));
        }
      }
    }
    forall i | 0 <= i < |m + [x]| ensures Placed((m + [x])[i], longer, n) {
      assert i < |m| ==> old(Placed(m[i], chains, n));
    }
    forall d | 0 <= d < n ensures BucketIs(more[d], longer[d]) {
      assert BucketIs(buckets[d], chains[d]);
    }
  }

  lemma FrontOk(m: seq<Item>, c: seq<Item>, n: nat, b: nat, x: Item)
    requires n > 0 && Distinct(c) && x in m && ToBkt(x.hashv, n) == b && HhLinked([x] + c)
    requires forall i {:trigger c[i]} :: 0 <= i < |c| ==> c[i] in m && Belongs(c[i], n, b) && c[i] != x
    ensures ChainOk(m, [x] + c, n, b)
  {
    var d := [x] + c;
    forall i, j | 0 <= i < j < |d| ensures Differ(d[i], d[j]) {
      assert i > 0 ==> Differ(c[i - 1], c[j - 1]);
    }
  }

  /** The same items in another order. */
  lemma SameMembers(m: seq<Item>, other: seq<Item>, chains: seq<seq<Item>>, buckets: seq<Bucket>, n: nat)
    requires BucketsOk(m, chains, buckets, n) && |other| == |m|
    requires forall i {:trigger m[i]} :: 0 <= i < |m| ==> m[i] in other
    requires forall i {:trigger other[i]} :: 0 <= i < |other| ==> other[i] in m
    ensures BucketsOk(other, chains, buckets, n)
  {
    forall b | 0 <= b < n ensures ChainOk(other, chains[b], n, b) {
      var c := chains[b];
      assert ChainOk(m, c, n, b);
      forall i | 0 <= i < |c| ensures c[i] in other {
        assert c[i] in m;
      }
    }
    forall i | 0 <= i < |other| ensures Placed(other[i], chains, n) {
      var j :| 0 <= j < |m| && m[j] == other[i];
      assert Placed(m[j], chains, n);
    }
  }

  // ---------- doubling the buckets ----------

  ghost predicate FwdAt(c: seq<Item>, j: nat)
    requires j < |c|
    reads c`hhNext
  {
    c[j].hhNext == At(c, j + 1)
  }

  /** A list that can still be followed from number k on. */
  ghost predicate Forward(c: seq<Item>, k: nat)
    reads c`hhNext
  {
    forall j {:trigger FwdAt(c, j)} :: k <= j < |c| ==> FwdAt(c, j)
  }

  /** The expand_mult of a bucket that count items were put into while the buckets were doubled. */
  function Mult(count: nat, ideal: nat): nat {
    if count <= ideal then 0
    else
      var mult := Mult(count - 1, ideal);
      if count > mult * ideal then mult + 1 else mult
  }

  ghost predicate MultIs(bucket: Bucket, ideal: nat) {
    bucket.expandMult == Mult(bucket.count, ideal)
  }

  /** What doubling counts: the items beyond the ideal length, and a multiplier for each bucket. */
  ghost predicate Counted(chains: seq<seq<Item>>, buckets: seq<Bucket>, n: nat, ideal: nat, nonideal: nat) {
    && |chains| == n && |buckets| == n && nonideal == Excess(chains, ideal, n)
    && (forall b {:trigger MultIs(buckets[b], ideal)} :: 0 <= b < n ==> MultIs(buckets[b], ideal))
  }

  /** The loop over one bucket's list c: put its items into the new buckets. */
  method MoveList(head: Item?, buckets0: seq<Bucket>, n: nat, ideal: nat, nonideal0: nat,
                  ghost c: seq<Item>, ghost m: seq<Item>, ghost chains0: seq<seq<Item>>)
    returns (buckets: seq<Bucket>, nonideal: nat, ghost chains: seq<seq<Item>>)
    requires BucketsOk(m, chains0, buckets0, n) && Counted(chains0, buckets0, n, ideal, nonideal0)
    requires Distinct(c) && Forward(c, 0) && head == At(c, 0)
    requires forall i {:trigger c[i]} :: 0 <= i < |c| ==> c[i] !in m && ToBkt(c[i].hashv, n) < n
    modifies c`hhNext, c`hhPrev, m`hhPrev
    ensures BucketsOk(m + c, chains, buckets, n) && Counted(chains, buckets, n, ideal, nonideal)
  {
    buckets, nonideal, chains := buckets0, nonideal0, chains0;
    var x, k := head, 0;
    assert m + c[..0] == m;
    while x != null
      invariant k <= |c| && x == At(c, k) && Forward(c, k)
      invariant BucketsOk(m + c[..k], chains, buckets, n) && Counted(chains, buckets, n, ideal, nonideal)
      decreases |c| - k
    {
      assert FwdAt(c, k);
      OthersThan(c, k);
      var next := x.hhNext;
      label Before:
      buckets, nonideal, chains := MoveItem(x, buckets, n, ideal, nonideal, m + c[..k], chains);
      assert (m + c[..k]) + [x] == m + c[..k + 1];
      forall j | k + 1 <= j < |c| ensures FwdAt(c, j) {
        assert old@Before(FwdAt(c, j)) && c[j] != x;
      }
      x := next;
      k := k + 1;
    }
    assert c[..k] == c;
  }

  lemma OthersThan(c: seq<Item>, k: nat)
    requires Distinct(c) && k < |c|
    ensures forall j {:trigger c[j]} :: 0 <= j < |c| && j != k ==> c[j] != c[k]
    ensures c[k] !in c[..k]
  {
    forall j | 0 <= j < |c| && j != k ensures c[j] != c[k] {
      Other(c, j, k);
    }
  }

  /** One round of that loop. */
  method MoveItem(x: Item, buckets0: seq<Bucket>, n: nat, ideal: nat, nonideal0: nat, ghost m: seq<Item>,
                  ghost chains0: seq<seq<Item>>)
    returns (buckets: seq<Bucket>, nonideal: nat, ghost chains: seq<seq<Item>>)
    requires BucketsOk(m, chains0, buckets0, n) && Counted(chains0, buckets0, n, ideal, nonideal0)
    requires x !in m && ToBkt(x.hashv, n) < n
    modifies x`hhNext, x`hhPrev, m`hhPrev
    ensures BucketsOk(m + [x], chains, buckets, n) && Counted(chains, buckets, n, ideal, nonideal)
  {
    var b := ToBkt(x.hashv, n);
    assert BucketIs(buckets0[b], chains0[b]) && MultIs(buckets0[b], ideal);
    var bucket := buckets0[b];
    nonideal := nonideal0;
    if bucket.count + 1 > ideal {
      nonideal := nonideal + 1;
      if bucket.count + 1 > bucket.expandMult * ideal {
        bucket := bucket.(expandMult := bucket.expandMult + 1);
      }
    }
    buckets := buckets0[b := bucket];
    MultOnly(m, chains0, buckets0, buckets, n, b);
    buckets, chains := PushFront(buckets, x, n, m, chains0);
    ExcessUpdate(chains0, ideal, n, b, [x] + chains0[b]);
    forall d | 0 <= d < n ensures MultIs(buckets[d], ideal) {
      assert MultIs(buckets0[d], ideal);
    }
  }

  /** A multiplier does not matter for the lists. */
  lemma MultOnly(m: seq<Item>, chains: seq<seq<Item>>, was: seq<Bucket>, buckets: seq<Bucket>, n: nat, b: nat)
    requires BucketsOk(m, chains, was, n) && b < n && |buckets| == n
    requires buckets == was[b := was[b].(expandMult := buckets[b].expandMult)]
    ensures BucketsOk(m, chains, buckets, n)
  {
    forall d | 0 <= d < n ensures BucketIs(buckets[d], chains[d]) {
      assert BucketIs(was[d], chains[d]);
    }
  }
}
