/** How full the buckets of uthash can become before they are doubled. */
module UtHashLoad {
  import opened UtHash

  ghost function Sum(s: seq<nat>, n: nat): nat
    requires n <= |s|
  {
    if n == 0 then 0 else Sum(s, n - 1) + s[n - 1]
  }

  /** A multiplier is at most twice the share that the bucket had in the ideal length. */
  lemma {:induction false} MultAtMost(count: nat, ideal: nat)
    ensures Mult(count, ideal) * ideal <= 2 * count
  {
    if count > ideal {
      MultAtMost(count - 1, ideal);
      var mult := Mult(count - 1, ideal);
      assert (mult + 1) * ideal == mult * ideal + ideal;
    }
  }

  /** What the multiplier of a bucket is: the count in units of the ideal length, rounded up; but it lags by one at the
      first item beyond the ideal length, and always if that length is one. */
  lemma {:induction false} MultIsCeil(count: nat, ideal: nat)
    requires ideal > 0
    ensures count <= ideal ==> Mult(count, ideal) == 0
    ensures count == ideal + 1 ==> Mult(count, ideal) == 1
    ensures ideal == 1 && count > 1 ==> Mult(count, ideal) == count - 1
    ensures ideal > 1 && count > ideal + 1 ==>
              Mult(count, ideal) > 0 && count <= Mult(count, ideal) * ideal && (Mult(count, ideal) - 1) * ideal < count
  {
    if count > ideal {
      MultIsCeil(count - 1, ideal);
      var mult := Mult(count - 1, ideal);
      assert (mult + 1) * ideal == mult * ideal + ideal;
      if ideal > 1 && mult > 0 { assert (mult - 1) * ideal == mult * ideal - ideal; }
    }
  }

  /** A bucket that held was items when the buckets were last doubled, with the ideal length q. */
  ghost predicate HoldsUpTo(bucket: Bucket, q: nat, was: nat) {
    bucket.expandMult == Mult(was, q) && q * bucket.count <= 10 * q + 20 * was
  }

  /** The buckets held the items counted by was, which is no more than q for each bucket, when they were last doubled,
      and have not been overfull since. */
  ghost predicate Bounded(buckets: seq<Bucket>, q: nat, was: seq<nat>) {
    && 0 < q <= 20 && |was| == |buckets| && Sum(was, |was|) <= q * |buckets|
    && forall b {:trigger HoldsUpTo(buckets[b], q, was[b])} :: 0 <= b < |buckets| ==> HoldsUpTo(buckets[b], q, was[b])
  }

  /** As long as that is so, there are no more than thirty items for each bucket. */
  lemma LoadAtMost(chains: seq<seq<Item>>, buckets: seq<Bucket>, q: nat, was: seq<nat>)
    requires Bounded(buckets, q, was) && |chains| == |buckets|
    requires forall b {:trigger BucketIs(buckets[b], chains[b])} ::
               0 <= b < |buckets| ==> BucketIs(buckets[b], chains[b])
    ensures Total(chains) <= 30 * |buckets|
  {
    LoadUpTo(chains, buckets, q, was, |buckets|);
    var n := |buckets|;
    assert 10 * (q * n) + 20 * (q * n) == q * (30 * n);
    MoreTimes(q, Total(chains), 30 * n);
  }

  lemma {:induction false} MoreTimes(q: nat, a: int, b: int)
    requires q > 0
    ensures a > b <==> q * a > q * b
  {
    if q > 1 {
      MoreTimes(q - 1, a, b);
      assert q * a == (q - 1) * a + a && q * b == (q - 1) * b + b;
    }
  }

  lemma {:induction false} LoadUpTo(chains: seq<seq<Item>>, buckets: seq<Bucket>, q: nat, was: seq<nat>, n: nat)
    requires Bounded(buckets, q, was) && n <= |chains| == |buckets|
    requires forall b {:trigger BucketIs(buckets[b], chains[b])} ::
               0 <= b < |buckets| ==> BucketIs(buckets[b], chains[b])
    ensures q * Excess(chains, 0, n) <= 10 * (q * n) + 20 * Sum(was, n)
  {
    if n > 0 {
      LoadUpTo(chains, buckets, q, was, n - 1);
      assert BucketIs(buckets[n - 1], chains[n - 1]) && HoldsUpTo(buckets[n - 1], q, was[n - 1]);
      var before, c := Excess(chains, 0, n - 1), |chains[n - 1]|;
      assert Excess(chains, 0, n) == before + c;
      assert q * (before + c) == q * before + q * c && q * n == q * (n - 1) + q;
    }
  }

  /** New buckets without any items. */
  lemma BoundedAtFirst(buckets: seq<Bucket>) returns (was: seq<nat>)
    requires forall b {:trigger buckets[b]} :: 0 <= b < |buckets| ==> buckets[b].count == 0 == buckets[b].expandMult
    ensures Bounded(buckets, 1, was)
  {
    was := seq(|buckets|, _ => 0);
    SumOfZeros(was, |was|);
    forall b | 0 <= b < |buckets| ensures HoldsUpTo(buckets[b], 1, was[b]) {
      assert buckets[b].count == 0;
    }
  }

  lemma {:induction false} SumOfZeros(s: seq<nat>, n: nat)
    requires n <= |s| && forall i {:trigger s[i]} :: 0 <= i < |s| ==> s[i] == 0
    ensures Sum(s, n) == 0
  {
    if n > 0 {
      SumOfZeros(s, n - 1);
    }
  }

  lemma TenTimes(q: nat, mult: nat)
    ensures q * ((mult + 1) * 10) == 10 * (mult * q) + 10 * q
  {
  }

  lemma HoldsStill(before: Bucket, bucket: Bucket, q: nat, was: nat)
    requires q > 0 && HoldsUpTo(before, q, was) && bucket.expandMult == before.expandMult
    requires bucket.count <= before.count || bucket.count <= (bucket.expandMult + 1) * 10
    ensures HoldsUpTo(bucket, q, was)
  {
    MultAtMost(was, q);
    MoreTimes(q, bucket.count, before.count);
    MoreTimes(q, bucket.count, (bucket.expandMult + 1) * 10);
    TenTimes(q, bucket.expandMult);
  }

  /** Another bucket in the place of one, with fewer items, or no more than ten for its multiplier and one. */
  lemma BoundedOne(buckets: seq<Bucket>, q: nat, was: seq<nat>, b: nat, bucket: Bucket)
    requires Bounded(buckets, q, was) && b < |buckets| && bucket.expandMult == buckets[b].expandMult
    requires bucket.count <= buckets[b].count || bucket.count <= (bucket.expandMult + 1) * 10
    ensures Bounded(buckets[b := bucket], q, was)
  {
    assert HoldsUpTo(buckets[b], q, was[b]);
    HoldsStill(buckets[b], bucket, q, was[b]);
    forall d | 0 <= d < |buckets| ensures HoldsUpTo(buckets[b := bucket][d], q, was[d]) {
      assert HoldsUpTo(buckets[d], q, was[d]);
    }
  }

  /** The buckets after they were doubled. */
  lemma BoundedAgain(chains: seq<seq<Item>>, buckets: seq<Bucket>, q: nat, nonideal: nat) returns (was: seq<nat>)
    requires Counted(chains, buckets, |buckets|, q, nonideal) && 0 < q <= 20 && Total(chains) <= q * |buckets|
    requires forall b {:trigger BucketIs(buckets[b], chains[b])} ::
               0 <= b < |buckets| ==> BucketIs(buckets[b], chains[b])
    ensures Bounded(buckets, q, was)
  {
    was := seq(|buckets|, b requires 0 <= b < |buckets| => buckets[b].count);
    SumOfCounts(chains, buckets, was, |was|);
    forall b | 0 <= b < |buckets| ensures HoldsUpTo(buckets[b], q, was[b]) {
      assert MultIs(buckets[b], q);
      HoldsAgain(buckets[b], q);
    }
  }

  lemma HoldsAgain(bucket: Bucket, q: nat)
    requires q <= 20 && bucket.expandMult == Mult(bucket.count, q)
    ensures HoldsUpTo(bucket, q, bucket.count)
  {
    if bucket.count > 0 {
      MoreTimes(bucket.count, q, 20);
    }
  }

  lemma {:induction false} SumOfCounts(chains: seq<seq<Item>>, buckets: seq<Bucket>, was: seq<nat>, n: nat)
    requires n <= |was| == |buckets| == |chains|
    requires forall b {:trigger BucketIs(buckets[b], chains[b])} ::
               0 <= b < |buckets| ==> BucketIs(buckets[b], chains[b])
    requires forall b {:trigger was[b]} :: 0 <= b < |was| ==> was[b] == buckets[b].count
    ensures Sum(was, n) == Excess(chains, 0, n)
  {
    if n > 0 {
      SumOfCounts(chains, buckets, was, n - 1);
      assert BucketIs(buckets[n - 1], chains[n - 1]) && was[n - 1] == buckets[n - 1].count;
    }
  }

  /** The ideal length after n buckets were doubled, with at most thirty items for each of them, and one more. */
  lemma CeilAtMost(q: nat, items: nat, n: nat)
    requires n > 0 && 0 < items <= 30 * n + 1 && items <= q * (2 * n) && (q > 0 ==> (q - 1) * (2 * n) < items)
    ensures 0 < q <= 16
  {
    MoreTimes(2 * n, q - 1, 15);
    assert 2 * n * (q - 1) == (q - 1) * (2 * n);
  }
}
