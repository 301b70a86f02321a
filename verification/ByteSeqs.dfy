/** Bytes, and byte sequences held as a list of parts. */
module ByteSeqs {
  type Byte = x: int | 0 <= x < 256

  /** The bytes of the first n parts, in order. */
  ghost function FlatTo(parts: seq<seq<Byte>>, n: nat): (r: seq<Byte>)
    requires n <= |parts|
  {
    if n == 0 then [] else FlatTo(parts, n - 1) + parts[n - 1]
  }

  /** The bytes of all parts, in order. */
  ghost function Flat(parts: seq<seq<Byte>>): (r: seq<Byte>) {
    FlatTo(parts, |parts|)
  }

  /** FlatTo looks at the first n parts only. */
  lemma {:induction false} FlatToSame(a: seq<seq<Byte>>, b: seq<seq<Byte>>, n: nat)
    requires n <= |a| && n <= |b|
    requires forall i :: 0 <= i < n ==> a[i] == b[i]
    ensures FlatTo(a, n) == FlatTo(b, n)
  {
    if n > 0 {
      FlatToSame(a, b, n - 1);
    }
  }

  lemma {:induction false} FlatToConcat(a: seq<seq<Byte>>, b: seq<seq<Byte>>, n: nat)
    requires n <= |b|
    ensures FlatTo(a + b, |a| + n) == Flat(a) + FlatTo(b, n)
  {
    if n == 0 {
      FlatToSame(a + b, a, |a|);
    } else {
      FlatToConcat(a, b, n - 1);
      assert (a + b)[|a| + n - 1] == b[n - 1];
    }
  }

  lemma FlatConcat(a: seq<seq<Byte>>, b: seq<seq<Byte>>)
    ensures Flat(a + b) == Flat(a) + Flat(b)
  {
    FlatToConcat(a, b, |b|);
  }

  lemma FlatSplit(parts: seq<seq<Byte>>, i: nat)
    requires i <= |parts|
    ensures Flat(parts) == Flat(parts[..i]) + Flat(parts[i..])
    ensures Flat(parts[..i]) == FlatTo(parts, i)
  {
    FlatConcat(parts[..i], parts[i..]);
    assert parts[..i] + parts[i..] == parts;
    FlatToSame(parts[..i], parts, i);
  }

  lemma FlatOne(x: seq<Byte>)
    ensures Flat([x]) == x
  {
    assert FlatTo([x], 1) == FlatTo([x], 0) + x;
  }

  lemma FlatSnoc(parts: seq<seq<Byte>>, x: seq<Byte>)
    ensures Flat(parts + [x]) == Flat(parts) + x
  {
    FlatConcat(parts, [x]);
    FlatOne(x);
  }

  lemma FlatCons(x: seq<Byte>, parts: seq<seq<Byte>>)
    ensures Flat([x] + parts) == x + Flat(parts)
  {
    FlatConcat([x], parts);
    FlatOne(x);
  }

  lemma FlatTake(parts: seq<seq<Byte>>, i: nat)
    requires i < |parts|
    ensures Flat(parts[..i + 1]) == Flat(parts[..i]) + parts[i]
  {
    assert parts[..i + 1] == parts[..i] + [parts[i]];
    FlatSnoc(parts[..i], parts[i]);
  }

  /** A list of parts seen around its part number i. */
  lemma FlatAt(parts: seq<seq<Byte>>, i: nat)
    requires i < |parts|
    ensures Flat(parts) == Flat(parts[..i]) + parts[i] + Flat(parts[i + 1..])
  {
    FlatSplit(parts, i + 1);
    FlatTake(parts, i);
  }

  /** Changing one part changes only the bytes of that part. */
  lemma FlatUpdate(parts: seq<seq<Byte>>, i: nat, x: seq<Byte>)
    requires i < |parts|
    ensures Flat(parts[i := x]) == Flat(parts[..i]) + x + Flat(parts[i + 1..])
  {
    var other := parts[i := x];
    FlatAt(other, i);
    assert other[..i] == parts[..i];
    assert other[i + 1..] == parts[i + 1..];
  }

  lemma {:induction false} FlatToEmpty(parts: seq<seq<Byte>>, n: nat)
    requires n <= |parts| && forall i :: 0 <= i < n ==> |parts[i]| == 0
    ensures FlatTo(parts, n) == []
  {
    if n > 0 {
      FlatToEmpty(parts, n - 1);
    }
  }

  lemma FlatEmpty(parts: seq<seq<Byte>>)
    requires forall i :: 0 <= i < |parts| ==> |parts[i]| == 0
    ensures Flat(parts) == []
  {
    FlatToEmpty(parts, |parts|);
  }
}
