/** Keys of tuples: order, prefix-freedom, contiguity. */
module Tuples {
  import opened Bytes
  import opened Values
  import opened Memcmp
  import opened MemcmpOrder

  ghost predicate KeyTuple(t: Tuple) {
    AllWellFormed(t) && AllVectorFree(t)
  }

  /** Tuples of one arity: without any terminator, distinct tuples split and keep their order. */
  lemma {:induction false} TupleOrder(a: Tuple, b: Tuple)
    requires KeyTuple(a) && KeyTuple(b) && |a| == |b| && a != b
    ensures OrderKept(EncodeItems(a), EncodeItems(b), ItemsLess(a, b))
  {
    var x, y := Encode(a[0]), Encode(b[0]);
    if a[0] == b[0] {
      assert a == [a[0]] + a[1..] && b == [b[0]] + b[1..];
      TupleOrder(a[1..], b[1..]);
      LtIrreflexive(x);
    } else {
      EncodeOrder(a[0], b[0]);
    }
    LtConcat(x, y, EncodeItems(a[1..]), EncodeItems(b[1..]));
  }

  /** Storage order of one relation's keys is tuple order. */
  lemma {:induction false} KeyOrder(rel: u64, a: Tuple, b: Tuple)
    requires KeyTuple(a) && KeyTuple(b) && |a| == |b| && a != b
    ensures OrderKept(EncodeKey(rel, a), EncodeKey(rel, b), ItemsLess(a, b))
  {
    TupleOrder(a, b);
    LtIrreflexive(U64Bytes(rel));
    LtConcat(U64Bytes(rel), U64Bytes(rel), EncodeItems(a), EncodeItems(b));
  }

  lemma {:induction false} EncodeItemsConcat(a: Tuple, b: Tuple)
    requires AllWellFormed(a) && AllWellFormed(b)
    ensures AllWellFormed(a + b)
    ensures EncodeItems(a + b) == EncodeItems(a) + EncodeItems(b)
  {
    if a == [] {
      assert a + b == b;
      assert EncodeItems(a) + EncodeItems(b) == EncodeItems(b);
    } else {
      assert (a + b)[0] == a[0] && (a + b)[1..] == a[1..] + b;
      EncodeItemsConcat(a[1..], b);
      Associate(Encode(a[0]), EncodeItems(a[1..]), EncodeItems(b));
    }
  }

  lemma {:induction false} KeyConcat(rel: u64, k: Tuple, t: Tuple)
    requires AllWellFormed(k) && AllWellFormed(t)
    ensures AllWellFormed(k + t)
    ensures EncodeKey(rel, k + t) == EncodeKey(rel, k) + EncodeItems(t)
  {
    EncodeItemsConcat(k, t);
    Associate(U64Bytes(rel), EncodeItems(k), EncodeItems(t));
  }

  lemma {:induction false} SingleItem(x: Value)
    requires WellFormed(x)
    ensures AllWellFormed([x]) && EncodeItems([x]) == Encode(x)
  {
    var s := [x];
    assert s[1..] == [];
    assert AllWellFormed(s[1..]);
    assert Encode(x) + [] == Encode(x);
  }

  lemma {:induction false} PairItems(x: Value, y: Value)
    requires WellFormed(x) && WellFormed(y)
    ensures AllWellFormed([x, y]) && EncodeItems([x, y]) == Encode(x) + Encode(y)
  {
    SingleItem(y);
    var s := [x, y];
    assert s[1..] == [y];
  }

  lemma {:induction false} KeyTupleSplit(k: Tuple, n: nat)
    requires KeyTuple(k) && n <= |k|
    ensures KeyTuple(k[..n]) && KeyTuple(k[n..])
  {
    hide WellFormed, VectorFree;
    if n == 0 {
      assert k[..n] == [] && k[n..] == k;
    } else {
      KeyTupleSplit(k[1..], n - 1);
      var head := k[..n];
      assert head[0] == k[0] && head[1..] == k[1..][..n - 1] && k[1..][n - 1..] == k[n..];
    }
  }

  /** A range opened at an encoded key prefix starts no later than any plain key in it. */
  lemma {:induction false} PrefixBelow(rel: u64, p: Tuple, k: Tuple, tail: seq<u8>)
    requires KeyTuple(p) && KeyTuple(k) && |p| <= |k|
    requires Le(EncodeKey(rel, p), EncodeKey(rel, k) + tail)
    ensures Le(EncodeKey(rel, p), EncodeKey(rel, k))
  {
    var q, r := k[..|p|], k[|p|..];
    assert k == q + r;
    KeyTupleSplit(k, |p|);
    KeyConcat(rel, q, r);
    var a, b, rest := EncodeKey(rel, p), EncodeKey(rel, q), EncodeItems(r);
    Associate(b, rest, tail);
    assert a + [] == a;
    if p == q {
      if rest != [] {
        LtOfPrefix(a, EncodeKey(rel, k));
      }
    } else {
      KeyOrder(rel, p, q);
      LtConcat(a, b, [], rest + tail);
      LtConcat(a, b, [], rest);
    }
  }

  /** All rows of one plain key lie next to each other: nothing sorted between two of them has another key. */
  lemma {:induction false} RowsOfKeyContiguous(rel: u64, k: Tuple, k': Tuple, x: Tuple, y: Tuple, z: Tuple)
    requires KeyTuple(k) && KeyTuple(k') && |k| == |k'|
    requires AllWellFormed(x) && AllWellFormed(y) && AllWellFormed(z)
    requires AllWellFormed(k + x) && AllWellFormed(k' + y) && AllWellFormed(k + z)
    requires Lt(EncodeKey(rel, k + x), EncodeKey(rel, k' + y))
    requires Lt(EncodeKey(rel, k' + y), EncodeKey(rel, k + z))
    ensures k == k'
  {
    KeyConcat(rel, k, x);
    KeyConcat(rel, k', y);
    KeyConcat(rel, k, z);
    if k != k' {
      KeyOrder(rel, k, k');
      var p, p' := EncodeKey(rel, k), EncodeKey(rel, k');
      LtSplit(p, p', EncodeItems(x), EncodeItems(y));
      LtSplit(p', p, EncodeItems(y), EncodeItems(z));
      LtTransitive(p, p', p);
      LtIrreflexive(p);
      assert false;
    }
  }
}
