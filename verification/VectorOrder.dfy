/** Where vectors break the key order, and exactly when they do not. */
module VectorOrder {
  import opened Bytes
  import opened Values
  import opened Memcmp
  import opened MemcmpOrder
  import Float64

  /**
    * A vector's tag does not match its place in the value order: against any other value the bytes
    * agree with the order exactly when that value is a null, a boolean, a validity or the bottom.
    */
  lemma {:induction false} VectorTagOrder(v: Vector, w: Value)
    requires WellFormed(Vec(v)) && WellFormed(w) && !w.Vec?
    ensures (Lt(Encode(Vec(v)), Encode(w)) <==> ValueLess(Vec(v), w)) <==>
            (w.Null? || w.Bool? || w.Validity? || w.Bot?)
  {
    FirstByte(Encode(Vec(v)), Encode(w));
  }

  /** Two vectors of one shape also sort wrongly: -1.0 after 1.0. */
  lemma {:induction false} VectorElementsUnordered()
    ensures var minusOne, one := Vec(F64([0xBFF0_0000_0000_0000])), Vec(F64([0x3FF0_0000_0000_0000]));
            ValueLess(minusOne, one) && Lt(Encode(one), Encode(minusOne))
  {
    var x, y := F64([0xBFF0_0000_0000_0000]), F64([0x3FF0_0000_0000_0000]);
    assert VectorKeys(x) == [-0x3FF0_0000_0000_0000] && VectorKeys(y) == [0x3FF0_0000_0000_0000];
    U64BytesOrder(0x3FF0_0000_0000_0000, 0xBFF0_0000_0000_0000);
    var a, b := U64Bytes(0x3FF0_0000_0000_0000), U64Bytes(0xBFF0_0000_0000_0000);
    assert EncodeDoubles([0x3FF0_0000_0000_0000]) == a && EncodeDoubles([0xBFF0_0000_0000_0000]) == b;
    LtSamePrefix([VEC_TAG] + ([VEC_F64] + U64Bytes(1)), a, b);
    Associate([VEC_TAG], [VEC_F64] + U64Bytes(1), a);
    Associate([VEC_TAG], [VEC_F64] + U64Bytes(1), b);
  }

  // ----- two vectors -----

  function Elements(v: Vector): seq<nat> {
    match v
    case F32(xs) => seq(|xs|, i requires 0 <= i < |xs| => xs[i] as nat)
    case F64(ys) => seq(|ys|, i requires 0 <= i < |ys| => ys[i] as nat)
  }

  function SignMark(v: Vector): nat {
    if v.F32? then 0x8000_0000 else Float64.SIGN_MARK
  }

  function InfinityOf(v: Vector): nat {
    if v.F32? then 0x7F80_0000 else Float64.INFINITY
  }

  /** A pattern with its sign bit set that is not a NaN; minus zero is one. */
  predicate NegativeNumber(bits: nat, v: Vector) {
    SignMark(v) <= bits <= SignMark(v) + InfinityOf(v)
  }

  function KeyAt(v: Vector, k: nat): int
    requires k < |Elements(v)|
  {
    ElementKey(Elements(v)[k], SignMark(v), InfinityOf(v))
  }

  ghost predicate FirstDifference(a: seq<nat>, b: seq<nat>, k: nat) {
    |a| == |b| && k < |a| && (forall i | 0 <= i < k :: a[i] == b[i]) && a[k] != b[k]
  }

  lemma {:induction false} DoublesOrder(xs: seq<u64>, ys: seq<u64>, k: nat)
    requires |xs| == |ys| && k < |xs| && xs[..k] == ys[..k] && xs[k] != ys[k]
    ensures OrderKept(EncodeDoubles(xs), EncodeDoubles(ys), xs[k] < ys[k])
  {
    hide Lt, U64Bytes;
    U64BytesOrder(xs[0], ys[0]);
    LtConcat(U64Bytes(xs[0]), U64Bytes(ys[0]), EncodeDoubles(xs[1..]), EncodeDoubles(ys[1..]));
    if k > 0 {
      assert xs[0] == xs[..k][0] == ys[..k][0] == ys[0];
      assert xs[1..][..k - 1] == xs[..k][1..] && ys[1..][..k - 1] == ys[..k][1..];
      DoublesOrder(xs[1..], ys[1..], k - 1);
    }
  }

  lemma {:induction false} SinglesOrder(xs: seq<u32>, ys: seq<u32>, k: nat)
    requires |xs| == |ys| && k < |xs| && xs[..k] == ys[..k] && xs[k] != ys[k]
    ensures OrderKept(EncodeSingles(xs), EncodeSingles(ys), xs[k] < ys[k])
  {
    hide Lt, U32Bytes;
    U32BytesOrder(xs[0], ys[0]);
    LtConcat(U32Bytes(xs[0]), U32Bytes(ys[0]), EncodeSingles(xs[1..]), EncodeSingles(ys[1..]));
    if k > 0 {
      assert xs[0] == xs[..k][0] == ys[..k][0] == ys[0];
      assert xs[1..][..k - 1] == xs[..k][1..] && ys[1..][..k - 1] == ys[..k][1..];
      SinglesOrder(xs[1..], ys[1..], k - 1);
    }
  }

  /** Elements are stored as raw patterns: the bytes of two vectors compare as the first patterns that differ. */
  lemma {:induction false} StoredAsPatterns(v: Vector, w: Vector, k: nat)
    requires WellFormed(Vec(v)) && WellFormed(Vec(w)) && v.F32? == w.F32?
    requires FirstDifference(Elements(v), Elements(w), k)
    ensures OrderKept(Encode(Vec(v)), Encode(Vec(w)), Elements(v)[k] < Elements(w)[k])
  {
    hide Lt, U64Bytes;
    var a, b := Elements(v), Elements(w);
    var head := [if v.F32? then VEC_F32 else VEC_F64] + U64Bytes(|a|);
    var x, y := if v.F32? then EncodeSingles(v.singles) else EncodeDoubles(v.doubles),
                if w.F32? then EncodeSingles(w.singles) else EncodeDoubles(w.doubles);
    if v.F32? {
      assert forall i | 0 <= i < k :: v.singles[i] == a[i] == b[i] == w.singles[i];
      assert v.singles[..k] == w.singles[..k];
      SinglesOrder(v.singles, w.singles, k);
    } else {
      assert forall i | 0 <= i < k :: v.doubles[i] == a[i] == b[i] == w.doubles[i];
      assert v.doubles[..k] == w.doubles[..k];
      DoublesOrder(v.doubles, w.doubles, k);
    }
    LtSamePrefix(head, x, y);
    PrefixCancel(head, x, y);
    TaggedOrder(VEC_TAG, head + x, head + y, a[k] < b[k]);
  }

  lemma {:induction false} ElementsLessFrom(a: seq<int>, b: seq<int>, k: nat)
    requires |a| == |b| && k < |a| && a[..k] == b[..k]
    ensures ElementsLess(a, b) == if a[k] != b[k] then a[k] < b[k] else ElementsLess(a[k + 1..], b[k + 1..])
  {
    if k > 0 {
      assert a[0] == a[..k][0] == b[..k][0] == b[0];
      assert a[1..][..k - 1] == a[..k][1..] && b[1..][..k - 1] == b[..k][1..];
      ElementsLessFrom(a[1..], b[1..], k - 1);
      assert a[1..][k..] == a[k + 1..] && b[1..][k..] == b[k + 1..];
    }
  }

  /** The value order of two vectors of one shape, from their first differing pattern on. */
  lemma {:induction false} OrderFrom(v: Vector, w: Vector, k: nat)
    requires v.F32? == w.F32? && FirstDifference(Elements(v), Elements(w), k)
    ensures |VectorKeys(v)| == |VectorKeys(w)| == |Elements(v)|
    ensures ValueLess(Vec(v), Vec(w)) ==
            if KeyAt(v, k) != KeyAt(w, k) then KeyAt(v, k) < KeyAt(w, k)
            else ElementsLess(VectorKeys(v)[k + 1..], VectorKeys(w)[k + 1..])
  {
    hide ElementKey;
    var a, b := Elements(v), Elements(w);
    var x, y := VectorKeys(v), VectorKeys(w);
    assert forall i | 0 <= i < |a| :: x[i] == KeyAt(v, i) && y[i] == KeyAt(w, i);
    assert forall i | 0 <= i < k :: a[i] == b[i] && x[i] == y[i];
    assert x[..k] == y[..k];
    ElementsLessFrom(x, y, k);
  }

  /**
    * Two vectors of one kind and length, at the first elements whose patterns differ. If these are different numbers,
    * the bytes agree with the value order exactly when the larger pattern is not a negative number. If they are the
    * same to the value order, both zeros or both NaN, the bytes are decided and the value order is not: they agree
    * exactly when the remaining elements happen to be ordered the same way.
    */
  lemma {:induction false} VectorOrderIff(v: Vector, w: Vector, k: nat)
    requires WellFormed(Vec(v)) && WellFormed(Vec(w)) && v.F32? == w.F32?
    requires FirstDifference(Elements(v), Elements(w), k)
    ensures |VectorKeys(v)| == |VectorKeys(w)| == |Elements(v)|
    ensures var x, y := Elements(v)[k], Elements(w)[k];
            (Lt(Encode(Vec(v)), Encode(Vec(w))) <==> ValueLess(Vec(v), Vec(w))) <==>
            if KeyAt(v, k) != KeyAt(w, k) then !NegativeNumber(if x < y then y else x, v)
            else x < y <==> ElementsLess(VectorKeys(v)[k + 1..], VectorKeys(w)[k + 1..])
  {
    hide Lt, Encode, ValueLess, ElementsLess, VectorKeys;
    StoredAsPatterns(v, w, k);
    OrderFrom(v, w, k);
    assert forall i | 0 <= i < |Elements(v)| :: Elements(v)[i] < 2 * SignMark(v);
  }

  /** Vectors of different kinds or lengths are stored in the value order. */
  lemma {:induction false} VectorShapeOrder(v: Vector, w: Vector)
    requires WellFormed(Vec(v)) && WellFormed(Vec(w))
    requires v.F32? != w.F32? || |Elements(v)| != |Elements(w)|
    ensures OrderKept(Encode(Vec(v)), Encode(Vec(w)), ValueLess(Vec(v), Vec(w)))
  {
    hide Lt, U64Bytes;
    var m, n := |Elements(v)|, |Elements(w)|;
    var a, b := if v.F32? then VEC_F32 else VEC_F64, if w.F32? then VEC_F32 else VEC_F64;
    var x, y := if v.F32? then EncodeSingles(v.singles) else EncodeDoubles(v.doubles),
                if w.F32? then EncodeSingles(w.singles) else EncodeDoubles(w.doubles);
    U64BytesOrder(m, n);
    OneByteOrder(a, b);
    LtConcat([a], [b], U64Bytes(m), U64Bytes(n));
    LtConcat([a] + U64Bytes(m), [b] + U64Bytes(n), x, y);
    TaggedOrder(VEC_TAG, [a] + U64Bytes(m) + x, [b] + U64Bytes(n) + y, if a != b then a < b else m < n);
  }

  lemma {:induction false} OneByteOrder(a: u8, b: u8)
    ensures Lt([a], [b]) <==> a < b
    ensures a != b ==> Splits([a], [b])
  {
  }

  /** Vectors whose elements are all non-negative numbers are stored in the value order. */
  lemma {:induction false} NonNegativeOrder(v: Vector, w: Vector)
    requires WellFormed(Vec(v)) && WellFormed(Vec(w)) && v != w
    requires forall x | x in Elements(v) :: x <= InfinityOf(v)
    requires forall x | x in Elements(w) :: x <= InfinityOf(w)
    ensures OrderKept(Encode(Vec(v)), Encode(Vec(w)), ValueLess(Vec(v), Vec(w)))
  {
    hide Lt, Encode, ValueLess, ElementsLess, VectorKeys;
    if v.F32? == w.F32? && |Elements(v)| == |Elements(w)| {
      var k := DifferenceOf(v, w);
      StoredAsPatterns(v, w, k);
      VectorOrderIff(v, w, k);
      assert Elements(v)[k] in Elements(v) && Elements(w)[k] in Elements(w);
    } else {
      VectorShapeOrder(v, w);
    }
  }

  lemma {:induction false} DifferenceOf(v: Vector, w: Vector) returns (k: nat)
    requires v != w && v.F32? == w.F32? && |Elements(v)| == |Elements(w)|
    ensures FirstDifference(Elements(v), Elements(w), k)
  {
    var a, b := Elements(v), Elements(w);
    k := 0;
    while k < |a| && a[k] == b[k]
      invariant k <= |a| && forall i | 0 <= i < k :: a[i] == b[i]
    {
      k := k + 1;
    }
    if k == |a| {
      assert a == b;
      SameElements(v, w);
    }
  }

  lemma {:induction false} SameElements(v: Vector, w: Vector)
    requires v.F32? == w.F32? && Elements(v) == Elements(w)
    ensures v == w
  {
    var a, b := Elements(v), Elements(w);
    if v.F32? {
      assert forall i | 0 <= i < |a| :: v.singles[i] == a[i] == b[i] == w.singles[i];
      assert v.singles == w.singles;
    } else {
      assert forall i | 0 <= i < |a| :: v.doubles[i] == a[i] == b[i] == w.doubles[i];
      assert v.doubles == w.doubles;
    }
  }
}
