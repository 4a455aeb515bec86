/** Byte order of encoded keys is the order of the values. */
module MemcmpOrder {
  import opened Bytes
  import opened Values
  import opened Memcmp
  import Float64

  ghost predicate OrderKept(x: seq<u8>, y: seq<u8>, less: bool) {
    Splits(x, y) && (Lt(x, y) <==> less)
  }

  lemma {:induction false} TaggedOrder(tag: u8, x: seq<u8>, y: seq<u8>, less: bool)
    requires OrderKept(x, y, less)
    ensures OrderKept([tag] + x, [tag] + y, less)
  {
    LtConcat([tag], [tag], x, y);
  }

  // ----- machine integers and floats -----

  lemma {:induction false} U64BytesOrder(u: u64, v: u64)
    ensures Lt(U64Bytes(u), U64Bytes(v)) <==> u < v
    ensures u != v ==> Splits(U64Bytes(u), U64Bytes(v))
  {
    PowWidths();
    BigEndianMonotone(8, u, v);
  }

  lemma {:induction false} U32BytesOrder(u: u32, v: u32)
    ensures Lt(U32Bytes(u), U32Bytes(v)) <==> u < v
    ensures u != v ==> Splits(U32Bytes(u), U32Bytes(v))
  {
    PowWidths();
    BigEndianMonotone(4, u, v);
  }

  lemma {:induction false} U16BytesOrder(u: u16, v: u16)
    ensures Lt(U16Bytes(u), U16Bytes(v)) <==> u < v
    ensures u != v ==> Splits(U16Bytes(u), U16Bytes(v))
  {
    PowWidths();
    BigEndianMonotone(2, u, v);
  }

  /** Flipping the sign bit turns signed order into unsigned order. */
  lemma {:induction false} OrderEncodeI64Monotone(i: i64, j: i64)
    ensures OrderEncodeI64(i) < OrderEncodeI64(j) <==> i < j
    ensures OrderDecodeI64(OrderEncodeI64(i)) == i
  {
  }

  /** The float transform realises the totalOrder of IEEE 754-2008 on all 2^64 bit patterns, and is undone exactly. */
  lemma {:induction false} OrderEncodeF64Monotone(x: u64, y: u64)
    ensures OrderEncodeF64(x) < OrderEncodeF64(y) <==> Float64.TotalLess(x, y)
    ensures OrderEncodeF64(x) == OrderEncodeF64(y) <==> x == y
    ensures OrderDecodeF64(OrderEncodeF64(x)) == x
  {
    Float64.TotalLessBySign(x, y);
  }

  // ----- numbers -----

  lemma {:induction false} FirstByte(x: seq<u8>, y: seq<u8>)
    requires x != [] && y != [] && x[0] != y[0]
    ensures OrderKept(x, y, x[0] < y[0])
  {
  }

  lemma {:induction false} IntSuffixOrder(i: i64, j: i64)
    requires Float64.FromInt(i) == Float64.FromInt(j) && i != j
    ensures OrderKept(NumSuffix(Int(i)), NumSuffix(Int(j)), i < j)
  {
    if i < j {
      Float64.FromIntMonotone(i, j);
    } else {
      Float64.FromIntMonotone(j, i);
    }
    OrderEncodeI64Monotone(i, j);
    OrderEncodeI64Monotone(j, i);
    var x, y := U64Bytes(OrderEncodeI64(i)), U64Bytes(OrderEncodeI64(j));
    U64BytesOrder(OrderEncodeI64(i), OrderEncodeI64(j));
    TaggedOrder(IS_APPROX_INT, x, y, i < j);
  }

  lemma {:induction false} SuffixOrder(a: Num, b: Num)
    requires AsFloat(a) == AsFloat(b) && a != b
    ensures OrderKept(NumSuffix(a), NumSuffix(b), NumLess(a, b))
  {
    if a.Int? && b.Int? {
      IntSuffixOrder(a.i, b.i);
    } else {
      assert !Float64.TotalLess(AsFloat(a), AsFloat(b)) by {
        Float64.TotalLessBySign(AsFloat(a), AsFloat(b));
      }
      FirstByte(NumSuffix(a), NumSuffix(b));
    }
  }

  /**
    * Numbers of both kinds, mixed: floats by totalOrder, integers exactly even where they convert to
    * one float, an integer just before its float.
    */
  lemma {:induction false} EncodeNumOrder(a: Num, b: Num)
    requires a != b
    ensures Splits(EncodeNum(a), EncodeNum(b))
    ensures Lt(EncodeNum(a), EncodeNum(b)) <==> NumLess(a, b)
  {
    var x, y := AsFloat(a), AsFloat(b);
    OrderEncodeF64Monotone(x, y);
    U64BytesOrder(OrderEncodeF64(x), OrderEncodeF64(y));
    LtConcat(U64Bytes(OrderEncodeF64(x)), U64Bytes(OrderEncodeF64(y)), NumSuffix(a), NumSuffix(b));
    if x == y {
      SuffixOrder(a, b);
    } else if a.Int? && b.Int? {
      IntFloatOrder(a.i, b.i);
    }
  }

  lemma {:induction false} IntFloatOrder(i: i64, j: i64)
    requires Float64.FromInt(i) != Float64.FromInt(j)
    ensures Float64.TotalLess(Float64.FromInt(i), Float64.FromInt(j)) <==> i < j
  {
    Float64.TotalLessBySign(Float64.FromInt(i), Float64.FromInt(j));
    Float64.TotalLessBySign(Float64.FromInt(j), Float64.FromInt(i));
    if i < j {
      Float64.FromIntMonotone(i, j);
    } else {
      Float64.FromIntMonotone(j, i);
    }
  }

  // ----- byte strings -----

  /** A group padded with zeros to width `w`, then `k` plus its true length. */
  function Padded(a: seq<u8>, w: nat, k: nat): (r: seq<u8>)
    requires |a| <= w && k + |a| <= 255
    ensures |r| == w + 1
  {
    a + Zeros(w - |a|) + [k + |a|]
  }

  lemma {:induction false} PaddedTail(a: seq<u8>, w: nat, k: nat)
    requires 0 < w && |a| <= w && k + |a| <= 255
    ensures a != [] ==> Padded(a, w, k)[0] == a[0] && Padded(a, w, k)[1..] == Padded(a[1..], w - 1, k + 1)
    ensures a == [] ==> Padded(a, w, k)[0] == 0 && Padded(a, w, k)[1..] == Padded(a, w - 1, k)
  {
    if a != [] {
      assert w - |a| == (w - 1) - |a[1..]|;
      assert Padded(a, w, k)[1..] == a[1..] + Zeros(w - |a|) + [k + |a|];
    } else {
      assert Padded(a, w, k) == Zeros(w) + [k];
    }
  }

  lemma {:induction false} PaddedOrder(a: seq<u8>, b: seq<u8>, w: nat, k: nat, l: nat)
    requires |a| <= w && |b| <= w && k + |a| <= 255 && l + |b| <= 255
    requires a != b
    requires k == l || (a == [] && k < l) || (b == [] && l < k)
    ensures Lt(Padded(a, w, k), Padded(b, w, l)) <==> Lt(a, b)
    ensures Splits(Padded(a, w, k), Padded(b, w, l))
    decreases w
  {
    hide Padded;
    PaddedTail(a, w, k);
    PaddedTail(b, w, l);
    SplitsOfLength(Padded(a, w, k), Padded(b, w, l));
    if a == [] {
      if b[0] == 0 {
        PaddedShort(b[1..], w - 1, l + 1, k);
      }
    } else if b == [] {
      if a[0] == 0 {
        PaddedShort(a[1..], w - 1, k + 1, l);
      }
    } else if a[0] == b[0] {
      assert a == [a[0]] + a[1..] && b == [b[0]] + b[1..];
      PaddedOrder(a[1..], b[1..], w - 1, k + 1, l + 1);
    }
  }

  /** An empty group is below any group whose length mark is higher. */
  lemma {:induction false} PaddedShort(b: seq<u8>, w: nat, l: nat, k: nat)
    requires |b| <= w && l + |b| <= 255 && k < l
    ensures Lt(Padded([], w, k), Padded(b, w, l))
    ensures !Lt(Padded(b, w, l), Padded([], w, k))
    ensures Padded([], w, k) != Padded(b, w, l)
    decreases w
  {
    if w == 0 {
      assert Padded([], w, k) == [k] && Padded(b, w, l) == [l + |b|];
    } else {
      PaddedTail([], w, k);
      PaddedTail(b, w, l);
      if b == [] {
        PaddedShort(b, w - 1, l, k);
      } else if b[0] == 0 {
        PaddedShort(b[1..], w - 1, l + 1, k);
      }
    }
    LtAsymmetric(Padded([], w, k), Padded(b, w, l));
  }

  function Head(a: seq<u8>): seq<u8> {
    if |a| >= 8 then a[..8] else a
  }

  function Rest(a: seq<u8>): seq<u8> {
    if |a| >= 8 then EncodeBytes(a[8..]) else []
  }

  lemma {:induction false} EncodeBytesShape(a: seq<u8>)
    ensures EncodeBytes(a) == Padded(Head(a), 8, 0xF7) + Rest(a)
  {
    if |a| >= 8 {
      assert Zeros(8 - |a[..8]|) == [];
      assert Padded(Head(a), 8, 0xF7) == a[..8] + [ENC_MARKER];
    } else {
      assert Rest(a) == [];
    }
  }

  lemma {:induction false} HeadOrder(a: seq<u8>, b: seq<u8>)
    requires Head(a) != Head(b)
    ensures Lt(a, b) <==> Lt(Head(a), Head(b))
  {
    var x, y := Head(a), Head(b);
    assert a == x + a[|x|..] && b == y + b[|y|..];
    if Splits(x, y) {
      LtSplit(x, y, a[|x|..], b[|y|..]);
    } else if x <= y {
      assert a == x;
      LtOfPrefix(x, y);
      LtOfPrefix(a, b);
    } else {
      assert b == y;
      LtOfPrefix(y, x);
      LtOfPrefix(b, a);
      LtAsymmetric(y, x);
      LtAsymmetric(b, a);
    }
  }

  /** Grouping keeps the order of arbitrary byte strings and makes them prefix-free. */
  lemma {:induction false} EncodeBytesOrder(a: seq<u8>, b: seq<u8>)
    requires a != b
    ensures Splits(EncodeBytes(a), EncodeBytes(b))
    ensures Lt(EncodeBytes(a), EncodeBytes(b)) <==> Lt(a, b)
    decreases |a|
  {
    EncodeBytesShape(a);
    EncodeBytesShape(b);
    var p, q := Padded(Head(a), 8, 0xF7), Padded(Head(b), 8, 0xF7);
    if Head(a) == Head(b) {
      assert |a| >= 8 && |b| >= 8;
      assert a == a[..8] + a[8..] && b == b[..8] + b[8..];
      EncodeBytesOrder(a[8..], b[8..]);
      LtSamePrefix(a[..8], a[8..], b[8..]);
      LtIrreflexive(p);
    } else {
      PaddedOrder(Head(a), Head(b), 8, 0xF7, 0xF7);
      HeadOrder(a, b);
    }
    LtConcat(p, q, Rest(a), Rest(b));
  }

  // ----- composite values -----

  lemma {:induction false} EncodeUuidOrder(a: Value, b: Value)
    requires a.Uuid? && b.Uuid? && WellFormed(a) && WellFormed(b) && a != b
    ensures Splits(EncodeUuid(a), EncodeUuid(b))
    ensures Lt(EncodeUuid(a), EncodeUuid(b)) <==> UuidLess(a, b)
  {
    U16BytesOrder(a.hi, b.hi);
    U16BytesOrder(a.mid, b.mid);
    U32BytesOrder(a.low, b.low);
    SplitsOfLength(a.rest, b.rest);
    var a1, b1 := U16Bytes(a.hi), U16Bytes(b.hi);
    var a2, b2 := a1 + U16Bytes(a.mid), b1 + U16Bytes(b.mid);
    var a3, b3 := a2 + U32Bytes(a.low), b2 + U32Bytes(b.low);
    LtConcat(a1, b1, U16Bytes(a.mid), U16Bytes(b.mid));
    LtConcat(a2, b2, U32Bytes(a.low), U32Bytes(b.low));
    LtConcat(a3, b3, a.rest, b.rest);
  }

  lemma {:induction false} EncodeValidityOrder(t: i64, a: bool, t': i64, a': bool)
    ensures Lt(EncodeValidity(t, a), EncodeValidity(t', a')) <==> ValidityLess(t, a, t', a')
    ensures (t, a) != (t', a') ==> Splits(EncodeValidity(t, a), EncodeValidity(t', a'))
    ensures EncodeValidity(t, a) == EncodeValidity(t', a') <==> (t, a) == (t', a')
  {
    var u, u' := Complement(OrderEncodeI64(t)), Complement(OrderEncodeI64(t'));
    OrderEncodeI64Monotone(t, t');
    OrderEncodeI64Monotone(t', t);
    U64BytesOrder(u, u');
    var f: seq<u8>, f': seq<u8> := [if a then 0 else 1], [if a' then 0 else 1];
    LtConcat([VLD_TAG], [VLD_TAG], U64Bytes(u), U64Bytes(u'));
    LtConcat([VLD_TAG] + U64Bytes(u), [VLD_TAG] + U64Bytes(u'), f, f');
    LtIrreflexive(f);
    SplitsOfLength(f, f');
    LtIrreflexive(EncodeValidity(t, a));
  }

  /** Values of different kinds are told apart by their first byte. */
  lemma {:induction false} TagOrder(v: Value, w: Value)
    requires WellFormed(v) && WellFormed(w) && VectorFree(v) && VectorFree(w)
    requires Rank(v) != Rank(w)
    ensures OrderKept(Encode(v), Encode(w), ValueLess(v, w))
  {
    TagOfRank(v);
    TagOfRank(w);
    FirstByte(Encode(v), Encode(w));
  }

  lemma {:induction false} TagOfRank(v: Value)
    requires WellFormed(v) && VectorFree(v)
    ensures var t := Encode(v)[0];
            match Rank(v)
            case 0 => t == 1
            case 1 => 2 <= t <= 3
            case 2 => t == 5
            case 3 => t == 6
            case 4 => t == 7
            case 5 => t == 8
            case 7 => t == 10
            case 8 => t == 11
            case 11 => t == 12
            case _ => t == 255
  {
  }

  /**
    * The order theorem: byte order of the encodings is the order of the values, and no encoding is a
    * prefix of another.
    */
  lemma {:induction false} EncodeOrder(v: Value, w: Value)
    requires WellFormed(v) && WellFormed(w) && VectorFree(v) && VectorFree(w)
    requires v != w
    ensures Splits(Encode(v), Encode(w))
    ensures Lt(Encode(v), Encode(w)) <==> ValueLess(v, w)
    decreases v, 1
  {
    if Rank(v) != Rank(w) {
      TagOrder(v, w);
    } else {
      match v {
        case Null =>
        case Bool(_) =>
        case Bot =>
        case Number(n) =>
          EncodeNumOrder(n, w.n);
          TaggedOrder(NUM_TAG, EncodeNum(n), EncodeNum(w.n), NumLess(n, w.n));
        case Str(s) =>
          EncodeBytesOrder(s, w.s);
          TaggedOrder(STR_TAG, EncodeBytes(s), EncodeBytes(w.s), Lt(s, w.s));
        case Blob(s) =>
          EncodeBytesOrder(s, w.bytes);
          TaggedOrder(BYTES_TAG, EncodeBytes(s), EncodeBytes(w.bytes), Lt(s, w.bytes));
        case Uuid(_, _, _, _) =>
          EncodeUuidOrder(v, w);
          TaggedOrder(UUID_TAG, EncodeUuid(v), EncodeUuid(w), UuidLess(v, w));
        case List(items) =>
          ItemsOrder(items, w.items);
          TerminatedTagged(LIST_TAG, items, w.items);
        case Set(elems) =>
          ItemsOrder(elems, w.elems);
          TerminatedTagged(SET_TAG, elems, w.elems);
        case Validity(t, a) =>
          EncodeValidityOrder(t, a, w.ts, w.isAssert);
      }
    }
  }

  function Terminated(a: seq<Value>): seq<u8>
    requires AllWellFormed(a)
  {
    EncodeItems(a) + [INIT_TAG]
  }

  lemma {:induction false} TerminatedTagged(tag: u8, a: seq<Value>, b: seq<Value>)
    requires AllWellFormed(a) && AllWellFormed(b)
    requires OrderKept(Terminated(a), Terminated(b), ItemsLess(a, b))
    ensures OrderKept([tag] + EncodeItems(a) + [INIT_TAG], [tag] + EncodeItems(b) + [INIT_TAG], ItemsLess(a, b))
  {
    TaggedOrder(tag, Terminated(a), Terminated(b), ItemsLess(a, b));
    assert [tag] + EncodeItems(a) + [INIT_TAG] == [tag] + Terminated(a);
    assert [tag] + EncodeItems(b) + [INIT_TAG] == [tag] + Terminated(b);
  }

  /** Nested sequences of any lengths: the zero terminator sorts below every tag. */
  lemma {:induction false} ItemsOrder(a: seq<Value>, b: seq<Value>)
    requires AllWellFormed(a) && AllWellFormed(b) && AllVectorFree(a) && AllVectorFree(b)
    requires a != b
    ensures OrderKept(Terminated(a), Terminated(b), ItemsLess(a, b))
    decreases a, 0
  {
    if a == [] {
      assert Terminated(a) == [INIT_TAG];
      assert Terminated(b)[0] == Encode(b[0])[0];
    } else if b == [] {
      assert Terminated(b) == [INIT_TAG];
      assert Terminated(a)[0] == Encode(a[0])[0];
    } else {
      var x, y := Encode(a[0]), Encode(b[0]);
      assert Terminated(a) == x + Terminated(a[1..]);
      assert Terminated(b) == y + Terminated(b[1..]);
      if a[0] == b[0] {
        assert a == [a[0]] + a[1..] && b == [b[0]] + b[1..];
        ItemsOrder(a[1..], b[1..]);
        LtIrreflexive(x);
      } else {
        EncodeOrder(a[0], b[0]);
      }
      LtConcat(x, y, Terminated(a[1..]), Terminated(b[1..]));
    }
  }
}
