/** What the equality, ordering and string operators compute, by laws that relate them to each other and to the keys. */
module OperatorLaws {
  import opened Bytes
  import opened Float64
  import opened Values
  import opened Numbers
  import opened Memcmp
  import opened MemcmpDecode
  import opened Comparisons
  import opened Expressions
  import opened Bounds
  import C = Cypher

  /** The operator is true of the two operands. */
  predicate Says(op: Op, a: Value, b: Value) {
    RunOp(op, [a, b]) == Some(Bool(true))
  }

  predicate Exactly(x: bool, y: bool, z: bool) {
    (x && !y && !z) || (!x && y && !z) || (!x && !y && z)
  }

  /** An integer against a float. */
  predicate Mixed(a: Value, b: Value) {
    a.Number? && b.Number? && a.n.Int? != b.n.Int?
  }

  predicate HasNaN(a: Value, b: Value) {
    (a.Number? && a.n.Float? && IsNaN(a.n.bits)) || (b.Number? && b.n.Float? && IsNaN(b.n.bits))
  }

  lemma {:induction false} OpIs(a: Value, b: Value, r: Rel, same: bool)
    ensures RunOp(Equality(same), [a, b]) == Some(Bool(Equals(a, b) == same))
    ensures RunOp(Comparison(r), [a, b]) == if SameType(a, b) then Some(Bool(Holds(r, a, b))) else None
  {
  }

  /** Two values that are no mixed pair of numbers are equal exactly if they are stored as the same bytes. */
  lemma {:induction false} EqualStoredAlike(a: Value, b: Value)
    requires WellFormed(a) && WellFormed(b) && !Mixed(a, b)
    ensures Says(Equality(true), a, b) <==> Encode(a) == Encode(b)
  {
    hide Encode, Decode, WellFormed;
    OpIs(a, b, Below, true);
    if Encode(a) == Encode(b) {
      DecodeInverse(a, []);
      DecodeInverse(b, []);
    }
  }

  /** Equality never fails, has its complement in inequality, is symmetric, and keeps kinds apart. */
  lemma {:induction false} EqualityTotal(a: Value, b: Value)
    ensures RunOp(Equality(true), [a, b]).Some? && RunOp(Equality(false), [a, b]).Some?
    ensures Says(Equality(false), a, b) <==> !Says(Equality(true), a, b)
    ensures Says(Equality(true), a, b) <==> Says(Equality(true), b, a)
    ensures Rank(a) != Rank(b) ==> !Says(Equality(true), a, b)
  {
    hide Numeric, FromInt;
    OpIs(a, b, Below, true);
    OpIs(a, b, Below, false);
    OpIs(b, a, Below, true);
  }

  /** Of two comparable values exactly one is less, or they are equal; the weak orderings are what that makes them. */
  lemma {:induction false} Trichotomy(a: Value, b: Value)
    requires SameType(a, b) && KeyValue(a) && KeyValue(b) && !(Mixed(a, b) && HasNaN(a, b))
    ensures Exactly(Says(Comparison(Below), a, b), Says(Equality(true), a, b), Says(Comparison(Above), a, b))
    ensures Says(Comparison(AtMost), a, b) <==> Says(Comparison(Below), a, b) || Says(Equality(true), a, b)
    ensures Says(Comparison(AtLeast), a, b) <==> Says(Comparison(Above), a, b) || Says(Equality(true), a, b)
  {
    hide KeyValue, ValueLess, Numeric, FromInt, Equals, Holds, RunOp;
    OpIs(a, b, Below, true);
    OpIs(a, b, Above, true);
    OpIs(a, b, AtMost, true);
    OpIs(a, b, AtLeast, true);
    if Mixed(a, b) {
      MixedHolds(a.n, b.n);
    } else {
      HoldsByOrder(a, b);
      Distinct(a, b);
    }
  }

  /** Orders by value: a mixed pair as doubles, without a NaN. */
  lemma {:induction false} MixedHolds(a: Num, b: Num)
    requires a.Int? != b.Int?
    ensures var x, y := GetFloat(a), GetFloat(b);
            && (forall r: Rel :: Holds(r, Number(a), Number(b)) <==>
                  !IsNaN(x) && !IsNaN(y) && ByOrder(r, Numeric(x) < Numeric(y), Numeric(y) < Numeric(x)))
            && (Equals(Number(a), Number(b)) <==> !IsNaN(x) && !IsNaN(y) && Numeric(x) == Numeric(y))
    ensures IsNaN(GetFloat(a)) || IsNaN(GetFloat(b)) <==> HasNaN(Number(a), Number(b))
  {
    hide Numeric, FromInt;
    IntNotNaN(a);
    IntNotNaN(b);
  }

  lemma {:induction false} IntNotNaN(n: Num)
    ensures IsNaN(GetFloat(n)) <==> n.Float? && IsNaN(n.bits)
  {
  }

  lemma {:induction false} HoldsByOrder(a: Value, b: Value)
    requires !Mixed(a, b)
    ensures forall r: Rel :: Holds(r, a, b) <==> ByOrder(r, ValueLess(a, b), ValueLess(b, a))
    ensures Equals(a, b) <==> a == b
  {
  }

  lemma {:induction false} Distinct(a: Value, b: Value)
    requires KeyValue(a) && KeyValue(b)
    ensures Exactly(ValueLess(a, b), a == b, ValueLess(b, a))
  {
    hide Encode, ValueLess, KeyValue;
    KeyLess(a, b);
    KeyLess(b, a);
    if a == b {
      LtIrreflexive(Encode(a));
    } else {
      DistinctBytes(a, b);
      LtTotal(Encode(a), Encode(b));
      Asymmetric(a, b);
    }
  }

  lemma {:induction false} DistinctBytes(a: Value, b: Value)
    requires KeyValue(a) && KeyValue(b) && a != b
    ensures WellFormed(a) && WellFormed(b) && Encode(a) != Encode(b)
  {
    hide Encode, Decode;
    DecodeInverse(a, []);
    DecodeInverse(b, []);
  }

  /** A NaN in a mixed pair: nothing holds, and the values are unequal. */
  lemma {:induction false} NaNUnordered(a: Value, b: Value, r: Rel)
    requires Mixed(a, b) && HasNaN(a, b)
    ensures RunOp(Comparison(r), [a, b]) == Some(Bool(false)) && !Says(Equality(true), a, b)
  {
    hide Numeric, FromInt, Holds, Equals;
    OpIs(a, b, r, true);
    MixedHolds(a.n, b.n);
  }

  /** A mixed pair is equal exactly if the integer, as a double, has the float's value. */
  lemma {:induction false} MixedEqual(i: i64, bits: u64)
    ensures Says(Equality(true), Number(Int(i)), Number(Float(bits))) <==>
            !IsNaN(bits) && Numeric(FromInt(i)) == Numeric(bits)
  {
    hide Numeric, FromInt;
    OpIs(Number(Int(i)), Number(Float(bits)), Below, true);
  }

  /** The same of the tests of a WHERE: on comparable operands exactly one of `<`, `=`, `>` is TRUE. */
  lemma {:induction false} TestTrichotomy(a: Value, b: Value)
    requires SameType(a, b) && KeyValue(a) && KeyValue(b) && !(Mixed(a, b) && HasNaN(a, b)) && !a.Null?
    ensures var lt, eq := C.Outcome(C.Ordered(Below), a, b), C.Outcome(C.Equal, a, b);
            var gt, ne := C.Outcome(C.Ordered(Above), a, b), C.Outcome(C.NotEqual, a, b);
            && lt != C.Unknown && eq != C.Unknown && gt != C.Unknown && ne == C.Negation(eq)
            && Exactly(lt == C.True, eq == C.True, gt == C.True)
  {
    hide KeyValue, Equals, Holds, RunOp;
    Trichotomy(a, b);
    OpIs(a, b, Below, true);
    OpIs(a, b, Above, true);
  }

  // ----- strings -----

  /** The three string tests are the existence of a decomposition. */
  lemma {:induction false} TestBytesIs(l: seq<u8>, r: seq<u8>)
    ensures TestBytes(StartsWith, l, r) <==> exists y :: l == r + y
    ensures TestBytes(EndsWith, l, r) <==> exists x :: l == x + r
    ensures TestBytes(Contains, l, r) <==> exists x, y :: l == x + r + y
  {
    StartsIs(l, r);
    EndsIs(l, r);
    IncludesIs(l, r);
  }

  lemma {:induction false} StartsIs(l: seq<u8>, r: seq<u8>)
    ensures r <= l <==> exists y :: l == r + y
  {
    if r <= l {
      assert l == r + l[|r|..];
    }
  }

  lemma {:induction false} EndsIs(l: seq<u8>, r: seq<u8>)
    ensures TestBytes(EndsWith, l, r) <==> exists x :: l == x + r
  {
    if TestBytes(EndsWith, l, r) {
      assert l == l[..|l| - |r|] + r;
    }
    if x :| l == x + r {
      assert l[|x|..] == r;
    }
  }

  lemma {:induction false} IncludesIs(l: seq<u8>, r: seq<u8>)
    ensures Includes(l, r) <==> exists x, y :: l == x + r + y
  {
    if r <= l {
      assert l == [] + r + l[|r|..];
    } else if l != [] {
      IncludesIs(l[1..], r);
      if x, y :| l[1..] == x + r + y {
        assert l == ([l[0]] + x) + r + y;
      }
      if x, y :| l == x + r + y {
        NotAtFront(l, r, x, y);
        assert l[1..] == x[1..] + r + y;
      }
    }
  }

  lemma {:induction false} NotAtFront(l: seq<u8>, r: seq<u8>, x: seq<u8>, y: seq<u8>)
    requires l == x + r + y && !(r <= l)
    ensures x != []
  {
  }

  /** Strings with strings, bytes with bytes; anything else is an error, and so is looking for bytes inside bytes. */
  lemma {:induction false} StringTestIs(kind: StringKind, a: Value, b: Value)
    ensures RunOp(StringTest(kind), [a, b]).Some? <==> (a.Str? && b.Str?) || (a.Blob? && b.Blob? && !kind.Contains?)
    ensures a.Str? && b.Str? ==> (Says(StringTest(kind), a, b) <==> TestBytes(kind, a.s, b.s))
    ensures a.Blob? && b.Blob? && !kind.Contains? ==>
              (Says(StringTest(kind), a, b) <==> TestBytes(kind, a.bytes, b.bytes))
  {
    hide TestBytes;
  }

  // ----- kinds -----

  /** Which kinds can be compared at all; two values of different kinds never can. */
  lemma {:induction false} ComparableIff(a: Value, b: Value, r: Rel)
    ensures RunOp(Comparison(r), [a, b]).Some? <==>
            || (a.Null? && b.Null?) || (a.Bool? && b.Bool?) || (a.Number? && b.Number?) || (a.Str? && b.Str?)
            || (a.Blob? && b.Blob?) || (a.List? && b.List?) || (a.Set? && b.Set?) || (a.Bot? && b.Bot?)
  {
    hide Holds;
  }

  // ----- sets as they are read back -----

  lemma {:induction false} Through(a: Value, b: Value, c: Value)
    requires KeyValue(a) && KeyValue(b) && KeyValue(c) && ValueLess(a, b) && ValueLess(b, c)
    ensures ValueLess(a, c)
  {
    hide ValueLess, KeyValue, Encode;
    KeyLess(a, b);
    KeyLess(b, c);
    KeyLess(a, c);
    LtTransitive(Encode(a), Encode(b), Encode(c));
  }

  ghost predicate AllKeys(s: seq<Value>) {
    forall v | v in s :: KeyValue(v)
  }

  lemma {:induction false} ConsAscending(v: Value, s: seq<Value>)
    requires Ascending(s) && forall x | x in s :: ValueLess(v, x)
    ensures Ascending([v] + s)
  {
    hide ValueLess;
    forall i | 0 <= i < |s| ensures ValueLess(v, s[i]) {
      assert s[i] in s;
    }
  }

  lemma {:induction false} FirstLeast(s: seq<Value>, x: Value)
    requires s != [] && Ascending(s) && x in s[1..]
    ensures ValueLess(s[0], x)
  {
    hide ValueLess;
    var i :| 0 <= i < |s| - 1 && s[1..][i] == x;
    assert s[i + 1] == x;
  }

  /** Insertion keeps a set ascending and adds exactly the one element. */
  lemma {:induction false} InsertIsSet(s: seq<Value>, v: Value)
    requires Ascending(s) && AllKeys(s) && KeyValue(v)
    ensures Ascending(Insert(s, v)) && AllKeys(Insert(s, v)) && forall x :: x in Insert(s, v) <==> x in s || x == v
  {
    hide ValueLess, KeyValue;
    if s != [] {
      assert s == [s[0]] + s[1..] && s[0] in s;
      Distinct(s[0], v);
      TailAscending(s);
      if ValueLess(s[0], v) {
        InsertIsSet(s[1..], v);
        forall x | x in Insert(s[1..], v) ensures ValueLess(s[0], x) {
          if x != v {
            FirstLeast(s, x);
          }
        }
        ConsAscending(s[0], Insert(s[1..], v));
      } else if ValueLess(v, s[0]) {
        forall x | x in s ensures ValueLess(v, x) {
          if x != s[0] {
            FirstLeast(s, x);
            Through(v, s[0], x);
          }
        }
        ConsAscending(v, s);
      }
    }
  }

  lemma {:induction false} TailAscending(s: seq<Value>)
    requires s != [] && Ascending(s) && AllKeys(s)
    ensures Ascending(s[1..]) && AllKeys(s[1..])
  {
    hide ValueLess, KeyValue;
  }

  /** What is read as a set is ascending and holds exactly what was read, in whatever order it was stored. */
  lemma {:induction false} ReadIsSet(s: seq<Value>, vs: seq<Value>)
    requires Ascending(s) && AllKeys(s) && AllKeys(vs)
    ensures Ascending(InsertAll(s, vs)) && forall x :: x in InsertAll(s, vs) <==> x in s || x in vs
    decreases |vs|
  {
    hide ValueLess, KeyValue, Insert;
    if vs != [] {
      assert vs == [vs[0]] + vs[1..] && vs[0] in vs;
      InsertIsSet(s, vs[0]);
      ReadIsSet(Insert(s, vs[0]), vs[1..]);
    }
  }
}
