/** Byte strings, their lexicographic order, and big-endian integers. */
module Bytes {
  type u8 = x: int | 0 <= x < 0x100
  type u16 = x: int | 0 <= x < 0x1_0000
  type u32 = x: int | 0 <= x < 0x1_0000_0000
  type u64 = x: int | 0 <= x < 0x1_0000_0000_0000_0000
  type i64 = x: int | -0x8000_0000_0000_0000 <= x < 0x8000_0000_0000_0000

  const I64_MIN: i64 := -0x8000_0000_0000_0000
  const I64_MAX: i64 := 0x7FFF_FFFF_FFFF_FFFF

  /** The order in which every storage backend keeps its keys. */
  predicate Lt(a: seq<u8>, b: seq<u8>) {
    if b == [] then false
    else if a == [] then true
    else if a[0] != b[0] then a[0] < b[0]
    else Lt(a[1..], b[1..])
  }

  predicate Le(a: seq<u8>, b: seq<u8>) {
    a == b || Lt(a, b)
  }

  /** Neither string is a prefix of the other. */
  predicate Splits(a: seq<u8>, b: seq<u8>) {
    !(a <= b) && !(b <= a)
  }

  lemma {:induction false} LtIrreflexive(a: seq<u8>)
    ensures !Lt(a, a)
  {
    if a != [] {
      LtIrreflexive(a[1..]);
    }
  }

  lemma {:induction false} LtTotal(a: seq<u8>, b: seq<u8>)
    ensures Lt(a, b) || a == b || Lt(b, a)
  {
    if a != [] && b != [] && a[0] == b[0] {
      LtTotal(a[1..], b[1..]);
      assert a == [a[0]] + a[1..] && b == [b[0]] + b[1..];
    }
  }

  lemma {:induction false} LtTransitive(a: seq<u8>, b: seq<u8>, c: seq<u8>)
    requires Lt(a, b) && Lt(b, c)
    ensures Lt(a, c)
  {
    if a != [] && a[0] == b[0] && b[0] == c[0] {
      LtTransitive(a[1..], b[1..], c[1..]);
    }
  }

  lemma {:induction false} LtAsymmetric(a: seq<u8>, b: seq<u8>)
    requires Lt(a, b)
    ensures !Lt(b, a) && a != b
  {
    LtIrreflexive(a);
    if Lt(b, a) {
      LtTransitive(a, b, a);
    }
  }

  lemma {:induction false} LeTransitive(a: seq<u8>, b: seq<u8>, c: seq<u8>)
    requires Le(a, b) && Le(b, c)
    ensures Le(a, c)
    ensures Lt(a, b) || Lt(b, c) ==> Lt(a, c)
  {
    if Lt(a, b) && Lt(b, c) {
      LtTransitive(a, b, c);
    }
  }

  /** `Le` is the complement of the reversed `Lt`. */
  lemma {:induction false} NotLt(a: seq<u8>, b: seq<u8>)
    ensures Le(a, b) <==> !Lt(b, a)
  {
    LtTotal(a, b);
    if Lt(a, b) {
      LtAsymmetric(a, b);
    } else if a == b {
      LtIrreflexive(a);
    }
  }

  lemma {:induction false} PrefixCancel(p: seq<u8>, x: seq<u8>, y: seq<u8>)
    ensures p + x <= p + y <==> x <= y
    ensures p + y <= p + x <==> y <= x
  {
    assert (p + x)[|p|..] == x && (p + y)[|p|..] == y;
  }

  lemma {:induction false} LtSamePrefix(p: seq<u8>, x: seq<u8>, y: seq<u8>)
    ensures Lt(p + x, p + y) <==> Lt(x, y)
  {
    if p == [] {
      assert p + x == x && p + y == y;
    } else {
      assert (p + x)[1..] == p[1..] + x && (p + y)[1..] == p[1..] + y;
      LtSamePrefix(p[1..], x, y);
    }
  }

  lemma {:induction false} LtOfPrefix(a: seq<u8>, b: seq<u8>)
    requires a <= b && a != b
    ensures Lt(a, b)
  {
    if a != [] {
      LtOfPrefix(a[1..], b[1..]);
    }
  }

  /** Once two strings have split, whatever follows them is irrelevant. */
  lemma {:induction false} LtSplit(a: seq<u8>, b: seq<u8>, x: seq<u8>, y: seq<u8>)
    requires Splits(a, b)
    ensures Lt(a + x, b + y) <==> Lt(a, b)
    ensures Splits(a + x, b + y)
  {
    assert a != [] && b != [];
    if a[0] == b[0] {
      assert a == [a[0]] + a[1..] && b == [b[0]] + b[1..];
      assert (a + x)[1..] == a[1..] + x && (b + y)[1..] == b[1..] + y;
      LtSplit(a[1..], b[1..], x, y);
      PrefixCancel([a[0]], a[1..] + x, b[1..] + y);
      assert a + x == [a[0]] + (a[1..] + x) && b + y == [b[0]] + (b[1..] + y);
    } else {
      assert (a + x)[0] != (b + y)[0];
    }
  }

  /** Order of two concatenations whose first parts are equal or split. */
  lemma {:induction false} LtConcat(a: seq<u8>, b: seq<u8>, x: seq<u8>, y: seq<u8>)
    requires a == b || Splits(a, b)
    ensures Lt(a + x, b + y) <==> Lt(a, b) || (a == b && Lt(x, y))
    ensures a == b && Splits(x, y) ==> Splits(a + x, b + y)
    ensures a != b ==> Splits(a + x, b + y)
  {
    if a == b {
      LtSamePrefix(a, x, y);
      LtIrreflexive(a);
      PrefixCancel(a, x, y);
    } else {
      LtSplit(a, b, x, y);
    }
  }

  lemma {:induction false} TakeDrop<T>(x: seq<T>, y: seq<T>)
    ensures (x + y)[..|x|] == x && (x + y)[|x|..] == y
  {
  }

  lemma {:induction false} Associate<T>(x: seq<T>, y: seq<T>, z: seq<T>)
    ensures x + y + z == x + (y + z)
  {
  }

  lemma {:induction false} SplitsOfLength(a: seq<u8>, b: seq<u8>)
    requires |a| == |b|
    ensures a == b || Splits(a, b)
  {
  }

  // ----- big-endian integers -----

  function Pow256(n: nat): (p: nat)
    ensures p >= 1
  {
    if n == 0 then 1 else 256 * Pow256(n - 1)
  }

  lemma {:induction false} PowWidths()
    ensures Pow256(1) == 0x100
    ensures Pow256(2) == 0x1_0000
    ensures Pow256(4) == 0x1_0000_0000
    ensures Pow256(8) == 0x1_0000_0000_0000_0000
  {
    assert Pow256(4) == 256 * (256 * (256 * (256 * Pow256(0))));
    assert Pow256(8) == 256 * (256 * (256 * (256 * Pow256(4))));
  }

  lemma {:induction false} MulMonotone(x: int, y: int, p: nat)
    ensures x <= y ==> x * p <= y * p
  {
  }

  function Div(n: nat, p: nat): nat
    requires p > 0
  {
    n / p
  }

  function Mod(n: nat, p: nat): (r: nat)
    requires p > 0
    ensures r < p
  {
    n % p
  }

  lemma {:induction false} DivBound(u: nat, p: nat, q: nat)
    requires p > 0 && u < q * p
    ensures Div(u, p) < q
    ensures u == Div(u, p) * p + Mod(u, p)
  {
    MulMonotone(q, Div(u, p), p);
  }

  /** The `n`-byte big-endian form of `u`. */
  function BigEndian(n: nat, u: nat): (r: seq<u8>)
    requires u < Pow256(n)
    ensures |r| == n
  {
    if n == 0 then []
    else
      var p := Pow256(n - 1);
      DivBound(u, p, 256);
      [Div(u, p)] + BigEndian(n - 1, Mod(u, p))
  }

  function FromBigEndian(s: seq<u8>): (u: nat)
    ensures u < Pow256(|s|)
  {
    if s == [] then 0
    else
      var p := Pow256(|s| - 1);
      MulMonotone(s[0], 255, p);
      s[0] * p + FromBigEndian(s[1..])
  }

  lemma {:induction false} QuotientOf(h: nat, p: nat, r: nat)
    requires r < p
    ensures Div(h * p + r, p) == h && Mod(h * p + r, p) == r
  {
    var u := h * p + r;
    var q := Div(u, p);
    assert u == q * p + Mod(u, p);
    MulMonotone(h + 1, q, p);
    MulMonotone(q, h - 1, p);
  }

  lemma {:induction false} BigEndianInverse(n: nat, u: nat)
    requires u < Pow256(n)
    ensures FromBigEndian(BigEndian(n, u)) == u
  {
    if n > 0 {
      var p := Pow256(n - 1);
      DivBound(u, p, 256);
      BigEndianInverse(n - 1, Mod(u, p));
      assert BigEndian(n, u)[1..] == BigEndian(n - 1, Mod(u, p));
    }
  }

  lemma {:induction false} LeadingDigit(h: nat, k: nat, p: nat, r: nat, q: nat)
    requires r < p && q < p
    ensures h < k ==> h * p + r < k * p + q
    ensures k < h ==> k * p + q < h * p + r
  {
    MulMonotone(h + 1, k, p);
    MulMonotone(k + 1, h, p);
  }

  /** Equal-length byte strings compare as the integers they spell. */
  lemma {:induction false} BigEndianOrder(a: seq<u8>, b: seq<u8>)
    requires |a| == |b|
    ensures Lt(a, b) <==> FromBigEndian(a) < FromBigEndian(b)
  {
    if a != [] {
      BigEndianOrder(a[1..], b[1..]);
      LeadingDigit(a[0], b[0], Pow256(|a| - 1), FromBigEndian(a[1..]), FromBigEndian(b[1..]));
    }
  }

  /** Writing an integer big-endian is strictly monotone and never makes one form a prefix of another. */
  lemma {:induction false} BigEndianMonotone(n: nat, u: nat, v: nat)
    requires u < Pow256(n) && v < Pow256(n)
    ensures Lt(BigEndian(n, u), BigEndian(n, v)) <==> u < v
    ensures u != v ==> Splits(BigEndian(n, u), BigEndian(n, v))
  {
    hide BigEndian, FromBigEndian, Pow256, Splits;
    BigEndianInverse(n, u);
    BigEndianInverse(n, v);
    BigEndianOrder(BigEndian(n, u), BigEndian(n, v));
    if u != v {
      SplitsOfLength(BigEndian(n, u), BigEndian(n, v));
    }
  }
}
