/** The exact-integer sum of products behind factorised counts. */
module SumProd {
  import opened Bytes
  import opened Values
  import opened Numbers

  predicate Fits(n: int) {
    I64_MIN <= n <= I64_MAX
  }

  // ----- the aggregate, checked at every step -----

  function MulAll(p: i64, vs: seq<Value>): Option<i64>
    decreases |vs|
  {
    if vs == [] then Some(p)
    else
      match GetInt(vs[0])
      case None => None
      case Some(n) => if Fits(p * n) then MulAll(p * n, vs[1..]) else None
  }

  function Added(sum: i64, row: Value): Option<i64> {
    match row
    case List(vs) =>
      (match MulAll(1, vs)
       case None => None
       case Some(p) => if Fits(sum + p) then Some(sum + p) else None)
    case _ => None
  }

  function AddAll(sum: i64, rows: seq<Value>): Option<i64>
    decreases |rows|
  {
    if rows == [] then Some(sum)
    else match Added(sum, rows[0]) case None => None case Some(s) => AddAll(s, rows[1..])
  }

  class AggrIntSumProd {
    var sum: i64

    constructor ()
      ensures sum == 0
    {
      sum := 0;
    }

    method Set(value: Value) returns (ok: bool)
      modifies this
      ensures ok == Added(old(sum), value).Some?
      ensures sum == if ok then Added(old(sum), value).value else old(sum)
    {
      if !value.List? {
        return false;
      }
      var items := value.items;
      var product: i64 := 1;
      for i := 0 to |items|
        invariant MulAll(1, items) == MulAll(product, items[i..])
      {
        var n := GetInt(items[i]);
        if n.None? || !Fits(product * n.value) {
          return false;
        }
        product := product * n.value;
      }
      if !Fits(sum + product) {
        return false;
      }
      sum := sum + product;
      return true;
    }
  }

  /** One aggregation run over a group's rows. */
  method SumOfProducts(rows: seq<Value>) returns (r: Option<i64>)
    ensures r == AddAll(0, rows)
  {
    var aggr := new AggrIntSumProd();
    for i := 0 to |rows|
      invariant fresh(aggr) && AddAll(0, rows) == AddAll(aggr.sum, rows[i..])
    {
      var ok := aggr.Set(rows[i]);
      if !ok {
        return None;
      }
    }
    return Some(aggr.sum);
  }

  // ----- what it computes -----

  /** A row is a list of integers. */
  predicate IntegerRow(row: Value) {
    row.List? && forall i | 0 <= i < |row.items| :: GetInt(row.items[i]).Some?
  }

  predicate PositiveRow(row: Value) {
    IntegerRow(row) && forall i | 0 <= i < |row.items| :: GetInt(row.items[i]).value >= 1
  }

  predicate IntegerRows(rows: seq<Value>) {
    rows == [] || (IntegerRow(rows[0]) && IntegerRows(rows[1..]))
  }

  predicate PositiveRows(rows: seq<Value>)
    ensures PositiveRows(rows) ==> IntegerRows(rows)
  {
    rows == [] || (PositiveRow(rows[0]) && PositiveRows(rows[1..]))
  }

  function ProductOf(vs: seq<Value>): int
    requires forall i | 0 <= i < |vs| :: GetInt(vs[i]).Some?
  {
    if vs == [] then 1 else GetInt(vs[0]).value * ProductOf(vs[1..])
  }

  function Total(rows: seq<Value>): int
    requires IntegerRows(rows)
  {
    if rows == [] then 0 else ProductOf(rows[0].items) + Total(rows[1..])
  }

  lemma {:induction false} ProductPositive(vs: seq<Value>)
    requires forall i | 0 <= i < |vs| :: GetInt(vs[i]).Some? && GetInt(vs[i]).value >= 1
    ensures ProductOf(vs) >= 1
  {
    if vs != [] {
      ProductPositive(vs[1..]);
    }
  }

  lemma {:induction false} TotalPositive(rows: seq<Value>)
    requires PositiveRows(rows)
    ensures Total(rows) >= |rows|
  {
    if rows != [] {
      ProductPositive(rows[0].items);
      TotalPositive(rows[1..]);
    }
  }

  lemma {:induction false} Reassociate(p: int, n: int, q: int)
    ensures (p * n) * q == p * (n * q)
  {
  }

  lemma {:induction false} GrowsBy(p: int, q: int)
    requires p >= 1 && q >= 1
    ensures p * q >= p && p * q >= q
  {
  }

  /** Factors of at least 1: no partial product exceeds the whole. */
  lemma {:induction false} MulAllExact(p: i64, vs: seq<Value>)
    requires p >= 1 && forall i | 0 <= i < |vs| :: GetInt(vs[i]).Some? && GetInt(vs[i]).value >= 1
    decreases |vs|
    ensures MulAll(p, vs) == if Fits(p * ProductOf(vs)) then Some(p * ProductOf(vs)) else None
  {
    if vs != [] {
      var n, rest := GetInt(vs[0]).value, ProductOf(vs[1..]);
      Reassociate(p, n, rest);
      ProductPositive(vs[1..]);
      GrowsBy(p, n);
      GrowsBy(p * n, rest);
      if Fits(p * n) {
        MulAllExact(p * n, vs[1..]);
      }
    }
  }

  lemma {:induction false} AddAllExact(sum: i64, rows: seq<Value>)
    requires sum >= 0 && PositiveRows(rows)
    decreases |rows|
    ensures AddAll(sum, rows) == if Fits(sum + Total(rows)) then Some(sum + Total(rows)) else None
  {
    if rows != [] {
      MulAllExact(1, rows[0].items);
      ProductPositive(rows[0].items);
      TotalPositive(rows[1..]);
      if Fits(sum + ProductOf(rows[0].items)) {
        AddAllExact(sum + ProductOf(rows[0].items), rows[1..]);
      }
    }
  }

  /** The count is exact, and an error means the true count does not fit in 64 bits. */
  lemma {:induction false} SumProdExact(rows: seq<Value>)
    requires PositiveRows(rows)
    ensures AddAll(0, rows) == if Fits(Total(rows)) then Some(Total(rows)) else None
  {
    AddAllExact(0, rows);
  }

  // ----- any integers -----

  /** Every partial product fits. */
  ghost predicate ProductsFit(vs: seq<Value>)
    requires forall i | 0 <= i < |vs| :: GetInt(vs[i]).Some?
  {
    forall k | 0 <= k <= |vs| :: Fits(ProductOf(vs[..k]))
  }

  lemma {:induction false} ProductSnoc(vs: seq<Value>, k: nat)
    requires k < |vs| && forall i | 0 <= i < |vs| :: GetInt(vs[i]).Some?
    ensures ProductOf(vs[..k + 1]) == ProductOf(vs[..k]) * GetInt(vs[k]).value
  {
    var a, b := vs[..k], vs[..k + 1];
    if k > 0 {
      ProductSnoc(vs[1..], k - 1);
      assert a[1..] == vs[1..][..k - 1] && b[1..] == vs[1..][..k];
      Reassociate(GetInt(vs[0]).value, ProductOf(a[1..]), GetInt(vs[k]).value);
    } else {
      assert b[1..] == [] && a == [];
    }
  }

  lemma {:induction false} MulAllPrefix(vs: seq<Value>, k: nat)
    requires k <= |vs| && forall i | 0 <= i < |vs| :: GetInt(vs[i]).Some?
    requires forall j | 0 <= j <= k :: Fits(ProductOf(vs[..j]))
    ensures Fits(ProductOf(vs[..k])) && MulAll(1, vs) == MulAll(ProductOf(vs[..k]), vs[k..])
  {
    if k == 0 {
      assert vs[..0] == [] && vs[0..] == vs;
    } else {
      MulAllPrefix(vs, k - 1);
      ProductSnoc(vs, k - 1);
      assert vs[k - 1..][1..] == vs[k..];
    }
  }

  lemma {:induction false} FirstOverflow(vs: seq<Value>, k: nat) returns (j: nat)
    requires k <= |vs| && forall i | 0 <= i < |vs| :: GetInt(vs[i]).Some?
    requires !Fits(ProductOf(vs[..k]))
    ensures 0 < j <= k && !Fits(ProductOf(vs[..j])) && forall i | 0 <= i < j :: Fits(ProductOf(vs[..i]))
  {
    assert vs[..0] == [];
    if i :| 0 <= i < k && !Fits(ProductOf(vs[..i])) {
      j := FirstOverflow(vs, i);
    } else {
      j := k;
    }
  }

  /** With arbitrary integers a row is accepted exactly when every partial product fits, and is then exact. */
  lemma {:induction false} RowExactIff(vs: seq<Value>)
    requires forall i | 0 <= i < |vs| :: GetInt(vs[i]).Some?
    ensures MulAll(1, vs) == if ProductsFit(vs) then Some(ProductOf(vs)) else None
  {
    if ProductsFit(vs) {
      MulAllPrefix(vs, |vs|);
      assert vs[..|vs|] == vs;
    } else {
      var k :| 0 <= k <= |vs| && !Fits(ProductOf(vs[..k]));
      var j := FirstOverflow(vs, k);
      MulAllPrefix(vs, j - 1);
      ProductSnoc(vs, j - 1);
    }
  }

  /** Every row's partial products fit, and so does every partial sum. */
  ghost predicate PartialsFit(sum: int, rows: seq<Value>)
    requires IntegerRows(rows)
    decreases |rows|
  {
    rows == [] ||
    (var next := sum + ProductOf(rows[0].items);
     ProductsFit(rows[0].items) && Fits(next) && PartialsFit(next, rows[1..]))
  }

  /** With arbitrary integers a run succeeds exactly when all its partial results fit, and is then exact. */
  lemma {:induction false} RunExactIff(sum: i64, rows: seq<Value>)
    requires IntegerRows(rows)
    decreases |rows|
    ensures AddAll(sum, rows) == if PartialsFit(sum, rows) then Some(sum + Total(rows)) else None
  {
    if rows != [] {
      RowExactIff(rows[0].items);
      if ProductsFit(rows[0].items) && Fits(sum + ProductOf(rows[0].items)) {
        RunExactIff(sum + ProductOf(rows[0].items), rows[1..]);
      }
    }
  }

  /** A zero factor after an overflow: the product is 0 and the row is refused. */
  lemma {:induction false} ZeroComesTooLate()
    ensures var row := [Number(Int(I64_MAX)), Number(Int(2)), Number(Int(0))];
            MulAll(1, row) == None && ProductOf(row) == 0
  {
    var row := [Number(Int(I64_MAX)), Number(Int(2)), Number(Int(0))];
    var tail := row[1..];
    assert tail == [Number(Int(2)), Number(Int(0))] && tail[1..] == [Number(Int(0))];
    assert ProductOf([Number(Int(0))]) == 0;
    assert ProductOf(tail) == 2 * ProductOf(tail[1..]);
  }
}
