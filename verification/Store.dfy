/** A key range of an ordered store, and the probe that answers "first row at or after this bound". */
module Store {
  import opened Bytes
  import opened Values

  datatype Row = Row(key: seq<u8>, value: seq<u8>)

  ghost predicate Sorted(rows: seq<Row>) {
    forall i, j | 0 <= i < j < |rows| :: Lt(rows[i].key, rows[j].key)
  }

  /** `i` separates the rows below the bound from the rows at or after it. */
  ghost predicate Cut(rows: seq<Row>, bound: seq<u8>, i: nat) {
    && i <= |rows|
    && (forall j | 0 <= j < i :: Lt(rows[j].key, bound))
    && (forall j | i <= j < |rows| :: Le(bound, rows[j].key))
  }

  lemma {:induction false} CutUnique(rows: seq<Row>, bound: seq<u8>, i: nat, k: nat)
    requires Cut(rows, bound, i) && Cut(rows, bound, k)
    ensures i == k
  {
    if i < k {
      NotLt(bound, rows[i].key);
      assert false;
    }
    if k < i {
      NotLt(bound, rows[k].key);
      assert false;
    }
  }

  /** In a sorted range, one row on each side of the gap decides the cut. */
  lemma {:induction false} CutOfNeighbours(rows: seq<Row>, bound: seq<u8>, i: nat)
    requires Sorted(rows) && i <= |rows|
    requires i > 0 ==> Lt(rows[i - 1].key, bound)
    requires i < |rows| ==> Le(bound, rows[i].key)
    ensures Cut(rows, bound, i)
  {
    forall j | 0 <= j < i ensures Lt(rows[j].key, bound) {
      if j < i - 1 {
        LtTransitive(rows[j].key, rows[i - 1].key, bound);
      }
    }
    forall j | i <= j < |rows| ensures Le(bound, rows[j].key) {
      if i < j {
        LeTransitive(bound, rows[i].key, rows[j].key);
      }
    }
  }

  /** Index of the first row at or after the bound. */
  function Seek(rows: seq<Row>, bound: seq<u8>): (i: nat)
    ensures i <= |rows|
  {
    if rows == [] || Le(bound, rows[0].key) then 0 else 1 + Seek(rows[1..], bound)
  }

  lemma {:induction false} SeekCut(rows: seq<Row>, bound: seq<u8>)
    requires Sorted(rows)
    ensures Cut(rows, bound, Seek(rows, bound))
  {
    if rows != [] && !Le(bound, rows[0].key) {
      SeekCut(rows[1..], bound);
      NotLt(bound, rows[0].key);
      var i := Seek(rows[1..], bound);
      assert i > 0 ==> rows[i] == rows[1..][i - 1];
      assert i + 1 < |rows| ==> rows[i + 1] == rows[1..][i];
    }
    CutOfNeighbours(rows, bound, Seek(rows, bound));
  }

  function RowAt(rows: seq<Row>, i: nat): Option<Row> {
    if i < |rows| then Some(rows[i]) else None
  }

  /** What a fresh range scan from the bound returns first. */
  function First(rows: seq<Row>, bound: seq<u8>): Option<Row> {
    RowAt(rows, Seek(rows, bound))
  }

  lemma {:induction false} FirstOfCut(rows: seq<Row>, bound: seq<u8>, i: nat)
    requires Sorted(rows) && Cut(rows, bound, i)
    ensures Seek(rows, bound) == i && First(rows, bound) == RowAt(rows, i)
  {
    SeekCut(rows, bound);
    CutUnique(rows, bound, i, Seek(rows, bound));
  }

  /** A pinned, forward-only cursor. A seek that finds nothing leaves it where it was. */
  class SeekCursor {
    const rows: seq<Row>
    var pos: nat

    constructor (rows: seq<Row>)
      ensures this.rows == rows
    {
      this.rows := rows;
      this.pos := |rows|;
    }

    method SeekTo(bound: seq<u8>) returns (r: Option<Row>)
      modifies this
      ensures r == First(rows, bound)
      ensures r.Some? ==> pos == Seek(rows, bound)
    {
      var i := Seek(rows, bound);
      if i < |rows| {
        pos := i;
      }
      r := RowAt(rows, i);
    }

    method Step() returns (r: Option<Row>)
      requires pos < |rows|
      modifies this
      ensures pos == old(pos) + 1
      ensures r == RowAt(rows, pos)
    {
      pos := pos + 1;
      r := RowAt(rows, pos);
    }
  }

  /** One cursor, three ways to answer: the cached row, one sequential step, a real seek. */
  class HybridProbe {
    const cursor: SeekCursor
    var last: Option<Row>
    var primed: bool
    ghost var prevBound: seq<u8>

    ghost predicate Valid()
      reads this, cursor
    {
      && Sorted(cursor.rows)
      && (last.Some? ==>
            && cursor.pos < |cursor.rows|
            && cursor.rows[cursor.pos] == last.value
            && Cut(cursor.rows, prevBound, cursor.pos))
    }

    constructor (cursor: SeekCursor)
      requires Sorted(cursor.rows)
      ensures Valid() && this.cursor == cursor && prevBound == []
    {
      this.cursor := cursor;
      this.last := None;
      this.primed := false;
      this.prevBound := [];
    }

    /** On bounds that never regress, every hint gives the answer of a fresh seek. */
    method Probe(bound: seq<u8>, far: bool) returns (r: Option<Row>)
      requires Valid() && Le(prevBound, bound)
      modifies this, cursor
      ensures Valid() && prevBound == bound
      ensures r == First(cursor.rows, bound)
    {
      ghost var was := prevBound;
      prevBound := bound;
      if primed && !far && last.Some? {
        ghost var at := cursor.pos;
        if Le(bound, last.value.key) {
          CacheStillFirst(cursor.rows, was, bound, at);
          return last;
        }
        StepIsNext(cursor.rows, bound, at);
        var next := cursor.Step();
        if next.None? {
          last := None;
          return None;
        }
        if Le(bound, next.value.key) {
          last := next;
          return next;
        }
      }
      primed := true;
      SeekCut(cursor.rows, bound);
      r := cursor.SeekTo(bound);
      last := r;
    }
  }

  lemma {:induction false} CacheStillFirst(rows: seq<Row>, was: seq<u8>, bound: seq<u8>, at: nat)
    requires Sorted(rows) && Cut(rows, was, at) && at < |rows|
    requires Le(was, bound) && Le(bound, rows[at].key)
    ensures Cut(rows, bound, at) && First(rows, bound) == Some(rows[at])
  {
    if at > 0 {
      LeTransitive(rows[at - 1].key, was, bound);
    }
    CutOfNeighbours(rows, bound, at);
    FirstOfCut(rows, bound, at);
  }

  lemma {:induction false} StepIsNext(rows: seq<Row>, bound: seq<u8>, at: nat)
    requires Sorted(rows) && at < |rows| && !Le(bound, rows[at].key)
    ensures at + 1 == |rows| || Le(bound, rows[at + 1].key) ==>
              Cut(rows, bound, at + 1) && First(rows, bound) == RowAt(rows, at + 1)
  {
    NotLt(bound, rows[at].key);
    if at + 1 == |rows| || Le(bound, rows[at + 1].key) {
      CutOfNeighbours(rows, bound, at + 1);
      FirstOfCut(rows, bound, at + 1);
    }
  }
}
