/** The single-axis time-travel scan: seek, decide one key, skip to the next. */
module SkipScan {
  import opened Bytes
  import opened Values
  import opened Store
  import opened Memcmp
  import opened MemcmpOrder
  import opened MemcmpDecode
  import opened MemcmpCodec
  import opened Tuples

  /** A row's key: plain key columns, then one validity. */
  datatype Record = Record(key: Tuple, ts: i64, isAssert: bool) {
    function Columns(): Tuple {
      key + [Validity(ts, isAssert)]
    }
  }

  const TERMINAL: (i64, bool) := (I64_MIN, false)

  function KeyOf(rel: u64, r: Record): seq<u8>
    requires AllWellFormed(r.key)
  {
    ColumnsWellFormed(r);
    EncodeKey(rel, r.Columns())
  }

  lemma {:induction false} ColumnsWellFormed(r: Record)
    requires AllWellFormed(r.key)
    ensures AllWellFormed(r.Columns())
  {
    SingleItem(Validity(r.ts, r.isAssert));
    EncodeItemsConcat(r.key, [Validity(r.ts, r.isAssert)]);
  }

  lemma {:induction false} KeyShape(rel: u64, r: Record)
    requires AllWellFormed(r.key)
    ensures KeyOf(rel, r) == EncodeKey(rel, r.key) + EncodeValidity(r.ts, r.isAssert)
  {
    SingleItem(Validity(r.ts, r.isAssert));
    KeyConcat(rel, r.key, [Validity(r.ts, r.isAssert)]);
  }

  ghost predicate Before(rel: u64, r: Record, s: Record)
    requires KeyTuple(r.key) && KeyTuple(s.key)
  {
    || Lt(EncodeKey(rel, r.key), EncodeKey(rel, s.key))
    || (r.key == s.key && ValidityLess(r.ts, r.isAssert, s.ts, s.isAssert))
  }

  /** Byte order of keys: plain key first, then newest first, assertion before retraction. */
  lemma {:induction false} KeyBefore(rel: u64, r: Record, s: Record)
    requires KeyTuple(r.key) && KeyTuple(s.key) && |r.key| == |s.key|
    ensures Lt(KeyOf(rel, r), KeyOf(rel, s)) <==> Before(rel, r, s)
    ensures Le(KeyOf(rel, s), KeyOf(rel, r)) <==> !Before(rel, r, s)
  {
    hide KeyOf, EncodeKey, EncodeValidity;
    var x, y := EncodeKey(rel, r.key), EncodeKey(rel, s.key);
    KeyShape(rel, r);
    KeyShape(rel, s);
    if r.key != s.key {
      KeyOrder(rel, r.key, s.key);
    }
    LtIrreflexive(x);
    EncodeValidityOrder(r.ts, r.isAssert, s.ts, s.isAssert);
    LtConcat(x, y, EncodeValidity(r.ts, r.isAssert), EncodeValidity(s.ts, s.isAssert));
    NotLt(KeyOf(rel, s), KeyOf(rel, r));
  }

  // ----- one key -----

  /** Whether the row answers the query, and where to look next. */
  function Check(r: Record, validAt: i64): (bool, Record) {
    if r.ts > validAt then (false, r.(ts := validAt, isAssert := true))
    else (r.isAssert, r.(ts := TERMINAL.0, isAssert := TERMINAL.1))
  }

  method CheckKeyForValidity(key: seq<u8>, validAt: i64, ghost rel: u64, ghost r: Record)
    returns (ret: Option<Tuple>, nextSeek: seq<u8>)
    requires AllWellFormed(r.key) && key == KeyOf(rel, r)
    ensures nextSeek == KeyOf(rel, Check(r, validAt).1)
    ensures ret == if Check(r, validAt).0 then Some(r.Columns()) else None
  {
    ColumnsWellFormed(r);
    DecodeTupleInverse(rel, r.Columns());
    var maybe := DecodeTupleFromKey(key);
    var decoded := maybe.value;
    var relId := RawDecode(key, rel, r);
    var last := |decoded| - 1;
    var vld := decoded[last];
    ret := None;
    if vld.ts > validAt {
      decoded := decoded[last := Validity(validAt, true)];
    } else {
      if vld.isAssert {
        ret := Some(decoded);
      }
      decoded := decoded[last := Validity(TERMINAL.0, TERMINAL.1)];
    }
    ghost var next := Check(r, validAt).1;
    assert decoded == next.Columns();
    ColumnsWellFormed(next);
    nextSeek := EncodeAsKey(relId, decoded);
  }

  method RawDecode(key: seq<u8>, ghost rel: u64, ghost r: Record) returns (relId: u64)
    requires AllWellFormed(r.key) && key == KeyOf(rel, r)
    ensures relId == rel
  {
    ReadU64Inverse(rel);
    ColumnsWellFormed(r);
    assert key[..8] == U64Bytes(rel);
    relId := ReadU64(key[..8]);
  }

  /** The next seek is strictly past the row just examined, unless the row carries the terminal sentinel. */
  lemma {:induction false} SeekPastRow(rel: u64, r: Record, validAt: i64)
    requires KeyTuple(r.key)
    ensures Lt(KeyOf(rel, r), KeyOf(rel, Check(r, validAt).1)) <==> (r.ts, r.isAssert) != TERMINAL
    ensures (r.ts, r.isAssert) == TERMINAL ==> Check(r, validAt) == (false, r)
  {
    LtIrreflexive(EncodeKey(rel, r.key));
    KeyBefore(rel, r, Check(r, validAt).1);
  }

  // ----- the scan -----

  ghost predicate Holds(rel: u64, arity: nat, rs: seq<Record>, rows: seq<Row>) {
    && |rs| == |rows| && Sorted(rows)
    && forall i | 0 <= i < |rs| ::
         |rs[i].key| == arity && KeyTuple(rs[i].key) && rows[i].key == KeyOf(rel, rs[i])
  }

  ghost predicate InOrder(rel: u64, rs: seq<Record>) {
    && (forall i | 0 <= i < |rs| :: KeyTuple(rs[i].key))
    && forall i, j | 0 <= i < j < |rs| :: Before(rel, rs[i], rs[j])
  }

  lemma {:induction false} HoldsInOrder(rel: u64, arity: nat, rs: seq<Record>, rows: seq<Row>)
    requires Holds(rel, arity, rs, rows)
    ensures InOrder(rel, rs)
  {
    forall i, j | 0 <= i < j < |rs| ensures Before(rel, rs[i], rs[j]) {
      KeyBefore(rel, rs[i], rs[j]);
    }
  }

  /** The newest record of its key at or before V, at a timestamp where the key is asserted. */
  ghost predicate Answers(rs: seq<Record>, v: i64, i: nat)
    requires i < |rs|
  {
    && rs[i].isAssert && rs[i].ts <= v
    && forall j | 0 <= j < |rs| && rs[j].key == rs[i].key && rs[j].ts <= v :: rs[j].ts <= rs[i].ts
  }

  ghost function AnswersUpTo(rs: seq<Record>, v: i64, n: nat): seq<Tuple>
    requires n <= |rs|
  {
    if n == 0 then []
    else AnswersUpTo(rs, v, n - 1) + if Answers(rs, v, n - 1) then [rs[n - 1].Columns()] else []
  }

  lemma {:induction false} NoAnswers(rs: seq<Record>, v: i64, n: nat, m: nat)
    requires n <= m <= |rs| && forall j | n <= j < m :: !Answers(rs, v, j)
    ensures AnswersUpTo(rs, v, m) == AnswersUpTo(rs, v, n)
  {
    if n < m {
      NoAnswers(rs, v, n, m - 1);
    }
  }

  /** Passed-over rows of a key still ahead are all newer than V. */
  ghost predicate Resumable(rs: seq<Record>, v: i64, n: nat) {
    n <= |rs| && forall j, i | 0 <= j < n <= i < |rs| && rs[j].key == rs[i].key :: rs[j].ts > v
  }

  /** `n'` cuts the records at the position of `b`. */
  ghost predicate CutAt(rel: u64, rs: seq<Record>, b: Record, n: nat)
    requires KeyTuple(b.key) && InOrder(rel, rs)
  {
    && n <= |rs|
    && (forall j | 0 <= j < n :: Before(rel, rs[j], b))
    && (forall j | n <= j < |rs| :: !Before(rel, rs[j], b))
  }

  lemma {:induction false} CutIsCutAt(rel: u64, arity: nat, rs: seq<Record>, rows: seq<Row>, b: Record, n: nat)
    requires Holds(rel, arity, rs, rows) && InOrder(rel, rs) && KeyTuple(b.key) && |b.key| == arity
    requires Cut(rows, KeyOf(rel, b), n)
    ensures CutAt(rel, rs, b, n)
  {
    forall j | 0 <= j < |rs|
      ensures Lt(rows[j].key, KeyOf(rel, b)) <==> Before(rel, rs[j], b)
      ensures Le(KeyOf(rel, b), rows[j].key) <==> !Before(rel, rs[j], b)
    {
      KeyBefore(rel, rs[j], b);
    }
  }

  /** Between a row and the seek it causes lie only rows of its key. */
  lemma {:induction false} Skipped(rel: u64, rs: seq<Record>, v: i64, n: nat, n': nat, j: nat)
    requires InOrder(rel, rs) && n < |rs| && CutAt(rel, rs, Check(rs[n], v).1, n') && n <= j < n'
    ensures rs[j].key == rs[n].key && (rs[n].ts > v ==> rs[j].ts > v)
    ensures j > n ==> ValidityLess(rs[n].ts, rs[n].isAssert, rs[j].ts, rs[j].isAssert)
  {
    LtIrreflexive(EncodeKey(rel, rs[n].key));
    if n < j {
      assert Before(rel, rs[n], rs[j]) && Before(rel, rs[j], Check(rs[n], v).1);
      if Lt(EncodeKey(rel, rs[n].key), EncodeKey(rel, rs[j].key)) {
        LtAsymmetric(EncodeKey(rel, rs[n].key), EncodeKey(rel, rs[j].key));
      }
    }
  }

  lemma {:induction false} StillResumable(rel: u64, rs: seq<Record>, v: i64, n: nat, n': nat)
    requires InOrder(rel, rs) && Resumable(rs, v, n) && n < |rs| && NoTerminal(rs)
    requires CutAt(rel, rs, Check(rs[n], v).1, n')
    ensures n < n' && Resumable(rs, v, n')
  {
    var b := Check(rs[n], v).1;
    assert Before(rel, rs[n], b);
    forall j, i | 0 <= j < n' <= i < |rs| && rs[j].key == rs[i].key ensures rs[j].ts > v {
      if n <= j {
        Skipped(rel, rs, v, n, n', j);
        assert !Before(rel, rs[i], b) && (rs[i].ts, rs[i].isAssert) != TERMINAL;
      }
    }
  }

  ghost predicate NoTerminal(rs: seq<Record>) {
    forall i | 0 <= i < |rs| :: (rs[i].ts, rs[i].isAssert) != TERMINAL
  }

  /** One turn of the loop accounts for exactly the rows it skips. */
  lemma {:induction false} TurnAccounts(rel: u64, rs: seq<Record>, v: i64, n: nat, n': nat)
    requires InOrder(rel, rs) && Resumable(rs, v, n) && n < n' <= |rs|
    requires CutAt(rel, rs, Check(rs[n], v).1, n')
    ensures AnswersUpTo(rs, v, n') ==
            if Check(rs[n], v).0 then AnswersUpTo(rs, v, n) + [rs[n].Columns()] else AnswersUpTo(rs, v, n)
  {
    forall j | n < j < n' ensures !Answers(rs, v, j) {
      Skipped(rel, rs, v, n, n', j);
    }
    NoAnswers(rs, v, n + 1, n');
    if Check(rs[n], v).0 {
      FirstAnswers(rel, rs, v, n);
    }
  }

  /** The first row of a key at or before V is its newest. */
  lemma {:induction false} FirstAnswers(rel: u64, rs: seq<Record>, v: i64, n: nat)
    requires InOrder(rel, rs) && Resumable(rs, v, n) && n < |rs| && Check(rs[n], v).0
    ensures Answers(rs, v, n)
  {
    LtIrreflexive(EncodeKey(rel, rs[n].key));
    forall j | 0 <= j < |rs| && rs[j].key == rs[n].key && rs[j].ts <= v ensures rs[j].ts <= rs[n].ts {
      if j > n {
        assert Before(rel, rs[n], rs[j]);
      }
    }
  }

  class SkipIterator {
    const inner: seq<Row>
    const validAt: i64
    var nextBound: seq<u8>
    ghost const rel: u64
    ghost const arity: nat
    ghost const rs: seq<Record>
    /** Rows before `frontier` are behind the bound. */
    ghost var frontier: nat
    ghost var emitted: seq<Tuple>

    ghost predicate Valid()
      reads this
    {
      && Holds(rel, arity, rs, inner) && InOrder(rel, rs) && NoTerminal(rs)
      && Cut(inner, nextBound, frontier)
      && Resumable(rs, validAt, frontier)
      && emitted == AnswersUpTo(rs, validAt, frontier)
    }

    constructor (inner: seq<Row>, lower: seq<u8>, validAt: i64, ghost rel: u64, ghost arity: nat, ghost rs: seq<Record>)
      requires Holds(rel, arity, rs, inner) && NoTerminal(rs)
      requires forall i | 0 <= i < |inner| :: Le(lower, inner[i].key)
      ensures Valid() && emitted == [] && this.rs == rs && this.validAt == validAt
    {
      this.inner, this.validAt, this.nextBound := inner, validAt, lower;
      this.rel, this.arity, this.rs := rel, arity, rs;
      this.frontier, this.emitted := 0, [];
      new;
      HoldsInOrder(rel, arity, rs, inner);
    }

    method Next() returns (r: Option<Tuple>)
      requires Valid()
      modifies this
      ensures Valid()
      ensures match r
              case Some(t) => emitted == old(emitted) + [t]
              case None => emitted == old(emitted) == AnswersUpTo(rs, validAt, |rs|)
    {
      hide InOrder, AnswersUpTo, Resumable, KeyOf, Before, CutAt, NoTerminal, Check;
      while true
        invariant Valid() && emitted == old(emitted)
        decreases |rs| - frontier
      {
        SeekCut(inner, nextBound);
        CutUnique(inner, nextBound, frontier, Seek(inner, nextBound));
        var nxt := First(inner, nextBound);
        if nxt.None? {
          return None;
        }
        ghost var n, b := frontier, Check(rs[frontier], validAt).1;
        var ret, bound := CheckKeyForValidity(nxt.value.key, validAt, rel, rs[n]);
        nextBound := bound;
        CheckKeepsKey(rs[n], validAt);
        SeekCut(inner, bound);
        frontier := Seek(inner, bound);
        CutIsCutAt(rel, arity, rs, inner, b, frontier);
        StillResumable(rel, rs, validAt, n, frontier);
        TurnAccounts(rel, rs, validAt, n, frontier);
        if ret.Some? {
          emitted := emitted + [ret.value];
          return ret;
        }
      }
    }
  }

  lemma {:induction false} CheckKeepsKey(r: Record, v: i64)
    ensures Check(r, v).1.key == r.key
  {
  }
}
