/** Point-in-time reads of stored bitemporal relations, in terms of the facts they hold. */
module BitemporalRead {
  import opened Bytes
  import opened Values
  import opened Store
  import opened Memcmp
  import opened MemcmpOrder
  import opened MemcmpDecode
  import opened Tuples
  import opened Bitemporal
  import opened BitemporalScan
  import opened BitemporalLaws

  // ----- stored tables -----

  lemma {:induction false} ReadVldInverse(ts: i64, isAssert: bool)
    ensures ReadVld(EncodeValidity(ts, isAssert)) == Some((ts, isAssert))
  {
    var bs := EncodeValidity(ts, isAssert);
    DecodeValidityInverse(ts, isAssert, []);
    assert bs + [] == bs;
    assert bs[1..][..8] == bs[1..9];
  }

  /** The spliced reader agrees with the key decoder on every ten bytes, well formed or not. */
  lemma {:induction false} ReadVldAgrees(bs: seq<u8>)
    requires |bs| == VLD_LEN && bs[0] == VLD_TAG
    ensures ReadVld(bs).Some? && Decode(bs) == Some((Validity(ReadVld(bs).value.0, ReadVld(bs).value.1), []))
  {
    assert bs[1..][..8] == bs[1..9];
  }

  /** A key of a bitemporal relation: plain key columns, then valid time, then transaction time. */
  datatype Fact = Fact(key: Tuple, vt: i64, vtAssert: bool, tt: i64, ttAssert: bool)

  /** Its transaction time is not one of the reserved values. */
  predicate Readable(f: Fact) {
    f.tt != I64_MIN && f.ttAssert
  }

  function StoredKey(rel: u64, f: Fact): seq<u8>
    requires AllWellFormed(f.key)
  {
    var axes := [Validity(f.vt, f.vtAssert), Validity(f.tt, f.ttAssert)];
    PairItems(axes[0], axes[1]);
    EncodeItemsConcatWellFormed(f.key, axes);
    EncodeKey(rel, f.key + axes)
  }

  lemma {:induction false} EncodeItemsConcatWellFormed(a: Tuple, b: Tuple)
    requires AllWellFormed(a) && AllWellFormed(b)
    ensures AllWellFormed(a + b)
  {
    EncodeItemsConcat(a, b);
  }

  /** Row `i` holds fact `i`; one relation, one key arity. */
  ghost predicate Stores(rel: u64, arity: nat, fs: seq<Fact>, rows: seq<Row>) {
    && |fs| == |rows| && Sorted(rows)
    && forall i | 0 <= i < |fs| ::
         |fs[i].key| == arity && KeyTuple(fs[i].key) && rows[i].key == StoredKey(rel, fs[i])
  }

  lemma {:induction false} StoredKeyShape(rel: u64, f: Fact)
    requires AllWellFormed(f.key)
    ensures StoredKey(rel, f) == Raw(Pos(EncodeKey(rel, f.key), f.vt, f.vtAssert, f.tt, f.ttAssert))
  {
    var x, y := Validity(f.vt, f.vtAssert), Validity(f.tt, f.ttAssert);
    var k := EncodeKey(rel, f.key);
    PairItems(x, y);
    KeyConcat(rel, f.key, [x, y]);
    Associate(k, Encode(x), Encode(y));
  }

  /** A stored fact parses to itself, unless its transaction time is one of the reserved values. */
  lemma {:induction false} StoredFactParses(rel: u64, f: Fact, row: Row)
    requires AllWellFormed(f.key) && row.key == StoredKey(rel, f)
    ensures Parse(row) ==
            if !Readable(f) then None
            else Some(Landing(row, |EncodeKey(rel, f.key)|, f.vt, f.vtAssert, f.tt))
  {
    var k, n := EncodeKey(rel, f.key), |row.key|;
    var x, y := EncodeValidity(f.vt, f.vtAssert), EncodeValidity(f.tt, f.ttAssert);
    StoredKeyShape(rel, f);
    assert row.key == k + x + y;
    assert row.key[n - AXES_LEN..n - VLD_LEN] == x && row.key[n - VLD_LEN..] == y;
    ReadVldInverse(f.vt, f.vtAssert);
    ReadVldInverse(f.tt, f.ttAssert);
  }

  /** Any key range of a stored table that opens at a key prefix is one the scan handles. */
  lemma {:induction false} StoredRange(rel: u64, arity: nat, fs: seq<Fact>, rows: seq<Row>, p: Tuple)
    requires Stores(rel, arity, fs, rows) && KeyTuple(p) && |p| <= arity
    requires forall i | 0 <= i < |rows| :: Le(EncodeKey(rel, p), rows[i].key)
    ensures BitemporalRange(rows, EncodeKey(rel, p))
    ensures AllClean(rows) <==> forall i | 0 <= i < |fs| :: Readable(fs[i])
  {
    forall i | 0 <= i < |rows| && Parse(rows[i]).Some?
      ensures rows[i].key == Raw(At(Parse(rows[i]).value)) && Parse(rows[i]).value.Plain() == EncodeKey(rel, fs[i].key)
      ensures Le(EncodeKey(rel, p), Parse(rows[i]).value.Plain())
    {
      StoredPlain(rel, p, fs[i], rows[i]);
    }
    forall i, j | 0 <= i < |rows| && 0 <= j < |rows| && Parse(rows[i]).Some? && Parse(rows[j]).Some?
      ensures Compatible(Parse(rows[i]).value.Plain(), Parse(rows[j]).value.Plain())
    {
      if fs[i].key != fs[j].key {
        KeyOrder(rel, fs[i].key, fs[j].key);
      }
    }
    forall i | 0 <= i < |fs| ensures Parse(rows[i]).Some? <==> Readable(fs[i]) {
      StoredFactParses(rel, fs[i], rows[i]);
    }
  }

  lemma {:induction false} StoredPlain(rel: u64, p: Tuple, f: Fact, row: Row)
    requires KeyTuple(p) && KeyTuple(f.key) && |p| <= |f.key|
    requires row.key == StoredKey(rel, f) && Le(EncodeKey(rel, p), row.key) && Parse(row).Some?
    ensures Parse(row).value.Plain() == EncodeKey(rel, f.key)
    ensures row.key == Raw(At(Parse(row).value)) && Le(EncodeKey(rel, p), EncodeKey(rel, f.key))
  {
    var k := EncodeKey(rel, f.key);
    var x, y := EncodeValidity(f.vt, f.vtAssert), EncodeValidity(f.tt, f.ttAssert);
    StoredFactParses(rel, f, row);
    StoredKeyShape(rel, f);
    Associate(k, x, y);
    assert row.key[..|k|] == k;
    PrefixBelow(rel, p, f.key, x + y);
  }

  // ----- the range of a key prefix -----

  /** The key has the prefix and does not go on with a bottom. */
  ghost predicate Under(p: Tuple, k: Tuple) {
    |p| <= |k| && k[..|p|] == p && (|p| < |k| ==> !k[|p|].Bot?)
  }

  function UpperEnd(rel: u64, p: Tuple): seq<u8>
    requires AllWellFormed(p)
  {
    SingleItem(Bot);
    EncodeItemsConcat(p, [Bot]);
    EncodeKey(rel, p + [Bot])
  }

  lemma {:induction false} BelowBot(r: Tuple)
    requires KeyTuple(r)
    ensures Lt(EncodeItems(r), [BOT_TAG]) <==> r == [] || !r[0].Bot?
  {
    if r != [] {
      TagOfRank(r[0]);
      var bs := EncodeItems(r);
      assert bs[0] == Encode(r[0])[0];
    }
  }

  lemma {:induction false} UpperEndIs(rel: u64, p: Tuple)
    requires AllWellFormed(p)
    ensures UpperEnd(rel, p) == EncodeKey(rel, p) + [BOT_TAG] && Lt(EncodeKey(rel, p), UpperEnd(rel, p))
  {
    hide EncodeKey, Lt;
    SingleItem(Bot);
    KeyConcat(rel, p, [Bot]);
    LtOfPrefix(EncodeKey(rel, p), EncodeKey(rel, p) + [BOT_TAG]);
  }

  /** The bytes from a prefix up to the prefix and a bottom hold exactly the keys under that prefix. */
  lemma {:induction false} PrefixRange(rel: u64, p: Tuple, k: Tuple)
    requires KeyTuple(p) && KeyTuple(k) && |p| <= |k|
    ensures Le(EncodeKey(rel, p), EncodeKey(rel, k)) && Lt(EncodeKey(rel, k), UpperEnd(rel, p)) <==> Under(p, k)
  {
    hide EncodeKey, UpperEnd, Lt, KeyTuple;
    var q, r := k[..|p|], k[|p|..];
    assert k == q + r;
    KeyTupleSplit(k, |p|);
    TuplesWellFormed(p, q, r);
    KeyConcat(rel, q, r);
    UpperEndIs(rel, p);
    BelowBot(r);
    var a, b, rest := EncodeKey(rel, p), EncodeKey(rel, q), EncodeItems(r);
    assert a + [] == a;
    if p == q {
      LtSamePrefix(a, rest, [BOT_TAG]);
      if rest != [] {
        LtOfPrefix(a, a + rest);
      }
    } else {
      KeyOrder(rel, p, q);
      LtConcat(a, b, [], rest);
      LtConcat(b, a, rest, [BOT_TAG]);
      if Lt(a, b) {
        LtAsymmetric(a, b);
      }
      assert a != b + rest;
    }
  }

  lemma {:induction false} TuplesWellFormed(p: Tuple, q: Tuple, r: Tuple)
    requires KeyTuple(p) && KeyTuple(q) && KeyTuple(r)
    ensures AllWellFormed(p) && AllWellFormed(q) && AllWellFormed(r)
  {
  }

  /** The same of stored facts: the temporal axes play no part. */
  lemma {:induction false} StoredUnder(rel: u64, p: Tuple, f: Fact)
    requires KeyTuple(p) && KeyTuple(f.key) && |p| <= |f.key|
    ensures Le(EncodeKey(rel, p), StoredKey(rel, f)) && Lt(StoredKey(rel, f), UpperEnd(rel, p)) <==> Under(p, f.key)
  {
    hide EncodeKey, UpperEnd, Lt;
    var axes := [Validity(f.vt, f.vtAssert), Validity(f.tt, f.ttAssert)];
    AxesKeyTuple(f.key, axes[0], axes[1]);
    PrefixRange(rel, p, f.key + axes);
    assert (f.key + axes)[..|p|] == f.key[..|p|];
  }

  lemma {:induction false} AxesKeyTuple(k: Tuple, x: Value, y: Value)
    requires KeyTuple(k) && x.Validity? && y.Validity?
    ensures KeyTuple(k + [x, y])
  {
    if k == [] {
      var axes, last := [x, y], [y];
      assert k + axes == axes && axes[1..] == last && last[1..] == [];
      assert AllWellFormed(last[1..]) && AllVectorFree(last[1..]);
      assert AllWellFormed(last) && AllVectorFree(last);
    } else {
      assert KeyTuple(k[1..]);
      AxesKeyTuple(k[1..], x, y);
      assert (k + [x, y])[1..] == k[1..] + [x, y];
    }
  }

  /** Rows `lo..hi` of the table are exactly those whose facts lie under the prefix. */
  lemma {:induction false} RangeOfPrefix(rel: u64, arity: nat, fs: seq<Fact>, rows: seq<Row>, p: Tuple, lo: nat,
        hi: nat)
    requires Stores(rel, arity, fs, rows) && KeyTuple(p) && |p| <= arity
    requires lo == Seek(rows, EncodeKey(rel, p)) && hi == Seek(rows, UpperEnd(rel, p))
    ensures lo <= hi <= |rows|
    ensures forall i | 0 <= i < |fs| :: lo <= i < hi <==> Under(p, fs[i].key)
    ensures forall i | lo <= i < hi :: Le(EncodeKey(rel, p), rows[i].key)
  {
    hide EncodeKey, UpperEnd, Lt, Le, KeyTuple, Under, StoredKey, Seek;
    TuplesWellFormed(p, p, p);
    var a, b := EncodeKey(rel, p), UpperEnd(rel, p);
    SeekCut(rows, a);
    SeekCut(rows, b);
    UpperEndIs(rel, p);
    if hi < lo {
      EndsCross(rows[hi].key, a, b);
    }
    forall i | 0 <= i < |fs| ensures lo <= i < hi <==> Under(p, fs[i].key) {
      StoredUnder(rel, p, fs[i]);
      NotLt(a, rows[i].key);
      NotLt(b, rows[i].key);
    }
  }

  lemma {:induction false} EndsCross(x: seq<u8>, a: seq<u8>, b: seq<u8>)
    requires Lt(a, b) && Lt(x, a)
    ensures !Le(b, x)
  {
    LtTransitive(x, a, b);
    NotLt(b, x);
  }

  // ----- belief -----

  /**
    * `f` is what the table holds as of T: about its key at V, or, without a V, about its key at its own instant,
    * where ties go to the assertion. Facts with a reserved transaction time are no part of it.
    */
  ghost predicate Believed(fs: seq<Fact>, at: Option<i64>, t: i64, f: Fact) {
    && f in fs && Readable(f) && f.tt <= t
    && match at
       case Some(v) =>
         && f.vtAssert && f.vt <= v
         && (forall g | g in fs && Readable(g) && g.key == f.key && g.vt <= v && g.tt <= t ::
               g.vt < f.vt || (g.vt == f.vt && g.tt <= f.tt))
       case None =>
         forall g | g in fs && Readable(g) && g.key == f.key && g.vt == f.vt && g.tt <= t ::
           g.tt < f.tt || (g.tt == f.tt && (g == f || f.vtAssert))
  }

  /** Record `m` of fact `g` against record `l` of fact `f`. */
  ghost predicate Matches(g: Fact, m: Landing, f: Fact, l: Landing) {
    && m.vt == g.vt && m.vtAssert == g.vtAssert && m.tt == g.tt
    && (m.Plain() == l.Plain() <==> g.key == f.key)
    && (m == l <==> g == f)
  }

  /** Every record stands for a fact, and every fact about the key of `f` has a record. */
  ghost predicate Represents(cs: seq<Landing>, fs: seq<Fact>, f: Fact, l: Landing) {
    && (forall m | m in cs :: exists g :: g in fs && Readable(g) && Matches(g, m, f, l))
    && (forall g | g in fs && Readable(g) && g.key == f.key :: exists m :: m in cs && Matches(g, m, f, l))
  }

  lemma {:induction false} FactOf(cs: seq<Landing>, fs: seq<Fact>, f: Fact, l: Landing, i: nat) returns (g: Fact)
    requires Represents(cs, fs, f, l) && i < |cs|
    ensures g in fs && Readable(g) && Matches(g, cs[i], f, l)
  {
    hide Readable, Matches;
    var m := cs[i];
    assert m in cs;
    g :| g in fs && Readable(g) && Matches(g, m, f, l);
  }

  lemma {:induction false} RecordOf(cs: seq<Landing>, fs: seq<Fact>, f: Fact, l: Landing, g: Fact) returns (i: nat)
    requires Represents(cs, fs, f, l) && g in fs && Readable(g) && g.key == f.key
    ensures i < |cs| && Matches(g, cs[i], f, l)
  {
    hide Readable, Matches;
    var m :| m in cs && Matches(g, m, f, l);
    i :| 0 <= i < |cs| && cs[i] == m;
  }

  lemma {:induction false} KeyBelief(cs: seq<Landing>, fs: seq<Fact>, v: i64, t: i64, f: Fact, l: Landing)
    requires Represents(cs, fs, f, l) && f in fs && Readable(f) && Matches(f, l, f, l)
    ensures WinsKey(cs, v, t, l) <==> Believed(fs, Some(v), t, f)
  {
    hide Readable, Represents, Landing.Plain;
    if WinsKey(cs, v, t, l) {
      forall g | g in fs && Readable(g) && g.key == f.key && g.vt <= v && g.tt <= t
        ensures g.vt < f.vt || (g.vt == f.vt && g.tt <= f.tt)
      {
        var i := RecordOf(cs, fs, f, l, g);
      }
    }
    if Believed(fs, Some(v), t, f) {
      forall i | 0 <= i < |cs| && cs[i].Plain() == l.Plain() && VisibleAt(cs[i], v, t)
        ensures cs[i].vt < l.vt || (cs[i].vt == l.vt && cs[i].tt <= l.tt)
      {
        var g := FactOf(cs, fs, f, l, i);
      }
    }
  }

  lemma {:induction false} GroupBelief(cs: seq<Landing>, fs: seq<Fact>, t: i64, f: Fact, l: Landing)
    requires Represents(cs, fs, f, l) && f in fs && Readable(f) && Matches(f, l, f, l)
    ensures WinsGroup(cs, t, l) <==> Believed(fs, None, t, f)
  {
    hide Readable, Represents, Landing.Plain;
    if WinsGroup(cs, t, l) {
      forall g | g in fs && Readable(g) && g.key == f.key && g.vt == f.vt && g.tt <= t
        ensures g.tt < f.tt || (g.tt == f.tt && (g == f || f.vtAssert))
      {
        var i := RecordOf(cs, fs, f, l, g);
      }
    }
    if Believed(fs, None, t, f) {
      forall i | 0 <= i < |cs| && cs[i].Plain() == l.Plain() && cs[i].vt == l.vt && cs[i].tt <= t
        ensures cs[i].tt < l.tt || (cs[i].tt == l.tt && (cs[i] == l || l.vtAssert))
      {
        var g := FactOf(cs, fs, f, l, i);
      }
    }
  }

  lemma {:induction false} StoredMatches(rel: u64, g: Fact, row': Row, f: Fact, row: Row)
    requires KeyTuple(f.key) && KeyTuple(g.key) && |f.key| == |g.key| && Readable(f) && Readable(g)
    requires row.key == StoredKey(rel, f) && row'.key == StoredKey(rel, g) && (f == g ==> row == row')
    ensures Parse(row).Some? && Parse(row').Some? && Parse(row).value.row == row && Parse(row').value.row == row'
    ensures Matches(g, Parse(row').value, f, Parse(row).value)
  {
    hide Parse, StoredKey, KeyTuple, EncodeKey;
    StoredRecord(rel, f, row);
    StoredRecord(rel, g, row');
    if f.key != g.key {
      KeyOrder(rel, f.key, g.key);
    }
  }

  lemma {:induction false} StoredRecord(rel: u64, f: Fact, row: Row)
    requires KeyTuple(f.key) && Readable(f) && row.key == StoredKey(rel, f)
    ensures Parse(row) == Some(Landing(row, |EncodeKey(rel, f.key)|, f.vt, f.vtAssert, f.tt))
    ensures Parse(row).value.Plain() == EncodeKey(rel, f.key)
  {
    StoredFactParses(rel, f, row);
    StoredKeyShape(rel, f);
  }

  /** The rows of a range that holds all facts about its keys represent the whole table for each of its facts. */
  lemma {:induction false} RangeRepresents(rel: u64, arity: nat, fs: seq<Fact>, rows: seq<Row>, lo: nat, hi: nat,
        i: nat)
    requires Stores(rel, arity, fs, rows) && lo <= i < hi <= |rows| && Readable(fs[i])
    requires forall j | 0 <= j < |fs| && fs[j].key == fs[i].key :: lo <= j < hi
    ensures Parse(rows[i]).Some? && Matches(fs[i], Parse(rows[i]).value, fs[i], Parse(rows[i]).value)
    ensures Represents(Clean(rows[lo..hi]), fs, fs[i], Parse(rows[i]).value)
  {
    hide Parse, StoredKey, KeyTuple, Readable, Matches, Clean, Lt;
    var range := rows[lo..hi];
    var cs, f := Clean(range), fs[i];
    PairMatches(rel, arity, fs, rows, i, i);
    var l := Parse(rows[i]).value;
    forall m | m in cs ensures exists g :: g in fs && Readable(g) && Matches(g, m, f, l) {
      CleanMembers(range, m);
      var k :| 0 <= k < |range| && range[k] == m.row;
      RowReadable(rel, arity, fs, rows, lo + k);
      PairMatches(rel, arity, fs, rows, lo + k, i);
      assert fs[lo + k] in fs;
    }
    forall g | g in fs && Readable(g) && g.key == f.key ensures exists m :: m in cs && Matches(g, m, f, l) {
      var j :| 0 <= j < |fs| && fs[j] == g;
      PairMatches(rel, arity, fs, rows, j, i);
      var m := Parse(rows[j]).value;
      assert range[j - lo] == rows[j];
      CleanMembers(range, m);
    }
  }

  lemma {:induction false} RowReadable(rel: u64, arity: nat, fs: seq<Fact>, rows: seq<Row>, i: nat)
    requires Stores(rel, arity, fs, rows) && i < |fs|
    ensures Parse(rows[i]).Some? <==> Readable(fs[i])
  {
    StoredFactParses(rel, fs[i], rows[i]);
  }

  lemma {:induction false} PairMatches(rel: u64, arity: nat, fs: seq<Fact>, rows: seq<Row>, j: nat, i: nat)
    requires Stores(rel, arity, fs, rows) && i < |fs| && j < |fs| && Readable(fs[i]) && Readable(fs[j])
    ensures Parse(rows[i]).Some? && Parse(rows[j]).Some?
    ensures Parse(rows[i]).value.row == rows[i] && Parse(rows[j]).value.row == rows[j]
    ensures Matches(fs[j], Parse(rows[j]).value, fs[i], Parse(rows[i]).value)
  {
    hide Parse, StoredKey, KeyTuple, Readable, Matches;
    if fs[i] == fs[j] {
      LtIrreflexive(rows[i].key);
    }
    StoredMatches(rel, fs[j], rows[j], fs[i], rows[i]);
  }

  lemma {:induction false} AnswerSorted(cs: seq<Landing>, lower: seq<u8>, ws: seq<Landing>)
    requires Records(cs, lower) && Ordered(ws) && forall w | w in ws :: w in cs
    ensures Sorted(RowsOf(ws))
  {
    forall i, j | 0 <= i < j < |ws| ensures Lt(RowsOf(ws)[i].key, RowsOf(ws)[j].key) {
      assert ws[i] in cs && ws[j] in cs;
      RawOrder(At(ws[i]), At(ws[j]));
    }
  }

  lemma {:induction false} AnswerHolds(ws: seq<Landing>, l: Landing)
    requires (forall w | w in ws :: Parse(w.row) == Some(w)) && Parse(l.row) == Some(l)
    ensures l.row in RowsOf(ws) <==> l in ws
  {
    hide Parse;
    if l in ws {
      var j :| 0 <= j < |ws| && ws[j] == l;
      assert RowsOf(ws)[j] == l.row;
    }
    if l.row in RowsOf(ws) {
      var j :| 0 <= j < |ws| && RowsOf(ws)[j] == l.row;
      assert ws[j] in ws;
    }
  }

  /** The rows of an answer: in key order, and among the range's rows exactly the winning records. */
  lemma {:induction false} AnswerRows(rows: seq<Row>, at: Option<i64>, t: i64, lower: seq<u8>)
    requires BitemporalRange(rows, lower)
    ensures var out := RowsOf(Winners(Clean(rows), at, t));
            && Sorted(out) && (forall r | r in out :: r in rows && Parse(r).Some?)
            && forall r | r in rows && Parse(r).Some? :: r in out <==> Wins(Clean(rows), at, t, Parse(r).value)
  {
    hide Clean, Wins, Parse, Winners, BitemporalRange, Records, Ordered;
    var cs, ws := Clean(rows), Winners(Clean(rows), at, t);
    CleanRecords(rows, lower);
    RecordsOrdered(cs, lower);
    AnswerMembers(cs, at, t);
    AnswerSorted(cs, lower, ws);
    forall w | w in ws ensures Parse(w.row) == Some(w) && w.row in rows {
      CleanMembers(rows, w);
    }
    forall r | r in rows && Parse(r).Some? ensures r in RowsOf(ws) <==> Wins(cs, at, t, Parse(r).value) {
      ParsedRow(r);
      CleanMembers(rows, Parse(r).value);
      AnswerHolds(ws, Parse(r).value);
    }
  }

  lemma {:induction false} ParsedRow(r: Row)
    requires Parse(r).Some?
    ensures Parse(r).value.row == r
  {
  }

  lemma {:induction false} RecordsOrdered(cs: seq<Landing>, lower: seq<u8>)
    requires Records(cs, lower)
    ensures Ordered(cs)
  {
  }

  /** Row by row: a stored row is in its range's answer exactly when its fact is believed, over the whole table. */
  lemma {:induction false} AnswerIsBelieved(rel: u64, arity: nat, fs: seq<Fact>, rows: seq<Row>, lo: nat, hi: nat,
                                            lower: seq<u8>, at: Option<i64>, t: i64, i: nat)
    requires Stores(rel, arity, fs, rows) && lo <= hi <= |rows| && i < |fs|
    requires lo <= i < hi ==> forall j | 0 <= j < |fs| && fs[j].key == fs[i].key :: lo <= j < hi
    requires BitemporalRange(rows[lo..hi], lower)
    ensures rows[i] in RowsOf(Winners(Clean(rows[lo..hi]), at, t)) <==> lo <= i < hi && Believed(fs, at, t, fs[i])
  {
    hide Clean, Winners, RowsOf, Parse, BitemporalRange, Believed, WinsKey, WinsGroup, Represents, Stores, Matches,
      Readable;
    var range := rows[lo..hi];
    AnswerRows(range, at, t, lower);
    RowInRange(rel, arity, fs, rows, lo, hi, i);
    RowReadable(rel, arity, fs, rows, i);
    BelievedReadable(fs, at, t, fs[i]);
    if lo <= i < hi && Readable(fs[i]) {
      RangeRepresents(rel, arity, fs, rows, lo, hi, i);
      match at {
        case Some(v) => KeyBelief(Clean(range), fs, v, t, fs[i], Parse(rows[i]).value);
        case None => GroupBelief(Clean(range), fs, t, fs[i], Parse(rows[i]).value);
      }
    }
  }

  lemma {:induction false} BelievedReadable(fs: seq<Fact>, at: Option<i64>, t: i64, f: Fact)
    ensures Believed(fs, at, t, f) ==> Readable(f)
  {
  }

  lemma {:induction false} RowInRange(rel: u64, arity: nat, fs: seq<Fact>, rows: seq<Row>, lo: nat, hi: nat, i: nat)
    requires Stores(rel, arity, fs, rows) && lo <= hi <= |rows| && i < |fs|
    ensures i < |rows| && (rows[i] in rows[lo..hi] <==> lo <= i < hi)
    ensures fs[i] in fs
  {
    hide Lt;
    if rows[i] in rows[lo..hi] {
      var k :| 0 <= k < hi - lo && rows[lo..hi][k] == rows[i];
      LtIrreflexive(rows[i].key);
    }
    if lo <= i < hi {
      assert rows[lo..hi][i - lo] == rows[i];
    }
  }

  /**
    * A read of a stored bitemporal relation as of (V, T), or of all its instants as of T, under a key prefix: the
    * table is cut to the bytes of the prefix and scanned. The answer holds, in key order, exactly the rows under the
    * prefix whose facts are believed, where belief looks at the whole table. Only a reserved transaction time under
    * the prefix can make the read fail.
    */
  method ReadAsOf(rel: u64, ghost arity: nat, ghost fs: seq<Fact>, rows: seq<Row>, p: Tuple, at: Option<i64>, t: i64)
    returns (out: seq<Row>, ok: bool)
    requires Stores(rel, arity, fs, rows) && KeyTuple(p) && |p| <= arity
    ensures (forall f | f in fs && Under(p, f.key) :: Readable(f)) ==> ok
    ensures ok ==> Sorted(out) && forall r | r in out :: r in rows
    ensures ok ==> forall i | 0 <= i < |fs| :: rows[i] in out <==> Under(p, fs[i].key) && Believed(fs, at, t, fs[i])
  {
    hide Clean, BitemporalRange, Parse, Believed, Winners, Stores, Seek, AllClean, RowsOf, Under, Readable, Sorted,
      EncodeKey, UpperEnd, Lt;
    StoresSorted(rel, arity, fs, rows);
    var lower, upper := EncodeKey(rel, p), UpperEnd(rel, p);
    var lo, hi := Seek(rows, lower), Seek(rows, upper);
    RangeOfPrefix(rel, arity, fs, rows, p, lo, hi);
    var range := rows[lo..hi];
    CutStores(rel, arity, fs, rows, lo, hi);
    StoredRange(rel, arity, fs[lo..hi], range, p);
    StoresSorted(rel, arity, fs[lo..hi], range);
    var cursor := new SeekCursor(range);
    var probe := new HybridProbe(cursor);
    out, ok := CollectAll(probe, lower, at, t);
    AnswerRows(range, at, t, lower);
    forall i | 0 <= i < |fs|
      ensures rows[i] in RowsOf(Winners(Clean(range), at, t)) <==> Under(p, fs[i].key) && Believed(fs, at, t, fs[i])
    {
      AnswerIsBelieved(rel, arity, fs, rows, lo, hi, lower, at, t, i);
    }
    assert forall r | r in range :: r in rows;
    assert forall i | 0 <= i < hi - lo :: fs[lo..hi][i] == fs[lo + i] && fs[lo + i] in fs;
  }

  lemma {:induction false} CutStores(rel: u64, arity: nat, fs: seq<Fact>, rows: seq<Row>, lo: nat, hi: nat)
    requires Stores(rel, arity, fs, rows) && lo <= hi <= |rows|
    ensures Stores(rel, arity, fs[lo..hi], rows[lo..hi])
  {
    hide Lt, StoredKey, KeyTuple;
  }

  lemma {:induction false} StoresSorted(rel: u64, arity: nat, fs: seq<Fact>, rows: seq<Row>)
    requires Stores(rel, arity, fs, rows)
    ensures Sorted(rows) && |fs| == |rows|
  {
  }
}
