/** What a bitemporal read means: records, their order, and the two kinds of answer. */
module Bitemporal {
  import opened Bytes
  import opened Values
  import opened Store
  import opened Memcmp
  import opened MemcmpDecode
  import opened MemcmpOrder

  const VLD_LEN: nat := 10
  const AXES_LEN: nat := 20

  /** One temporal component of a key: raw microseconds and the assertion flag. */
  function ReadVld(bs: seq<u8>): Option<(i64, bool)> {
    if |bs| != VLD_LEN || bs[0] != VLD_TAG then None
    else Some((OrderDecodeI64(Complement(ReadU64(bs[1..9]))), bs[9] == 0))
  }

  /** A row of a bitemporal relation with its two temporal axes decoded. */
  datatype Landing = Landing(row: Row, plainLen: nat, vt: i64, vtAssert: bool, tt: i64) {
    function Plain(): seq<u8> {
      if plainLen <= |row.key| then row.key[..plainLen] else row.key
    }
  }

  /** `None` is the loud error on a key too short, mistagged, or carrying a reserved transaction time. */
  function Parse(row: Row): Option<Landing> {
    var n := |row.key|;
    if n < AXES_LEN then None
    else
      var vt, tt := ReadVld(row.key[n - AXES_LEN..n - VLD_LEN]), ReadVld(row.key[n - VLD_LEN..]);
      if vt.None? || tt.None? || tt.value.0 == I64_MIN || !tt.value.1 then None
      else Some(Landing(row, n - AXES_LEN, vt.value.0, vt.value.1, tt.value.0))
  }

  // ----- positions -----

  /** A place in the key space of one relation: a row's, or a bound's. */
  datatype Pos = Pos(plain: seq<u8>, vt: i64, vtAssert: bool, tt: i64, ttAssert: bool)

  function At(l: Landing): Pos {
    Pos(l.Plain(), l.vt, l.vtAssert, l.tt, true)
  }

  function Raw(p: Pos): seq<u8> {
    p.plain + EncodeValidity(p.vt, p.vtAssert) + EncodeValidity(p.tt, p.ttAssert)
  }

  predicate AxesLess(p: Pos, q: Pos) {
    || ValidityLess(p.vt, p.vtAssert, q.vt, q.vtAssert)
    || (p.vt == q.vt && p.vtAssert == q.vtAssert && ValidityLess(p.tt, p.ttAssert, q.tt, q.ttAssert))
  }

  predicate PosLess(p: Pos, q: Pos) {
    Lt(p.plain, q.plain) || (p.plain == q.plain && AxesLess(p, q))
  }

  /** Byte order of keys and bounds is position order, as long as plain keys are prefix-free. */
  lemma {:induction false} RawOrder(p: Pos, q: Pos)
    requires p.plain == q.plain || Splits(p.plain, q.plain)
    ensures Lt(Raw(p), Raw(q)) <==> PosLess(p, q)
    ensures Le(Raw(q), Raw(p)) <==> !PosLess(p, q)
  {
    var a, b := EncodeValidity(p.vt, p.vtAssert), EncodeValidity(p.tt, p.ttAssert);
    var c, d := EncodeValidity(q.vt, q.vtAssert), EncodeValidity(q.tt, q.ttAssert);
    EncodeValidityOrder(p.vt, p.vtAssert, q.vt, q.vtAssert);
    EncodeValidityOrder(p.tt, p.ttAssert, q.tt, q.ttAssert);
    LtConcat(a, c, b, d);
    LtConcat(p.plain, q.plain, a + b, c + d);
    Associate(p.plain, a, b);
    Associate(q.plain, c, d);
    LtIrreflexive(p.plain);
    NotLt(Raw(q), Raw(p));
  }

  lemma {:induction false} PosTotal(p: Pos, q: Pos)
    ensures PosLess(p, q) || p == q || PosLess(q, p)
    ensures !(PosLess(p, q) && PosLess(q, p)) && !PosLess(p, p)
  {
    LtTotal(p.plain, q.plain);
    LtIrreflexive(p.plain);
    if Lt(p.plain, q.plain) {
      LtAsymmetric(p.plain, q.plain);
    } else if Lt(q.plain, p.plain) {
      LtAsymmetric(q.plain, p.plain);
    }
  }

  lemma {:induction false} PosTransitive(p: Pos, q: Pos, r: Pos)
    requires PosLess(p, q) && PosLess(q, r)
    ensures PosLess(p, r)
  {
    if Lt(p.plain, q.plain) && Lt(q.plain, r.plain) {
      LtTransitive(p.plain, q.plain, r.plain);
    }
  }

  // ----- answers -----

  /** Records in key order, none with the reserved transaction time. */
  ghost predicate Ordered(cs: seq<Landing>) {
    && (forall i, j | 0 <= i < j < |cs| :: PosLess(At(cs[i]), At(cs[j])))
    && (forall i | 0 <= i < |cs| :: cs[i].tt > I64_MIN)
  }

  /** `s` was recorded by `T` and concerns an instant no later than `V`. */
  predicate VisibleAt(s: Landing, v: i64, t: i64) {
    s.vt <= v && s.tt <= t
  }

  /** Resolve-key: the assertion that wins its key as of (V, T). */
  ghost predicate WinsKey(cs: seq<Landing>, v: i64, t: i64, l: Landing) {
    && l.vtAssert && VisibleAt(l, v, t)
    && forall i | 0 <= i < |cs| && cs[i].Plain() == l.Plain() && VisibleAt(cs[i], v, t) ::
         cs[i].vt < l.vt || (cs[i].vt == l.vt && cs[i].tt <= l.tt)
  }

  /** Resolve-groups: the record that is believed at T about one instant of one key; ties go to the assertion. */
  ghost predicate WinsGroup(cs: seq<Landing>, t: i64, l: Landing) {
    && l.tt <= t
    && forall i | 0 <= i < |cs| && cs[i].Plain() == l.Plain() && cs[i].vt == l.vt && cs[i].tt <= t ::
         cs[i].tt < l.tt || (cs[i].tt == l.tt && (cs[i] == l || l.vtAssert))
  }

  ghost predicate Wins(cs: seq<Landing>, at: Option<i64>, t: i64, l: Landing) {
    match at
    case Some(v) => WinsKey(cs, v, t, l)
    case None => WinsGroup(cs, t, l)
  }

  /** The winners among the first `n` records, in key order. */
  ghost function WinnersUpTo(cs: seq<Landing>, at: Option<i64>, t: i64, n: nat): (r: seq<Landing>)
    requires n <= |cs|
  {
    if n == 0 then []
    else WinnersUpTo(cs, at, t, n - 1) + if Wins(cs, at, t, cs[n - 1]) then [cs[n - 1]] else []
  }

  ghost function Winners(cs: seq<Landing>, at: Option<i64>, t: i64): seq<Landing> {
    WinnersUpTo(cs, at, t, |cs|)
  }

  lemma {:induction false} NoWinners(cs: seq<Landing>, at: Option<i64>, t: i64, n: nat, m: nat)
    requires n <= m <= |cs|
    requires forall j | n <= j < m :: !Wins(cs, at, t, cs[j])
    ensures WinnersUpTo(cs, at, t, m) == WinnersUpTo(cs, at, t, n)
  {
    if n < m {
      NoWinners(cs, at, t, n, m - 1);
    }
  }

  lemma {:induction false} OneWinner(cs: seq<Landing>, at: Option<i64>, t: i64, n: nat, k: nat, m: nat)
    requires n <= k < m <= |cs|
    requires forall j | n <= j < m :: Wins(cs, at, t, cs[j]) <==> j == k
    ensures WinnersUpTo(cs, at, t, m) == WinnersUpTo(cs, at, t, n) + [cs[k]]
  {
    NoWinners(cs, at, t, n, k);
    NoWinners(cs, at, t, k + 1, m);
  }

  lemma {:induction false} WinnersPrefix(cs: seq<Landing>, at: Option<i64>, t: i64, n: nat, m: nat)
    requires n <= m <= |cs|
    ensures WinnersUpTo(cs, at, t, n) <= WinnersUpTo(cs, at, t, m)
  {
    if n < m {
      WinnersPrefix(cs, at, t, n, m - 1);
    }
  }

  // ----- cuts -----

  ghost predicate PosCut(cs: seq<Landing>, p: Pos, i: nat) {
    && i <= |cs|
    && (forall j | 0 <= j < i :: PosLess(At(cs[j]), p))
    && (forall j | i <= j < |cs| :: !PosLess(At(cs[j]), p))
  }

  ghost function PosSeek(cs: seq<Landing>, p: Pos): (i: nat)
    ensures i <= |cs|
  {
    if cs == [] || !PosLess(At(cs[0]), p) then 0 else 1 + PosSeek(cs[1..], p)
  }

  lemma {:induction false} PosSeekCut(cs: seq<Landing>, p: Pos)
    requires Ordered(cs)
    ensures PosCut(cs, p, PosSeek(cs, p))
  {
    if cs != [] {
      if PosLess(At(cs[0]), p) {
        PosSeekCut(cs[1..], p);
        forall j | 0 <= j < PosSeek(cs, p) ensures PosLess(At(cs[j]), p) {
          assert j > 0 ==> cs[j] == cs[1..][j - 1];
        }
        forall j | PosSeek(cs, p) <= j < |cs| ensures !PosLess(At(cs[j]), p) {
          assert cs[j] == cs[1..][j - 1];
        }
      } else {
        forall j | 0 <= j < |cs| ensures !PosLess(At(cs[j]), p) {
          if j > 0 && PosLess(At(cs[j]), p) {
            PosTransitive(At(cs[0]), At(cs[j]), p);
          }
        }
      }
    }
  }
}
