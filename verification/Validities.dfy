/** How validities get into a key: the two constructors and the coercion of a written column. */
module Validities {
  import opened Bytes
  import opened Float64
  import opened Values
  import opened Numbers
  import opened Memcmp
  import opened Tuples
  import opened SkipScan

  /** Both extremes of the time axis are kept for the engine. */
  predicate Reserved(ts: i64) {
    ts == I64_MAX || ts == I64_MIN
  }

  /** An assertion unless the second argument says otherwise. */
  function Flag(second: Option<Value>): Option<bool> {
    match second
    case None => Some(true)
    case Some(Bool(b)) => Some(b)
    case _ => None
  }

  function Stamped(ts: i64, second: Option<Value>): Option<(i64, bool)> {
    match Flag(second)
    case Some(isAssert) => if Reserved(ts) then None else Some((ts, isAssert))
    case None => None
  }

  /** `validity`: an integer number of microseconds; a float is refused. */
  function OpValidity(first: Value, second: Option<Value>): Option<(i64, bool)> {
    match first
    case Number(Int(ts)) => Stamped(ts, second)
    case _ => None
  }

  /** `dt_to_validity`, from the double of microseconds that its argument is scaled and rounded to. */
  function OpDtToValidity(micros: u64, second: Option<Value>): Option<(i64, bool)> {
    if Mag(micros) >= INFINITY then None
    else if Numeric(micros) < Numeric(FromInt(I64_MIN)) || Numeric(micros) > Numeric(FromInt(I64_MAX)) then None
    else Stamped(ToInt(micros), second)
  }

  const ASSERT_TEXT: seq<u8> := [65, 83, 83, 69, 82, 84]
  const RETRACT_TEXT: seq<u8> := [82, 69, 84, 82, 65, 67, 84]
  const TILDE: u8 := 126

  /** A written validity column, at time `now`; `parsed` is what the text, past a leading tilde, parses to. */
  function CoerceValidity(data: Value, now: i64, parsed: Option<i64>): Option<(i64, bool)> {
    match data
    case Validity(ts, isAssert) => Some((ts, isAssert))
    case Str(s) =>
      if s == ASSERT_TEXT then Some((now, true))
      else if s == RETRACT_TEXT then Some((now, false))
      else if parsed.None? || Reserved(parsed.value) then None
      else Some((parsed.value, !(s != [] && s[0] == TILDE)))
    case List(items) =>
      if |items| == 2 && items[1].Bool? then OpValidity(items[0], Some(items[1])) else None
    case _ => None
  }

  // ----- what they let through -----

  lemma {:induction false} ProductFits(q: nat, s: nat)
    requires q < 2 * HIDDEN && s <= 10
    ensures Product(q, Pow2(s)) < I64_MAX as int
  {
    Pow2Fifty();
    Pow2Monotone(s, 10);
    MulLe(Pow2(s), 0x400, q);
    MulLe(q, 2 * HIDDEN - 1, 0x400);
  }

  /** A double inside the integer range never truncates to its end: the last one is 1024 short of it. */
  lemma {:induction false} TruncatedFits(m: Magnitude)
    requires m < TOP
    ensures Truncated(m) < I64_MAX as int
  {
    var e, q: nat := m / HIDDEN, HIDDEN + m % HIDDEN;
    if 1023 <= e <= 1075 {
      DivSmaller(q, Pow2(1075 - e));
    } else if e > 1075 {
      ProductFits(q, e - 1075);
    }
  }

  /**
    * `dt_to_validity` takes exactly the doubles strictly between -2^63 and 2^63. The range check of the code lets
    * both ends through; it is the check for reserved timestamps that stops them. An integral double comes through
    * unchanged.
    */
  lemma {:induction false} DtToValidityIff(micros: u64, second: Option<Value>, low: i64, high: i64)
    requires low == I64_MIN && high == I64_MAX
    ensures OpDtToValidity(micros, second).Some? <==> Mag(micros) < TOP && Flag(second).Some?
    ensures OpDtToValidity(micros, second).Some? && Integral(Mag(micros)) && micros != NEGATIVE_ZERO ==>
              FromInt(OpDtToValidity(micros, second).value.0) == micros
    ensures Mag(micros) == TOP ==>
              Numeric(FromInt(low)) <= Numeric(micros) <= Numeric(FromInt(high)) && Reserved(ToInt(micros))
  {
    hide RoundNat, FromInt, Truncated, Scaled, Integral;
    FromIntEnds(low, high);
    NumericSigned(FromInt(low), micros);
    NumericSigned(micros, FromInt(high));
    TruncatedTop(Mag(micros));
    if Mag(micros) < TOP {
      TruncatedFits(Mag(micros));
    } else if Mag(micros) == TOP {
      TopTruncates();
    }
    if Integral(Mag(micros)) && Mag(micros) < TOP {
      BackAndForth(micros);
    }
  }

  lemma {:induction false} TopTruncates()
    ensures Truncated(TOP) == 0x8000_0000_0000_0000
  {
    TopProduct();
  }

  /** Neither constructor makes a reserved timestamp. */
  lemma {:induction false} NeverReserved(first: Value, micros: u64, second: Option<Value>)
    ensures OpValidity(first, second).Some? ==> !Reserved(OpValidity(first, second).value.0)
    ensures OpDtToValidity(micros, second).Some? ==> !Reserved(OpDtToValidity(micros, second).value.0)
  {
    hide FromInt, Truncated, Scaled;
  }

  /** Coercion lets a terminal validity through exactly if it was one, or is the retraction of a clock at the start. */
  lemma {:induction false} CoercedTerminalIff(data: Value, now: i64, parsed: Option<i64>)
    ensures CoerceValidity(data, now, parsed) == Some(TERMINAL) <==>
            data == Validity(TERMINAL.0, TERMINAL.1) || (data == Str(RETRACT_TEXT) && now == I64_MIN)
  {
  }

  /** A value that one of the two constructors returned. */
  ghost predicate Made(data: Value) {
    && data.Validity?
    && (|| (exists first, second :: OpValidity(first, second) == Some((data.ts, data.isAssert)))
        || (exists micros, second :: OpDtToValidity(micros, second) == Some((data.ts, data.isAssert))))
  }

  /** Whatever is written, the time-travel scan gets past the row. */
  lemma {:induction false} WrittenRowPassed(rel: u64, key: Tuple, data: Value, now: i64, parsed: Option<i64>,
        validAt: i64)
    requires KeyTuple(key) && now != I64_MIN && CoerceValidity(data, now, parsed).Some?
    requires data.Validity? ==> Made(data)
    ensures var vld := CoerceValidity(data, now, parsed).value;
            var r := Record(key, vld.0, vld.1);
            Lt(KeyOf(rel, r), KeyOf(rel, Check(r, validAt).1))
  {
    hide KeyOf, Lt, KeyTuple, Made;
    var vld := CoerceValidity(data, now, parsed).value;
    CoercedTerminalIff(data, now, parsed);
    if data.Validity? {
      MadeNotReserved(data);
    }
    SeekPastRow(rel, Record(key, vld.0, vld.1), validAt);
  }

  lemma {:induction false} MadeNotReserved(data: Value)
    requires Made(data)
    ensures !Reserved(data.ts)
  {
    hide OpDtToValidity, OpValidity;
    var made := Some((data.ts, data.isAssert));
    if first, second :| OpValidity(first, second) == made {
      NeverReserved(first, 0, second);
    } else {
      var micros, second :| OpDtToValidity(micros, second) == made;
      NeverReserved(data, micros, second);
    }
  }

  // ----- ordinary writes -----

  /** The flag is an assertion by default. */
  lemma {:induction false} DefaultAsserts(first: Value, micros: u64)
    ensures OpValidity(first, None) == OpValidity(first, Some(Bool(true)))
    ensures OpDtToValidity(micros, None) == OpDtToValidity(micros, Some(Bool(true)))
  {
    hide Numeric, FromInt, Truncated;
  }

  /** A constructed validity is written as it was asked for: timestamp and flag come back. */
  lemma {:induction false} ConstructedIsWritten(ts: i64, isAssert: bool, now: i64, parsed: Option<i64>)
    requires !Reserved(ts)
    ensures OpValidity(Number(Int(ts)), Some(Bool(isAssert))) == Some((ts, isAssert))
    ensures CoerceValidity(Validity(ts, isAssert), now, parsed) == Some((ts, isAssert))
    ensures CoerceValidity(List([Number(Int(ts)), Bool(isAssert)]), now, parsed) == Some((ts, isAssert))
  {
  }

  /** `ASSERT` and `RETRACT` stand for the current time, with opposite flags. */
  lemma {:induction false} NamedForms(now: i64, parsed: Option<i64>)
    ensures CoerceValidity(Str(ASSERT_TEXT), now, parsed) == Some((now, true))
    ensures CoerceValidity(Str(RETRACT_TEXT), now, parsed) == Some((now, false))
  {
    assert ASSERT_TEXT[0] != RETRACT_TEXT[0];
  }

  /** A text and the same text after a tilde give one timestamp with opposite flags; a reserved one is refused. */
  lemma {:induction false} TildeRetracts(text: seq<u8>, now: i64, parsed: Option<i64>)
    requires text != ASSERT_TEXT && text != RETRACT_TEXT && (text == [] || text[0] != TILDE)
    ensures var plain := CoerceValidity(Str(text), now, parsed);
            var tilded := CoerceValidity(Str([TILDE] + text), now, parsed);
            if parsed.Some? && !Reserved(parsed.value)
            then plain == Some((parsed.value, true)) && tilded == Some((parsed.value, false))
            else plain == None && tilded == None
  {
    var tilded := [TILDE] + text;
    assert tilded[0] == TILDE && ASSERT_TEXT[0] != TILDE && RETRACT_TEXT[0] != TILDE;
  }

  /** Only validities, strings and lists of an integer and a boolean are ever taken. */
  lemma {:induction false} OtherFormsRefused(data: Value, now: i64, parsed: Option<i64>)
    requires !data.Validity? && !data.Str?
    ensures CoerceValidity(data, now, parsed).Some? <==>
            exists ts: i64, isAssert :: data == List([Number(Int(ts)), Bool(isAssert)]) && !Reserved(ts)
  {
    if data.List? && |data.items| == 2 {
      assert data.items == [data.items[0], data.items[1]];
    }
  }
}
