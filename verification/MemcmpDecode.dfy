/** Reading encoded keys back, and the proof that reading undoes writing. */
module MemcmpDecode {
  import opened Bytes
  import opened Values
  import opened Memcmp
  import MemcmpOrder
  import Float64

  /** `None` stands for the panic that malformed bytes cause. */
  type Decoded<T> = Option<(T, seq<u8>)>

  function ReadU64(bs: seq<u8>): u64
    requires |bs| == 8
  {
    PowWidths();
    FromBigEndian(bs)
  }

  function ReadU32(bs: seq<u8>): u32
    requires |bs| == 4
  {
    PowWidths();
    FromBigEndian(bs)
  }

  function ReadU16(bs: seq<u8>): u16
    requires |bs| == 2
  {
    PowWidths();
    FromBigEndian(bs)
  }

  /** Full groups until one whose marker announces padding. */
  function DecodeBytes(data: seq<u8>): (r: Decoded<seq<u8>>)
    ensures r.Some? ==> |r.value.1| < |data|
  {
    if |data| < 9 then None
    else
      var pad := ENC_MARKER - data[8];
      if pad == 0 then
        match DecodeBytes(data[9..])
        case None => None
        case Some((key, rest)) => Some((data[..8] + key, rest))
      else if pad > ENC_GROUP_SIZE then None
      else Some((data[..8 - pad], data[9..]))
  }

  function DecodeNum(bs: seq<u8>): (r: Decoded<Num>)
    ensures r.Some? ==> |r.value.1| < |bs|
  {
    if |bs| < 9 then None
    else
      var f := OrderDecodeF64(ReadU64(bs[..8]));
      if bs[8] == IS_FLOAT then Some((Float(f), bs[9..]))
      else if bs[8] == IS_EXACT_INT then Some((Int(Float64.ToInt(f)), bs[9..]))
      else if bs[8] == IS_APPROX_INT then
        if |bs| < 17 then None else Some((Int(OrderDecodeI64(ReadU64(bs[9..17]))), bs[17..]))
      else None
  }

  function DecodeUuid(bs: seq<u8>): (r: Decoded<Value>)
    ensures r.Some? ==> |r.value.1| < |bs|
  {
    if |bs| < 16 then None
    else Some((Uuid(ReadU32(bs[4..8]), ReadU16(bs[2..4]), ReadU16(bs[0..2]), bs[8..16]), bs[16..]))
  }

  function DecodeValidity(bs: seq<u8>): (r: Decoded<Value>)
    ensures r.Some? ==> |r.value.1| < |bs|
  {
    if |bs| < 9 then None
    else Some((Validity(OrderDecodeI64(Complement(ReadU64(bs[..8]))), bs[8] == 0), bs[9..]))
  }

  function DecodeSingles(n: nat, bs: seq<u8>): (r: Decoded<seq<u32>>)
    ensures r.Some? ==> |r.value.1| <= |bs|
  {
    if n == 0 then Some(([], bs))
    else if |bs| < 4 then None
    else
      match DecodeSingles(n - 1, bs[4..])
      case None => None
      case Some((xs, rest)) => Some(([ReadU32(bs[..4])] + xs, rest))
  }

  function DecodeDoubles(n: nat, bs: seq<u8>): (r: Decoded<seq<u64>>)
    ensures r.Some? ==> |r.value.1| <= |bs|
  {
    if n == 0 then Some(([], bs))
    else if |bs| < 8 then None
    else
      match DecodeDoubles(n - 1, bs[8..])
      case None => None
      case Some((ys, rest)) => Some(([ReadU64(bs[..8])] + ys, rest))
  }

  function DecodeVector(bs: seq<u8>): (r: Decoded<Value>)
    ensures r.Some? ==> |r.value.1| < |bs|
  {
    if |bs| < 9 then None
    else
      var n := ReadU64(bs[1..9]);
      if bs[0] == VEC_F32 then
        match DecodeSingles(n, bs[9..])
        case None => None
        case Some((xs, rest)) => Some((Vec(F32(xs)), rest))
      else if bs[0] == VEC_F64 then
        match DecodeDoubles(n, bs[9..])
        case None => None
        case Some((ys, rest)) => Some((Vec(F64(ys)), rest))
      else None
  }

  /** Insertion into an ordered set; an equal element already there stays. */
  function Insert(s: seq<Value>, v: Value): seq<Value> {
    if s == [] then [v]
    else if ValueLess(s[0], v) then [s[0]] + Insert(s[1..], v)
    else if ValueLess(v, s[0]) then [v] + s
    else s
  }

  function InsertAll(s: seq<Value>, vs: seq<Value>): seq<Value>
    decreases |vs|
  {
    if vs == [] then s else InsertAll(Insert(s, vs[0]), vs[1..])
  }

  function Decode(bs: seq<u8>): (r: Decoded<Value>)
    ensures r.Some? ==> |r.value.1| < |bs|
    decreases |bs|, 0
  {
    if bs == [] then None
    else
      var t, rest := bs[0], bs[1..];
      if t == NULL_TAG then Some((Null, rest))
      else if t == FALSE_TAG then Some((Bool(false), rest))
      else if t == TRUE_TAG then Some((Bool(true), rest))
      else if t == NUM_TAG then
        match DecodeNum(rest) case None => None case Some((n, next)) => Some((Number(n), next))
      else if t == STR_TAG then
        match DecodeBytes(rest) case None => None case Some((s, next)) => Some((Str(s), next))
      else if t == BYTES_TAG then
        match DecodeBytes(rest) case None => None case Some((s, next)) => Some((Blob(s), next))
      else if t == UUID_TAG then DecodeUuid(rest)
      else if t == LIST_TAG then
        match DecodeItems(rest) case None => None case Some((vs, next)) => Some((List(vs), next))
      else if t == SET_TAG then
        match DecodeItems(rest) case None => None case Some((vs, next)) => Some((Set(InsertAll([], vs)), next))
      else if t == VLD_TAG then DecodeValidity(rest)
      else if t == BOT_TAG then Some((Bot, rest))
      else if t == VEC_TAG then DecodeVector(rest)
      else None
  }

  /** Values up to the terminator, which is consumed. */
  function DecodeItems(bs: seq<u8>): (r: Decoded<seq<Value>>)
    ensures r.Some? ==> |r.value.1| < |bs|
    decreases |bs|, 1
  {
    if bs == [] then None
    else if bs[0] == INIT_TAG then Some(([], bs[1..]))
    else
      match Decode(bs)
      case None => None
      case Some((v, next)) =>
        match DecodeItems(next)
        case None => None
        case Some((vs, rest)) => Some(([v] + vs, rest))
  }

  /** Values up to the end of the key. */
  function DecodeAll(bs: seq<u8>): Option<Tuple>
    decreases |bs|
  {
    if bs == [] then Some([])
    else
      match Decode(bs)
      case None => None
      case Some((v, next)) =>
        match DecodeAll(next)
        case None => None
        case Some(vs) => Some([v] + vs)
  }

  /** The eight bytes of relation id are skipped. */
  function DecodeTuple(key: seq<u8>): Option<Tuple> {
    if |key| < 8 then None else DecodeAll(key[8..])
  }

  // ----- decoding inverts encoding -----

  lemma {:induction false} ReadU64Inverse(u: u64)
    ensures ReadU64(U64Bytes(u)) == u
  {
    PowWidths();
    BigEndianInverse(8, u);
  }

  lemma {:induction false} ReadU32Inverse(u: u32)
    ensures ReadU32(U32Bytes(u)) == u
  {
    PowWidths();
    BigEndianInverse(4, u);
  }

  lemma {:induction false} ReadU16Inverse(u: u16)
    ensures ReadU16(U16Bytes(u)) == u
  {
    PowWidths();
    BigEndianInverse(2, u);
  }

  lemma {:induction false} DecodeBytesInverse(key: seq<u8>, rest: seq<u8>)
    ensures DecodeBytes(EncodeBytes(key) + rest) == Some((key, rest))
    decreases |key|
  {
    var data := EncodeBytes(key) + rest;
    if |key| >= 8 {
      assert data == key[..8] + [ENC_MARKER] + (EncodeBytes(key[8..]) + rest);
      assert data[..8] == key[..8] && data[8] == ENC_MARKER;
      assert data[9..] == EncodeBytes(key[8..]) + rest;
      DecodeBytesInverse(key[8..], rest);
      assert key[..8] + key[8..] == key;
    } else {
      assert data == key + Zeros(8 - |key|) + [ENC_MARKER - (8 - |key|)] + rest;
      assert data[8] == ENC_MARKER - (8 - |key|);
      assert data[9..] == rest;
      assert data[..|key|] == key;
    }
  }

  lemma {:induction false} NumHeader(n: Num, rest: seq<u8>)
    ensures var bs := EncodeNum(n) + rest;
            |bs| >= 9 && OrderDecodeF64(ReadU64(bs[..8])) == AsFloat(n) && bs[8..] == NumSuffix(n) + rest
  {
    var f := AsFloat(n);
    MemcmpOrder.OrderEncodeF64Monotone(f, f);
    ReadU64Inverse(OrderEncodeF64(f));
    Associate(U64Bytes(OrderEncodeF64(f)), NumSuffix(n), rest);
    TakeDrop(U64Bytes(OrderEncodeF64(f)), NumSuffix(n) + rest);
  }

  lemma {:induction false} DecodeNumInverse(n: Num, rest: seq<u8>)
    ensures DecodeNum(EncodeNum(n) + rest) == Some((n, rest))
  {
    var bs := EncodeNum(n) + rest;
    NumHeader(n, rest);
    assert bs[8] == bs[8..][0] && bs[9..] == bs[8..][1..];
    if n.Int? {
      if -EXACT_INT_BOUND < n.i < EXACT_INT_BOUND {
        Float64.ToIntFromInt(n.i);
      } else {
        ApproxIntInverse(n.i, bs, rest);
      }
    }
  }

  lemma {:induction false} ApproxIntInverse(i: i64, bs: seq<u8>, rest: seq<u8>)
    requires |bs| >= 9 && bs[8..] == [IS_APPROX_INT] + U64Bytes(OrderEncodeI64(i)) + rest
    ensures |bs| >= 17 && bs[9..17] == U64Bytes(OrderEncodeI64(i)) && bs[17..] == rest
    ensures OrderDecodeI64(ReadU64(bs[9..17])) == i
  {
    assert bs[9..17] == bs[8..][1..9] && bs[17..] == bs[8..][9..];
    ReadU64Inverse(OrderEncodeI64(i));
    MemcmpOrder.OrderEncodeI64Monotone(i, i);
  }

  lemma {:induction false} DecodeUuidInverse(v: Value, rest: seq<u8>)
    requires v.Uuid? && WellFormed(v)
    ensures DecodeUuid(EncodeUuid(v) + rest) == Some((v, rest))
  {
    var bs := EncodeUuid(v) + rest;
    ReadU16Inverse(v.hi);
    ReadU16Inverse(v.mid);
    ReadU32Inverse(v.low);
    assert bs[0..2] == U16Bytes(v.hi);
    assert bs[2..4] == U16Bytes(v.mid);
    assert bs[4..8] == U32Bytes(v.low);
    assert bs[8..16] == v.rest;
    assert bs[16..] == rest;
  }

  lemma {:induction false} DecodeValidityInverse(t: i64, a: bool, rest: seq<u8>)
    ensures DecodeValidity((EncodeValidity(t, a) + rest)[1..]) == Some((Validity(t, a), rest))
  {
    var u := Complement(OrderEncodeI64(t));
    var bs := (EncodeValidity(t, a) + rest)[1..];
    ReadU64Inverse(u);
    MemcmpOrder.OrderEncodeI64Monotone(t, t);
    assert bs[..8] == U64Bytes(u);
    assert bs[8] == if a then 0 else 1;
    assert bs[9..] == rest;
  }

  lemma {:induction false} DecodeSinglesInverse(xs: seq<u32>, rest: seq<u8>)
    ensures DecodeSingles(|xs|, EncodeSingles(xs) + rest) == Some((xs, rest))
  {
    if xs == [] {
      assert EncodeSingles(xs) + rest == rest;
    } else {
      ReadU32Inverse(xs[0]);
      Associate(U32Bytes(xs[0]), EncodeSingles(xs[1..]), rest);
      TakeDrop(U32Bytes(xs[0]), EncodeSingles(xs[1..]) + rest);
      DecodeSinglesInverse(xs[1..], rest);
      assert xs == [xs[0]] + xs[1..];
    }
  }

  lemma {:induction false} DecodeDoublesInverse(ys: seq<u64>, rest: seq<u8>)
    ensures DecodeDoubles(|ys|, EncodeDoubles(ys) + rest) == Some((ys, rest))
  {
    if ys == [] {
      assert EncodeDoubles(ys) + rest == rest;
    } else {
      ReadU64Inverse(ys[0]);
      Associate(U64Bytes(ys[0]), EncodeDoubles(ys[1..]), rest);
      TakeDrop(U64Bytes(ys[0]), EncodeDoubles(ys[1..]) + rest);
      DecodeDoublesInverse(ys[1..], rest);
      assert ys == [ys[0]] + ys[1..];
    }
  }

  lemma {:induction false} VectorHeader(tag: u8, n: u64, body: seq<u8>, rest: seq<u8>)
    ensures var bs := [tag] + U64Bytes(n) + body + rest;
            bs[0] == tag && ReadU64(bs[1..9]) == n && bs[9..] == body + rest
  {
    var bs := [tag] + U64Bytes(n) + body + rest;
    ReadU64Inverse(n);
    assert bs[1..9] == U64Bytes(n);
  }

  lemma {:induction false} DecodeVectorInverse(v: Vector, rest: seq<u8>)
    requires WellFormed(Vec(v))
    ensures DecodeVector(EncodeVector(v) + rest) == Some((Vec(v), rest))
  {
    match v {
      case F32(xs) =>
        VectorHeader(VEC_F32, |xs|, EncodeSingles(xs), rest);
        DecodeSinglesInverse(xs, rest);
      case F64(ys) =>
        VectorHeader(VEC_F64, |ys|, EncodeDoubles(ys), rest);
        DecodeDoublesInverse(ys, rest);
    }
  }

  lemma {:induction false} InsertLast(s: seq<Value>, v: Value)
    requires forall i | 0 <= i < |s| :: ValueLess(s[i], v)
    ensures Insert(s, v) == s + [v]
  {
    if s != [] {
      InsertLast(s[1..], v);
      assert s == [s[0]] + s[1..];
    }
  }

  /** Reading a set back in its stored order rebuilds the same set. */
  lemma {:induction false} InsertAscending(s: seq<Value>, vs: seq<Value>)
    requires Ascending(s + vs)
    ensures InsertAll(s, vs) == s + vs
    decreases |vs|
  {
    if vs == [] {
      assert s + vs == s;
    } else {
      forall i | 0 <= i < |s| ensures ValueLess(s[i], vs[0]) {
        assert (s + vs)[i] == s[i] && (s + vs)[|s|] == vs[0];
      }
      InsertLast(s, vs[0]);
      assert s + [vs[0]] + vs[1..] == s + vs;
      InsertAscending(s + [vs[0]], vs[1..]);
    }
  }

  lemma {:induction false} TaggedTail(tag: u8, x: seq<u8>, rest: seq<u8>)
    ensures ([tag] + x + rest)[0] == tag
    ensures ([tag] + x + rest)[1..] == x + rest
  {
  }

  lemma {:induction false} OneByte(tag: u8, rest: seq<u8>)
    ensures ([tag] + rest)[0] == tag && ([tag] + rest)[1..] == rest
  {
  }

  lemma {:induction false} ValidityTagged(t: i64, a: bool, rest: seq<u8>)
    ensures |EncodeValidity(t, a)| > 0 && (EncodeValidity(t, a) + rest)[0] == VLD_TAG
  {
  }

  lemma {:induction false} DecodeAtomInverse(v: Value, rest: seq<u8>)
    requires WellFormed(v) && (v.Null? || v.Bool? || v.Bot? || v.Validity?)
    ensures Decode(Encode(v) + rest) == Some((v, rest))
  {
    hide DecodeValidity, DecodeNum, DecodeBytes, DecodeUuid, DecodeItems, DecodeVector, EncodeValidity;
    if v.Validity? {
      ValidityTagged(v.ts, v.isAssert, rest);
      DecodeValidityInverse(v.ts, v.isAssert, rest);
    } else {
      OneByte(Encode(v)[0], rest);
      assert Encode(v) == [Encode(v)[0]];
    }
  }

  lemma {:induction false} DecodeTextInverse(v: Value, rest: seq<u8>)
    requires WellFormed(v) && (v.Str? || v.Blob?)
    ensures Decode(Encode(v) + rest) == Some((v, rest))
  {
    var s := if v.Str? then v.s else v.bytes;
    TaggedTail(Encode(v)[0], EncodeBytes(s), rest);
    DecodeBytesInverse(s, rest);
  }

  lemma {:induction false} DecodeTaggedInverse(v: Value, rest: seq<u8>)
    requires WellFormed(v) && (v.Number? || v.Uuid? || v.Vec?)
    ensures Decode(Encode(v) + rest) == Some((v, rest))
  {
    match v {
      case Number(n) =>
        TaggedTail(NUM_TAG, EncodeNum(n), rest);
        DecodeNumInverse(n, rest);
      case Uuid(_, _, _, _) =>
        TaggedTail(UUID_TAG, EncodeUuid(v), rest);
        DecodeUuidInverse(v, rest);
      case Vec(x) =>
        TaggedTail(VEC_TAG, EncodeVector(x), rest);
        DecodeVectorInverse(x, rest);
    }
  }

  /** The round trip: any trailing bytes are left untouched. */
  lemma {:induction false} DecodeInverse(v: Value, rest: seq<u8>)
    requires WellFormed(v)
    ensures Decode(Encode(v) + rest) == Some((v, rest))
    decreases v, 1
  {
    match v {
      case List(items) =>
        DecodeItemsInverse(items, rest);
        DecodeSequence(LIST_TAG, EncodeItems(items), items, rest);
      case Set(elems) =>
        DecodeItemsInverse(elems, rest);
        assert [] + elems == elems;
        InsertAscending([], elems);
        DecodeSequence(SET_TAG, EncodeItems(elems), elems, rest);
      case _ =>
        if v.Null? || v.Bool? || v.Bot? || v.Validity? {
          DecodeAtomInverse(v, rest);
        } else if v.Str? || v.Blob? {
          DecodeTextInverse(v, rest);
        } else {
          DecodeTaggedInverse(v, rest);
        }
    }
  }

  lemma {:induction false} TerminatedTail(tag: u8, x: seq<u8>, rest: seq<u8>)
    ensures ([tag] + x + [INIT_TAG] + rest)[0] == tag
    ensures ([tag] + x + [INIT_TAG] + rest)[1..] == x + ([INIT_TAG] + rest)
  {
  }

  lemma {:induction false} DecodeSequence(tag: u8, x: seq<u8>, items: seq<Value>, rest: seq<u8>)
    requires tag == LIST_TAG || tag == SET_TAG
    requires DecodeItems(x + ([INIT_TAG] + rest)) == Some((items, rest))
    ensures Decode([tag] + x + [INIT_TAG] + rest) ==
            Some((if tag == LIST_TAG then List(items) else Set(InsertAll([], items)), rest))
  {
    TerminatedTail(tag, x, rest);
  }

  lemma {:induction false} DecodeItemsStep(bs: seq<u8>, v: Value, next: seq<u8>)
    requires bs != [] && bs[0] != INIT_TAG && Decode(bs) == Some((v, next))
    requires DecodeItems(next).Some?
    ensures DecodeItems(bs) == Some(([v] + DecodeItems(next).value.0, DecodeItems(next).value.1))
  {
  }

  lemma {:induction false} DecodeItemsInverse(items: seq<Value>, rest: seq<u8>)
    requires AllWellFormed(items)
    ensures DecodeItems(EncodeItems(items) + ([INIT_TAG] + rest)) == Some((items, rest))
    decreases items, 0
  {
    var tail := [INIT_TAG] + rest;
    if items == [] {
      assert EncodeItems(items) + tail == tail;
      assert tail[1..] == rest;
    } else {
      var next := EncodeItems(items[1..]) + tail;
      Associate(Encode(items[0]), EncodeItems(items[1..]), tail);
      DecodeInverse(items[0], next);
      DecodeItemsInverse(items[1..], rest);
      DecodeItemsStep(Encode(items[0]) + next, items[0], next);
      assert items == [items[0]] + items[1..];
    }
  }

  lemma {:induction false} DecodeAllInverse(t: Tuple)
    requires AllWellFormed(t)
    ensures DecodeAll(EncodeItems(t)) == Some(t)
  {
    if t != [] {
      DecodeInverse(t[0], EncodeItems(t[1..]));
      DecodeAllInverse(t[1..]);
      assert t == [t[0]] + t[1..];
    }
  }

  /** Whole keys round-trip. */
  lemma {:induction false} DecodeTupleInverse(rel: u64, t: Tuple)
    requires AllWellFormed(t)
    ensures DecodeTuple(EncodeKey(rel, t)) == Some(t)
  {
    DecodeAllInverse(t);
    assert EncodeKey(rel, t)[8..] == EncodeItems(t);
  }
}
