/** The encoder and decoder as they run: a growing byte buffer, index loops, offsets. */
module MemcmpCodec {
  import opened Bytes
  import opened Values
  import opened Memcmp
  import opened MemcmpDecode

  class KeyBuffer {
    var buf: seq<u8>

    constructor ()
      ensures buf == []
    {
      buf := [];
    }

    method WriteAll(bs: seq<u8>)
      modifies this
      ensures buf == old(buf) + bs
    {
      buf := buf + bs;
    }

    method WriteBytes(key: seq<u8>)
      modifies this
      ensures buf == old(buf) + EncodeBytes(key)
    {
      var len := |key|;
      var index := 0;
      while index <= len
        invariant index % 8 == 0
        invariant index > len ==> buf == old(buf) + EncodeBytes(key)
        invariant index <= len ==> buf + EncodeBytes(key[index..]) == old(buf) + EncodeBytes(key)
      {
        ghost var before := buf;
        var remain := len - index;
        var pad := 0;
        if remain > ENC_GROUP_SIZE {
          WriteAll(key[index..index + ENC_GROUP_SIZE]);
        } else {
          pad := ENC_GROUP_SIZE - remain;
          WriteAll(key[index..]);
          WriteAll(Zeros(pad));
        }
        WriteAll([ENC_MARKER - pad]);
        GroupWritten(before, buf, key, index);
        index := index + ENC_GROUP_SIZE;
      }
    }

    method WriteNum(n: Num)
      modifies this
      ensures buf == old(buf) + EncodeNum(n)
    {
      WriteAll(U64Bytes(OrderEncodeF64(AsFloat(n))));
      ghost var head := buf;
      match n {
        case Int(i) =>
          if i > -EXACT_INT_BOUND && i < EXACT_INT_BOUND {
            WriteAll([IS_EXACT_INT]);
          } else {
            WriteAll([IS_APPROX_INT]);
            WriteAll(U64Bytes(OrderEncodeI64(i)));
            Associate(head, [IS_APPROX_INT], U64Bytes(OrderEncodeI64(i)));
          }
        case Float(_) =>
          WriteAll([IS_FLOAT]);
      }
      Associate(old(buf), U64Bytes(OrderEncodeF64(AsFloat(n))), NumSuffix(n));
    }

    method WriteSingles(xs: seq<u32>)
      modifies this
      ensures buf == old(buf) + EncodeSingles(xs)
    {
      assert xs[0..] == xs;
      for i := 0 to |xs|
        invariant buf + EncodeSingles(xs[i..]) == old(buf) + EncodeSingles(xs)
      {
        Associate(buf, U32Bytes(xs[i]), EncodeSingles(xs[i + 1..]));
        assert xs[i..][1..] == xs[i + 1..];
        WriteAll(U32Bytes(xs[i]));
      }
    }

    method WriteDoubles(ys: seq<u64>)
      modifies this
      ensures buf == old(buf) + EncodeDoubles(ys)
    {
      assert ys[0..] == ys;
      for i := 0 to |ys|
        invariant buf + EncodeDoubles(ys[i..]) == old(buf) + EncodeDoubles(ys)
      {
        Associate(buf, U64Bytes(ys[i]), EncodeDoubles(ys[i + 1..]));
        assert ys[i..][1..] == ys[i + 1..];
        WriteAll(U64Bytes(ys[i]));
      }
    }

    method WriteVector(v: Vector)
      requires WellFormed(Vec(v))
      modifies this
      ensures buf == old(buf) + EncodeVector(v)
    {
      match v {
        case F32(xs) =>
          WriteAll([VEC_F32]);
          WriteAll(U64Bytes(|xs|));
          WriteSingles(xs);
          Associate(old(buf) + [VEC_F32], U64Bytes(|xs|), EncodeSingles(xs));
          Associate(old(buf), [VEC_F32], U64Bytes(|xs|) + EncodeSingles(xs));
          Associate([VEC_F32], U64Bytes(|xs|), EncodeSingles(xs));
        case F64(ys) =>
          WriteAll([VEC_F64]);
          WriteAll(U64Bytes(|ys|));
          WriteDoubles(ys);
          Associate(old(buf) + [VEC_F64], U64Bytes(|ys|), EncodeDoubles(ys));
          Associate(old(buf), [VEC_F64], U64Bytes(|ys|) + EncodeDoubles(ys));
          Associate([VEC_F64], U64Bytes(|ys|), EncodeDoubles(ys));
      }
    }

    method WriteUuid(v: Value)
      requires v.Uuid?
      modifies this
      ensures buf == old(buf) + EncodeUuid(v)
    {
      WriteAll(U16Bytes(v.hi));
      WriteAll(U16Bytes(v.mid));
      WriteAll(U32Bytes(v.low));
      WriteAll(v.rest);
    }

    method WriteValue(v: Value)
      requires WellFormed(v)
      modifies this
      ensures buf == old(buf) + Encode(v)
      decreases v, 1
    {
      if v.List? {
        WriteSequence(LIST_TAG, v.items);
      } else if v.Set? {
        WriteSequence(SET_TAG, v.elems);
      } else if v.Validity? {
        WriteAll(EncodeValidity(v.ts, v.isAssert));
      } else {
        WriteScalar(v);
      }
    }

    method WriteScalar(v: Value)
      requires WellFormed(v) && !v.List? && !v.Set? && !v.Validity?
      modifies this
      ensures buf == old(buf) + Encode(v)
    {
      var tag := Tag(v);
      WriteAll([tag]);
      ghost var body: seq<u8> := [];
      assert buf + [] == buf;
      match v {
        case Vec(x) => body := EncodeVector(x); WriteVector(x);
        case Number(n) => body := EncodeNum(n); WriteNum(n);
        case Str(s) => body := EncodeBytes(s); WriteBytes(s);
        case Blob(s) => body := EncodeBytes(s); WriteBytes(s);
        case Uuid(_, _, _, _) => body := EncodeUuid(v); WriteUuid(v);
        case _ =>
      }
      Associate(old(buf), [tag], body);
      ScalarEncoding(v, body);
    }

    method WriteSequence(tag: u8, items: seq<Value>)
      requires AllWellFormed(items)
      modifies this
      ensures buf == old(buf) + ([tag] + EncodeItems(items) + [INIT_TAG])
      decreases items, 1
    {
      WriteAll([tag]);
      WriteItems(items);
      WriteAll([INIT_TAG]);
      Associate(old(buf), [tag], EncodeItems(items));
      Associate(old(buf), [tag] + EncodeItems(items), [INIT_TAG]);
    }

    method WriteItems(items: seq<Value>)
      requires AllWellFormed(items)
      modifies this
      ensures buf == old(buf) + EncodeItems(items)
      decreases items, 0
    {
      assert items[0..] == items;
      for i := 0 to |items|
        invariant AllWellFormed(items[i..])
        invariant buf + EncodeItems(items[i..]) == old(buf) + EncodeItems(items)
      {
        assert items[i..][0] == items[i] && items[i..][1..] == items[i + 1..];
        Associate(buf, Encode(items[i]), EncodeItems(items[i + 1..]));
        WriteValue(items[i]);
      }
    }
  }

  function Tag(v: Value): u8 {
    match v
    case Null => NULL_TAG
    case Bool(b) => if b then TRUE_TAG else FALSE_TAG
    case Vec(_) => VEC_TAG
    case Number(_) => NUM_TAG
    case Str(_) => STR_TAG
    case Blob(_) => BYTES_TAG
    case Uuid(_, _, _, _) => UUID_TAG
    case List(_) => LIST_TAG
    case Set(_) => SET_TAG
    case Validity(_, _) => VLD_TAG
    case Bot => BOT_TAG
  }

  lemma {:induction false} ScalarEncoding(v: Value, body: seq<u8>)
    requires WellFormed(v) && !v.List? && !v.Set? && !v.Validity?
    requires body == match v
                     case Vec(x) => EncodeVector(x)
                     case Number(n) => EncodeNum(n)
                     case Str(s) => EncodeBytes(s)
                     case Blob(s) => EncodeBytes(s)
                     case Uuid(_, _, _, _) => EncodeUuid(v)
                     case _ => []
    ensures Encode(v) == [Tag(v)] + body
  {
  }

  lemma {:induction false} GroupWritten(before: seq<u8>, after: seq<u8>, key: seq<u8>, index: nat)
    requires index <= |key|
    requires var remain := |key| - index;
             after == if remain > 8 then before + key[index..index + 8] + [ENC_MARKER]
                      else before + key[index..] + Zeros(8 - remain) + [ENC_MARKER - (8 - remain)]
    ensures index + 8 <= |key| ==> after + EncodeBytes(key[index + 8..]) == before + EncodeBytes(key[index..])
    ensures index + 8 > |key| ==> after == before + EncodeBytes(key[index..])
  {
    var k := key[index..];
    if |k| >= 8 {
      assert k[..8] == key[index..index + 8] && k[8..] == key[index + 8..];
      assert |k| == 8 ==> k == k[..8] && Zeros(0) == [];
    }
  }

  method EncodeAsKey(rel: u64, t: Tuple) returns (key: seq<u8>)
    requires AllWellFormed(t)
    ensures key == EncodeKey(rel, t)
  {
    var ret := new KeyBuffer();
    ret.WriteAll(U64Bytes(rel));
    ret.WriteItems(t);
    key := ret.buf;
  }

  /** What was collected so far, put in front of what decoding the remainder yields. */
  ghost function Prefixed<T>(collected: seq<T>, r: Decoded<seq<T>>): Decoded<seq<T>> {
    match r
    case None => None
    case Some((more, rest)) => Some((collected + more, rest))
  }

  lemma {:induction false} PrefixedTwice<T>(a: seq<T>, b: seq<T>, r: Decoded<seq<T>>)
    ensures Prefixed([], r) == r
    ensures Prefixed(a, Prefixed(b, r)) == Prefixed(a + b, r)
  {
    if r.Some? {
      Associate(a, b, r.value.0);
      assert [] + r.value.0 == r.value.0;
    }
  }

  method ReadBytes(data: seq<u8>) returns (r: Decoded<seq<u8>>)
    ensures r == DecodeBytes(data)
  {
    var key: seq<u8> := [];
    var offset := 0;
    assert data[0..] == data;
    PrefixedTwice([], [], DecodeBytes(data));
    while offset + 9 <= |data|
      invariant offset <= |data|
      invariant DecodeBytes(data) == Prefixed(key, DecodeBytes(data[offset..]))
      decreases |data| - offset
    {
      var chunk := data[offset..offset + 9];
      ghost var tail := data[offset..];
      assert tail[..8] == chunk[..8] && tail[8] == chunk[8] && tail[9..] == data[offset + 9..];
      offset := offset + 9;
      var pad := ENC_MARKER - chunk[8];
      if pad == 0 {
        assert DecodeBytes(tail) == Prefixed(chunk[..8], DecodeBytes(data[offset..]));
        PrefixedTwice(key, chunk[..8], DecodeBytes(data[offset..]));
        key := key + chunk[..8];
      } else if pad > ENC_GROUP_SIZE {
        return None;
      } else {
        assert tail[..8 - pad] == chunk[..8 - pad];
        return Some((key + chunk[..8 - pad], data[offset..]));
      }
    }
    return None;
  }

  /** One value off the front of a key; a list or set is read element by element up to its terminator. */
  method ReadValue(bs: seq<u8>) returns (r: Decoded<Value>)
    ensures r == Decode(bs)
    decreases |bs|, 0
  {
    if bs == [] {
      return None;
    }
    var t, rest := bs[0], bs[1..];
    if t == STR_TAG || t == BYTES_TAG {
      var s := ReadBytes(rest);
      match s {
        case None => return None;
        case Some((text, next)) => return Some((if t == STR_TAG then Str(text) else Blob(text), next));
      }
    } else if t == LIST_TAG || t == SET_TAG {
      var vs := ReadItems(rest);
      match vs {
        case None => return None;
        case Some((items, next)) =>
          return Some((if t == LIST_TAG then List(items) else Set(InsertAll([], items)), next));
      }
    } else {
      r := ReadLeaf(t, rest);
    }
  }

  /** Values of fixed width, and vectors. */
  method ReadLeaf(t: u8, rest: seq<u8>) returns (r: Decoded<Value>)
    requires t != STR_TAG && t != BYTES_TAG && t != LIST_TAG && t != SET_TAG
    ensures r == Decode([t] + rest)
  {
    hide DecodeNum, DecodeUuid, DecodeValidity, DecodeVector, DecodeBytes, DecodeItems;
    assert ([t] + rest)[1..] == rest;
    if t == NULL_TAG {
      return Some((Null, rest));
    } else if t == FALSE_TAG {
      return Some((Bool(false), rest));
    } else if t == TRUE_TAG {
      return Some((Bool(true), rest));
    } else if t == NUM_TAG {
      var n := ReadNum(rest);
      match n {
        case None => return None;
        case Some((num, next)) => return Some((Number(num), next));
      }
    } else if t == UUID_TAG {
      r := ReadUuid(rest);
    } else if t == VLD_TAG {
      r := ReadValidity(rest);
    } else if t == BOT_TAG {
      return Some((Bot, rest));
    } else if t == VEC_TAG {
      r := ReadVector(rest);
    } else {
      return None;
    }
  }

  /** The double, a tag, and the integer only if the double does not determine it. */
  method ReadNum(bs: seq<u8>) returns (r: Decoded<Num>)
    ensures r == DecodeNum(bs)
  {
    if |bs| < 9 {
      return None;
    }
    var f := OrderDecodeF64(ReadU64(bs[..8]));
    var tag, remaining := bs[8], bs[9..];
    if tag == IS_FLOAT {
      return Some((Float(f), remaining));
    } else if tag == IS_EXACT_INT {
      return Some((Int(Float64.ToInt(f)), remaining));
    } else if tag == IS_APPROX_INT {
      if |remaining| < 8 {
        return None;
      }
      assert remaining[..8] == bs[9..17] && remaining[8..] == bs[17..];
      return Some((Int(OrderDecodeI64(ReadU64(remaining[..8]))), remaining[8..]));
    }
    return None;
  }

  method ReadUuid(bs: seq<u8>) returns (r: Decoded<Value>)
    ensures r == DecodeUuid(bs)
  {
    if |bs| < 16 {
      return None;
    }
    var data := bs[..16];
    assert data[0..2] == bs[0..2] && data[2..4] == bs[2..4] && data[4..8] == bs[4..8] && data[8..] == bs[8..16];
    var hi, mid, low := ReadU16(data[0..2]), ReadU16(data[2..4]), ReadU32(data[4..8]);
    return Some((Uuid(low, mid, hi, data[8..]), bs[16..]));
  }

  method ReadValidity(bs: seq<u8>) returns (r: Decoded<Value>)
    ensures r == DecodeValidity(bs)
  {
    if |bs| < 8 {
      return None;
    }
    var ts, rest := OrderDecodeI64(Complement(ReadU64(bs[..8]))), bs[8..];
    if rest == [] {
      return None;
    }
    return Some((Validity(ts, rest[0] == 0), rest[1..]));
  }

  method ReadVector(bs: seq<u8>) returns (r: Decoded<Value>)
    ensures r == DecodeVector(bs)
  {
    if |bs| < 9 {
      return None;
    }
    var n := ReadU64(bs[1..9]);
    if bs[0] == VEC_F32 {
      var xs := ReadSingles(n, bs[9..]);
      match xs {
        case None => return None;
        case Some((elements, rest)) => return Some((Vec(F32(elements)), rest));
      }
    } else if bs[0] == VEC_F64 {
      var ys := ReadDoubles(n, bs[9..]);
      match ys {
        case None => return None;
        case Some((elements, rest)) => return Some((Vec(F64(elements)), rest));
      }
    }
    return None;
  }

  method ReadSingles(n: nat, bs: seq<u8>) returns (r: Decoded<seq<u32>>)
    ensures r == DecodeSingles(n, bs)
  {
    var xs: seq<u32> := [];
    var rest := bs;
    PrefixedTwice([], [], DecodeSingles(n, bs));
    for i := 0 to n
      invariant DecodeSingles(n, bs) == Prefixed(xs, DecodeSingles(n - i, rest))
    {
      if |rest| < 4 {
        return None;
      }
      var x := ReadU32(rest[..4]);
      PrefixedTwice(xs, [x], DecodeSingles(n - i - 1, rest[4..]));
      xs, rest := xs + [x], rest[4..];
    }
    assert xs + [] == xs;
    return Some((xs, rest));
  }

  method ReadDoubles(n: nat, bs: seq<u8>) returns (r: Decoded<seq<u64>>)
    ensures r == DecodeDoubles(n, bs)
  {
    var ys: seq<u64> := [];
    var rest := bs;
    PrefixedTwice([], [], DecodeDoubles(n, bs));
    for i := 0 to n
      invariant DecodeDoubles(n, bs) == Prefixed(ys, DecodeDoubles(n - i, rest))
    {
      if |rest| < 8 {
        return None;
      }
      var y := ReadU64(rest[..8]);
      PrefixedTwice(ys, [y], DecodeDoubles(n - i - 1, rest[8..]));
      ys, rest := ys + [y], rest[8..];
    }
    assert ys + [] == ys;
    return Some((ys, rest));
  }

  method ReadItems(bs: seq<u8>) returns (r: Decoded<seq<Value>>)
    ensures r == DecodeItems(bs)
    decreases |bs|, 1
  {
    var collected: seq<Value> := [];
    var remaining := bs;
    PrefixedTwice([], [], DecodeItems(bs));
    while remaining != [] && remaining[0] != INIT_TAG
      invariant |remaining| <= |bs|
      invariant DecodeItems(bs) == Prefixed(collected, DecodeItems(remaining))
      decreases |remaining|
    {
      var one := ReadValue(remaining);
      match one {
        case None => return None;
        case Some((v, next)) =>
          assert DecodeItems(remaining) == Prefixed([v], DecodeItems(next));
          PrefixedTwice(collected, [v], DecodeItems(next));
          collected := collected + [v];
          remaining := next;
      }
    }
    if remaining == [] {
      return None;
    }
    assert collected + [] == collected;
    return Some((collected, remaining[1..]));
  }

  ghost function PrefixedTuple(collected: Tuple, r: Option<Tuple>): Option<Tuple> {
    match r
    case None => None
    case Some(more) => Some(collected + more)
  }

  method DecodeTupleFromKey(key: seq<u8>) returns (r: Option<Tuple>)
    ensures r == DecodeTuple(key)
  {
    if |key| < 8 {
      return None;
    }
    var remaining := key[8..];
    var ret: Tuple := [];
    assert forall t: Tuple {:trigger [] + t} :: [] + t == t;
    while remaining != []
      invariant DecodeTuple(key) == PrefixedTuple(ret, DecodeAll(remaining))
      decreases |remaining|
    {
      var one := ReadValue(remaining);
      match one {
        case None => return None;
        case Some((v, next)) =>
          if DecodeAll(next).Some? {
            Associate(ret, [v], DecodeAll(next).value);
          }
          ret := ret + [v];
          remaining := next;
      }
    }
    assert ret + [] == ret;
    return Some(ret);
  }
}
