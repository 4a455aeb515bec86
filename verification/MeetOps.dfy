/** The `and`, `or`, `bit_and` and `bit_or` aggregates, in normal form and as meet operators. */
module MeetOps {
  import opened Bytes
  import opened Values
  import opened Permutations

  type Bits = seq<bv8>

  datatype Op = And | Or

  // ----- booleans -----

  /** What a run over boolean operands comes to: a property of which of them occur, whatever their order. */
  predicate Joined(op: Op, acc: bool, rs: seq<Value>) {
    if op == And then acc && Bool(false) !in rs else acc || Bool(true) in rs
  }

  predicate AllBool(rs: seq<Value>) {
    forall i | 0 <= i < |rs| :: rs[i].Bool?
  }

  /** The normal-form aggregate. */
  class AggrBool {
    const op: Op
    var accum: bool

    constructor (op: Op)
      ensures this.op == op && accum == (op == And)
    {
      this.op, this.accum := op, op == And;
    }

    method Set(value: Value) returns (ok: bool)
      modifies this
      ensures ok == value.Bool?
      ensures accum == if ok then Joined(op, old(accum), [value]) else old(accum)
    {
      match value {
        case Bool(v) =>
          accum := if op == And then accum && v else accum || v;
          return true;
        case _ => return false;
      }
    }
  }

  /** The meet operator: `left` is the stored value, updated in place. */
  class MeetAggrBool {
    const op: Op
    var left: Value

    constructor (op: Op)
      ensures this.op == op && left == Bool(op == And)
    {
      this.op, this.left := op, Bool(op == And);
    }

    /** True exactly when the stored value changed; `None` on operands that are not booleans. */
    method Update(right: Value) returns (r: Option<bool>)
      modifies this
      ensures r.Some? == (old(left).Bool? && right.Bool?)
      ensures left == if r.Some? then Bool(Joined(op, old(left).b, [right])) else old(left)
      ensures r.Some? ==> r.value == (left != old(left))
    {
      match (left, right) {
        case (Bool(l), Bool(v)) =>
          var next := if op == And then l && v else l || v;
          left := Bool(next);
          return Some(l != next);
        case _ => return None;
      }
    }
  }

  lemma {:induction false} JoinedNext(op: Op, acc: bool, rs: seq<Value>, i: nat)
    requires i < |rs|
    ensures Joined(op, Joined(op, acc, rs[..i]), [rs[i]]) == Joined(op, acc, rs[..i + 1])
  {
    assert rs[..i + 1] == rs[..i] + [rs[i]];
  }

  /**
    * Both forms over the same operands: they fail together, exactly on an operand that is no boolean, and else give
    * the same value. The stored value changes at most once, and each change is reported.
    */
  method BoolRun(op: Op, rs: seq<Value>) returns (meet: Option<Value>, normal: Option<Value>, changes: nat)
    ensures meet == normal == if AllBool(rs) then Some(Bool(Joined(op, op == And, rs))) else None
    ensures changes <= 1
    ensures AllBool(rs) ==> (changes == 1 <==> Joined(op, op == And, rs) != (op == And))
  {
    var m := new MeetAggrBool(op);
    var a := new AggrBool(op);
    changes := 0;
    for i := 0 to |rs|
      invariant fresh(m) && fresh(a) && m.op == a.op == op && m.left == Bool(a.accum)
      invariant AllBool(rs[..i]) && a.accum == Joined(op, op == And, rs[..i])
      invariant changes == if a.accum == (op == And) then 0 else 1
    {
      var r := m.Update(rs[i]);
      var ok := a.Set(rs[i]);
      if r.None? {
        return None, None, changes;
      }
      JoinedNext(op, op == And, rs, i);
      if r.value {
        changes := changes + 1;
      }
    }
    assert rs[..|rs|] == rs;
    return Some(m.left), Some(Bool(a.accum)), changes;
  }

  // ----- byte strings -----

  function ByteMeet(op: Op, l: bv8, r: bv8): bv8 {
    if op == And then l & r else l | r
  }

  function Zip(op: Op, l: Bits, r: Bits): Bits
    requires |l| == |r|
  {
    seq(|l|, i requires 0 <= i < |l| => ByteMeet(op, l[i], r[i]))
  }

  /** The stored value after one operand; the empty string stands for "nothing yet". */
  function BitsMeet(op: Op, l: Bits, r: Bits): Option<Bits> {
    if l == [] then Some(r)
    else if |l| != |r| then None
    else Some(Zip(op, l, r))
  }

  lemma {:induction false} ZipLaws(op: Op, l: Bits, r: Bits)
    requires |l| == |r|
    ensures Zip(op, l, r) == Zip(op, r, l) && Zip(op, l, l) == l
  {
  }

  lemma {:induction false} ZipAssociative(op: Op, a: Bits, b: Bits, c: Bits)
    requires |a| == |b| == |c|
    ensures Zip(op, Zip(op, a, b), c) == Zip(op, a, Zip(op, b, c))
  {
    forall i | 0 <= i < |a| ensures Zip(op, Zip(op, a, b), c)[i] == Zip(op, a, Zip(op, b, c))[i] {
      ByteAssociative(op, a[i], b[i], c[i]);
    }
  }

  lemma {:induction false} ByteAssociative(op: Op, a: bv8, b: bv8, c: bv8)
    ensures ByteMeet(op, ByteMeet(op, a, b), c) == ByteMeet(op, a, ByteMeet(op, b, c))
  {
    assert (a & b) & c == a & (b & c);
    assert (a | b) | c == a | (b | c);
  }

  function ToBits(bytes: seq<u8>): Bits {
    seq(|bytes|, i requires 0 <= i < |bytes| => bytes[i] as bv8)
  }

  /** The stored value after any operand; one that is no byte string is refused. */
  function ValueMeet(op: Op, l: Bits, v: Value): Option<Bits> {
    if v.Blob? then BitsMeet(op, l, ToBits(v.bytes)) else None
  }

  /** The normal-form aggregate. */
  class AggrBits {
    const op: Op
    var res: Bits

    constructor (op: Op)
      ensures this.op == op && res == []
    {
      this.op, this.res := op, [];
    }

    method Set(value: Value) returns (ok: bool)
      modifies this
      ensures ok == ValueMeet(op, old(res), value).Some?
      ensures res == if ok then ValueMeet(op, old(res), value).value else old(res)
    {
      if !value.Blob? {
        return false;
      }
      var bs := ToBits(value.bytes);
      if res == [] {
        res := bs;
        return true;
      }
      if |res| != |bs| {
        return false;
      }
      for i := 0 to |res|
        invariant |res| == |bs| == |old(res)|
        invariant forall k | 0 <= k < |res| :: res[k] == if k < i then ByteMeet(op, old(res[k]), bs[k]) else old(res[k])
      {
        res := res[i := ByteMeet(op, res[i], bs[i])];
      }
      assert res == Zip(op, old(res), bs);
      return true;
    }
  }

  /** The meet operator: `left` is the stored value, updated in place. */
  class MeetAggrBits {
    const op: Op
    var left: Bits

    constructor (op: Op)
      ensures this.op == op && left == []
    {
      this.op, this.left := op, [];
    }

    /** True exactly when the stored value changed; `None` on another width and on what is no byte string. */
    method Update(value: Value) returns (r: Option<bool>)
      modifies this
      ensures r.Some? == ValueMeet(op, old(left), value).Some?
      ensures left == if r.Some? then ValueMeet(op, old(left), value).value else old(left)
      ensures r.Some? ==> r.value == (left != old(left))
    {
      if !value.Blob? {
        return None;
      }
      var right := ToBits(value.bytes);
      if left == right {
        ZipLaws(op, left, right);
        return Some(false);
      }
      if left == [] {
        left := right;
        return Some(true);
      }
      if |left| != |right| {
        return None;
      }
      var changed := false;
      for i := 0 to |left|
        invariant |left| == |right| == |old(left)|
        invariant forall k | 0 <= k < |left| ::
                    left[k] == if k < i then ByteMeet(op, old(left[k]), right[k]) else old(left[k])
        invariant changed == (left != old(left))
      {
        ghost var before := left;
        var was := left[i];
        left := left[i := ByteMeet(op, was, right[i])];
        changed := changed || was != left[i];
        assert was == left[i] ==> left == before;
        assert before[..i] == left[..i];
        assert before[i] == old(left[i]);
      }
      assert left == Zip(op, old(left), right);
      return Some(changed);
    }
  }

  // ----- runs -----

  function Fold(op: Op, acc: Bits, rs: seq<Bits>): Option<Bits>
    decreases |rs|
  {
    if rs == [] then Some(acc)
    else match BitsMeet(op, acc, rs[0]) case None => None case Some(next) => Fold(op, next, rs[1..])
  }

  /** How many updates of a run report a change. */
  function Changes(op: Op, acc: Bits, rs: seq<Bits>): nat
    decreases |rs|
  {
    if rs == [] then 0
    else
      match BitsMeet(op, acc, rs[0])
      case None => 0
      case Some(next) => (if next != acc then 1 else 0) + Changes(op, next, rs[1..])
  }

  /** The operands up to the first that is no byte string. */
  function Leading(vs: seq<Value>): (rs: seq<Bits>)
    ensures |rs| <= |vs|
  {
    if vs == [] || !vs[0].Blob? then [] else [ToBits(vs[0].bytes)] + Leading(vs[1..])
  }

  /** A meet run and a normal-form run over the same operands, in the same order, agree on everything. */
  method MeetRun(op: Op, vs: seq<Value>) returns (meet: Option<Bits>, normal: Option<Bits>, changes: nat)
    ensures meet == normal == if |Leading(vs)| == |vs| then Fold(op, [], Leading(vs)) else None
    ensures changes == Changes(op, [], Leading(vs))
  {
    hide ToBits, BitsMeet;
    var m := new MeetAggrBits(op);
    var a := new AggrBits(op);
    changes := 0;
    assert vs[0..] == vs;
    for i := 0 to |vs|
      invariant fresh(m) && fresh(a) && m.op == a.op == op && m.left == a.res
      invariant |Leading(vs)| == i + |Leading(vs[i..])|
      invariant Fold(op, [], Leading(vs)) == Fold(op, m.left, Leading(vs[i..]))
      invariant Changes(op, [], Leading(vs)) == changes + Changes(op, m.left, Leading(vs[i..]))
    {
      LeadingStep(op, m.left, vs[i..]);
      assert vs[i..][1..] == vs[i + 1..];
      var r := m.Update(vs[i]);
      var ok := a.Set(vs[i]);
      if r.None? {
        return None, None, changes;
      }
      if r.value {
        changes := changes + 1;
      }
    }
    return Some(m.left), Some(a.res), changes;
  }

  lemma {:induction false} LeadingStep(op: Op, acc: Bits, vs: seq<Value>)
    requires vs != []
    ensures match ValueMeet(op, acc, vs[0])
            case None =>
              && (|Leading(vs)| == |vs| ==> Fold(op, acc, Leading(vs)) == None) && Changes(op, acc, Leading(vs)) == 0
            case Some(next) =>
              && |Leading(vs)| == 1 + |Leading(vs[1..])|
              && Fold(op, acc, Leading(vs)) == Fold(op, next, Leading(vs[1..]))
              && Changes(op, acc, Leading(vs)) == (if next != acc then 1 else 0) + Changes(op, next, Leading(vs[1..]))
  {
    hide ToBits, BitsMeet;
    if vs[0].Blob? {
      var rs := Leading(vs);
      assert rs[0] == ToBits(vs[0].bytes) && rs[1..] == Leading(vs[1..]);
    }
  }

  ghost predicate Width(rs: seq<Bits>, w: nat) {
    forall i | 0 <= i < |rs| :: |rs[i]| == w
  }

  lemma {:induction false} FoldWidth(op: Op, acc: Bits, rs: seq<Bits>, w: nat)
    requires Width(rs, w) && |acc| == w
    decreases |rs|
    ensures Fold(op, acc, rs).Some? && |Fold(op, acc, rs).value| == w
  {
    if rs != [] {
      FoldWidth(op, BitsMeet(op, acc, rs[0]).value, rs[1..], w);
    }
  }

  /** An operand may be taken first instead of at its place. */
  lemma {:induction false} FoldPull(op: Op, acc: Bits, rs: seq<Bits>, k: nat, w: nat)
    requires Width(rs, w) && |acc| == w && w > 0 && k < |rs|
    decreases |rs|
    ensures Fold(op, acc, rs) == Fold(op, Zip(op, acc, rs[k]), Without(rs, k))
  {
    var rest := Without(rs, k);
    if k == 0 {
      assert rest == rs[1..];
    } else {
      FoldPull(op, Zip(op, acc, rs[0]), rs[1..], k - 1, w);
      assert rest[0] == rs[0] && rest[1..] == rs[1..][..k - 1] + rs[1..][k..];
      ZipAssociative(op, acc, rs[0], rs[k]);
      ZipAssociative(op, acc, rs[k], rs[0]);
      ZipLaws(op, rs[0], rs[k]);
    }
  }

  lemma {:induction false} FoldAnyOrder(op: Op, acc: Bits, rs: seq<Bits>, qs: seq<Bits>, w: nat)
    requires Width(rs, w) && Width(qs, w) && |acc| == w && w > 0 && Rearranged(rs, qs)
    decreases |rs|
    ensures Fold(op, acc, rs) == Fold(op, acc, qs)
  {
    if rs != [] {
      var k := Head(rs, qs);
      FoldPull(op, acc, qs, k, w);
      FoldAnyOrder(op, Zip(op, acc, rs[0]), rs[1..], Without(qs, k), w);
    }
  }

  /** Operands of one width: every order gives the same result. */
  lemma {:induction false} AnyOrder(op: Op, rs: seq<Bits>, qs: seq<Bits>, w: nat)
    requires Width(rs, w) && Width(qs, w) && Rearranged(rs, qs)
    ensures Fold(op, [], rs) == Fold(op, [], qs) && Fold(op, [], rs).Some?
  {
    if w == 0 {
      AllEmpty(op, rs);
      AllEmpty(op, qs);
    } else if rs != [] {
      var k := Head(rs, qs);
      SeedTwice(op, rs, w);
      FoldWidth(op, rs[0], rs[1..], w);
      SeedFrom(op, qs, k, w);
      FoldAnyOrder(op, rs[0], rs, qs, w);
    }
  }

  lemma {:induction false} AllEmpty(op: Op, rs: seq<Bits>)
    requires Width(rs, 0)
    ensures Fold(op, [], rs) == Some([])
  {
    if rs != [] {
      assert rs[0] == [];
      AllEmpty(op, rs[1..]);
    }
  }

  /** Starting from the first operand or from nothing is the same. */
  lemma {:induction false} SeedTwice(op: Op, rs: seq<Bits>, w: nat)
    requires Width(rs, w) && w > 0 && rs != []
    ensures Fold(op, [], rs) == Fold(op, rs[0], rs[1..]) == Fold(op, rs[0], rs)
  {
    ZipLaws(op, rs[0], rs[0]);
  }

  lemma {:induction false} Absorb(op: Op, a: Bits, b: Bits)
    requires |a| == |b|
    ensures Zip(op, Zip(op, a, b), b) == Zip(op, a, b) && Zip(op, Zip(op, a, b), a) == Zip(op, a, b)
  {
    ZipLaws(op, a, b);
    ZipLaws(op, a, a);
    ZipLaws(op, b, b);
    ZipAssociative(op, a, b, b);
    ZipAssociative(op, b, a, a);
  }

  /** Starting from any operand is the same. */
  lemma {:induction false} SeedFrom(op: Op, rs: seq<Bits>, k: nat, w: nat)
    requires Width(rs, w) && w > 0 && k < |rs|
    ensures Fold(op, [], rs) == Fold(op, rs[k], rs)
  {
    var both := Zip(op, rs[0], rs[k]);
    SeedTwice(op, rs, w);
    ZipLaws(op, rs[0], rs[k]);
    FoldPull(op, rs[0], rs, k, w);
    FoldPull(op, rs[k], rs, 0, w);
    Absorb(op, rs[0], rs[k]);
    FoldPull(op, both, rs, k, w);
    FoldPull(op, both, rs, 0, w);
  }

  /** An empty operand is swallowed first and refused later, so widths must agree for order not to matter. */
  lemma {:induction false} EmptyOperandOrder(op: Op)
    ensures Fold(op, [], [[], [1]]) == Some([1]) && Fold(op, [], [[1], []]) == None
  {
    var rs: seq<Bits>, qs: seq<Bits> := [[], [1]], [[1], []];
    assert rs[1..] == [[1]] && qs[1..] == [[]];
    assert Fold(op, [], [[1]]) == Some([1]);
  }

  // ----- how often the value can change -----

  function Bit(b: bv8): nat {
    if b == 0 then 0 else 1
  }

  function Ones(b: bv8): nat {
    Bit(b & 1) + Bit(b & 2) + Bit(b & 4) + Bit(b & 8) + Bit(b & 16) + Bit(b & 32) + Bit(b & 64) + Bit(b & 128)
  }

  /** Bits an operator can still flip: ones for `and`, zeros for `or`. */
  function Room(op: Op, b: bv8): nat {
    if op == And then Ones(b) else Ones(!b)
  }

  function RoomOf(op: Op, l: Bits): nat {
    if l == [] then 0 else Room(op, l[0]) + RoomOf(op, l[1..])
  }

  lemma {:induction false} OnesBound(b: bv8)
    ensures Ones(b) <= 8
  {
  }

  lemma {:induction false} AndRoom(l: bv8, r: bv8)
    ensures Ones(l & r) <= Ones(l) && (l & r != l ==> Ones(l & r) < Ones(l))
  {
  }

  lemma {:induction false} OrRoom(l: bv8, r: bv8)
    ensures Ones(!(l | r)) <= Ones(!l) && (l | r != l ==> Ones(!(l | r)) < Ones(!l))
  {
    assert !(l | r) == !l & !r;
    AndRoom(!l, !r);
  }

  lemma {:induction false} ByteRoom(op: Op, l: bv8, r: bv8)
    ensures Room(op, ByteMeet(op, l, r)) <= Room(op, l) <= 8
    ensures ByteMeet(op, l, r) != l ==> Room(op, ByteMeet(op, l, r)) < Room(op, l)
  {
    hide Ones;
    OnesBound(l);
    OnesBound(!l);
    if op == And {
      AndRoom(l, r);
    } else {
      OrRoom(l, r);
    }
  }

  lemma {:induction false} ZipRoom(op: Op, l: Bits, r: Bits)
    requires |l| == |r|
    ensures RoomOf(op, Zip(op, l, r)) <= RoomOf(op, l) <= 8 * |l|
    ensures Zip(op, l, r) != l ==> RoomOf(op, Zip(op, l, r)) < RoomOf(op, l)
  {
    if l != [] {
      ByteRoom(op, l[0], r[0]);
      ZipRoom(op, l[1..], r[1..]);
      assert Zip(op, l, r)[1..] == Zip(op, l[1..], r[1..]);
      assert l == [l[0]] + l[1..] && Zip(op, l, r) == [Zip(op, l, r)[0]] + Zip(op, l, r)[1..];
    }
  }

  lemma {:induction false} ChangesUseRoom(op: Op, acc: Bits, rs: seq<Bits>)
    requires acc != []
    decreases |rs|
    ensures Changes(op, acc, rs) <= RoomOf(op, acc)
  {
    if rs != [] && |acc| == |rs[0]| {
      ZipRoom(op, acc, rs[0]);
      ChangesUseRoom(op, Zip(op, acc, rs[0]), rs[1..]);
    }
  }

  /** The width of the first operand that is not empty. */
  function FirstWidth(rs: seq<Bits>): nat {
    if rs == [] then 0 else if rs[0] == [] then FirstWidth(rs[1..]) else |rs[0]|
  }

  /** Whatever the operands, a run reports at most 1 + 8w changes, w the width of the first non-empty one. */
  lemma {:induction false} ChangesBounded(op: Op, rs: seq<Bits>)
    decreases |rs|
    ensures Changes(op, [], rs) <= 1 + 8 * FirstWidth(rs)
  {
    if rs != [] {
      if rs[0] == [] {
        ChangesBounded(op, rs[1..]);
      } else {
        ZipRoom(op, rs[0], rs[0]);
        ChangesUseRoom(op, rs[0], rs[1..]);
      }
    }
  }

  // ----- bit by bit -----

  /** One bit of a byte. */
  predicate OneBit(m: bv8) {
    m == 1 || m == 2 || m == 4 || m == 8 || m == 16 || m == 32 || m == 64 || m == 128
  }

  predicate HasBit(b: bv8, m: bv8) {
    b & m != 0
  }

  lemma {:induction false} ByteBit(op: Op, l: bv8, r: bv8, m: bv8)
    requires OneBit(m)
    ensures HasBit(ByteMeet(op, l, r), m) <==>
            if op == And then HasBit(l, m) && HasBit(r, m) else HasBit(l, m) || HasBit(r, m)
  {
  }

  /** The bit is set in every operand for `and`, in some operand for `or`. */
  predicate BitJoined(op: Op, rs: seq<Bits>, i: nat, m: bv8)
    requires forall k | 0 <= k < |rs| :: i < |rs[k]|
  {
    if op == And then forall k | 0 <= k < |rs| :: HasBit(rs[k][i], m)
    else exists k :: 0 <= k < |rs| && HasBit(rs[k][i], m)
  }

  lemma {:induction false} FoldBit(op: Op, acc: Bits, rs: seq<Bits>, w: nat, i: nat, m: bv8)
    requires Width(rs, w) && |acc| == w && i < w && OneBit(m)
    decreases |rs|
    ensures Fold(op, acc, rs).Some? && |Fold(op, acc, rs).value| == w
    ensures HasBit(Fold(op, acc, rs).value[i], m) <==>
            if op == And then HasBit(acc[i], m) && BitJoined(op, rs, i, m)
            else HasBit(acc[i], m) || BitJoined(op, rs, i, m)
  {
    hide HasBit, ByteMeet;
    if rs != [] {
      ByteBit(op, acc[i], rs[0][i], m);
      FoldBit(op, Zip(op, acc, rs[0]), rs[1..], w, i, m);
      assert forall k | 0 < k < |rs| :: rs[k] == rs[1..][k - 1];
    }
  }

  /** The result of a run over operands of one width, bit by bit. */
  lemma {:induction false} RunBit(op: Op, rs: seq<Bits>, w: nat, i: nat, m: bv8)
    requires Width(rs, w) && rs != [] && i < w && OneBit(m)
    ensures Fold(op, [], rs).Some? && |Fold(op, [], rs).value| == w
    ensures HasBit(Fold(op, [], rs).value[i], m) <==> BitJoined(op, rs, i, m)
  {
    hide HasBit, ByteMeet;
    SeedTwice(op, rs, w);
    FoldBit(op, rs[0], rs, w, i, m);
  }

  function ToBytes(bits: Bits): (r: seq<u8>)
    ensures |r| == |bits|
  {
    seq(|bits|, i requires 0 <= i < |bits| => bits[i] as int)
  }

  /** The bit of a byte of a value. */
  predicate ByteHas(b: u8, m: bv8) {
    (b as bv8) & m != 0
  }

  lemma {:induction false} ByteBack(b: bv8)
    ensures 0 <= b as int < 256 && (b as int) as bv8 == b
  {
  }

  lemma {:induction false} BitIn(bytes: seq<u8>, i: nat, m: bv8)
    requires i < |bytes|
    ensures |ToBits(bytes)| == |bytes| && (HasBit(ToBits(bytes)[i], m) <==> ByteHas(bytes[i], m))
  {
  }

  lemma {:induction false} BitOut(bits: Bits, i: nat, m: bv8)
    requires i < |bits|
    ensures ByteHas(ToBytes(bits)[i], m) <==> HasBit(bits[i], m)
  {
    hide ByteHas, HasBit;
    ByteOut(bits[i], m);
  }

  lemma {:induction false} ByteOut(b: bv8, m: bv8)
    ensures 0 <= b as int < 256 && (ByteHas(b as int, m) <==> HasBit(b, m))
  {
    ByteBack(b);
  }

  /** The operands are byte strings of one width. */
  predicate BlobsOf(vs: seq<Value>, w: nat) {
    forall k | 0 <= k < |vs| :: vs[k].Blob? && |vs[k].bytes| == w
  }

  /** The bit is set in every operand for `bit_and`, in some operand for `bit_or`. */
  predicate ByteJoined(op: Op, vs: seq<Value>, w: nat, i: nat, m: bv8)
    requires BlobsOf(vs, w) && i < w
  {
    if op == And then forall k | 0 <= k < |vs| :: ByteHas(vs[k].bytes[i], m)
    else exists k :: 0 <= k < |vs| && ByteHas(vs[k].bytes[i], m)
  }

  lemma {:induction false} LeadingAll(vs: seq<Value>, w: nat)
    requires BlobsOf(vs, w)
    ensures |Leading(vs)| == |vs| && Width(Leading(vs), w)
    ensures forall k | 0 <= k < |vs| :: Leading(vs)[k] == ToBits(vs[k].bytes)
  {
    hide ToBits;
    if vs != [] {
      LeadingAll(vs[1..], w);
      BitsWidth(vs[0].bytes);
      assert forall k | 0 < k < |vs| :: vs[k] == vs[1..][k - 1];
    }
  }

  lemma {:induction false} BitsWidth(bytes: seq<u8>)
    ensures |ToBits(bytes)| == |bytes|
  {
  }

  lemma {:induction false} JoinedAlike(op: Op, vs: seq<Value>, rs: seq<Bits>, w: nat, i: nat, m: bv8)
    requires BlobsOf(vs, w) && i < w && |rs| == |vs| && Width(rs, w)
    requires forall k | 0 <= k < |vs| :: rs[k] == ToBits(vs[k].bytes)
    ensures ByteJoined(op, vs, w, i, m) <==> BitJoined(op, rs, i, m)
  {
    hide HasBit, ByteHas, ToBits;
    forall k | 0 <= k < |vs| ensures HasBit(rs[k][i], m) <==> ByteHas(vs[k].bytes[i], m) {
      BitIn(vs[k].bytes, i, m);
    }
  }

  /**
    * Both forms over byte strings of one width, from values to a value: a bit of the result is set exactly if it is
    * set in every operand for `bit_and`, in some operand for `bit_or`.
    */
  method BitRun(op: Op, vs: seq<Value>, ghost w: nat) returns (r: Value)
    requires vs != [] && w > 0 && BlobsOf(vs, w)
    ensures r.Blob? && |r.bytes| == w
    ensures forall i, m | 0 <= i < w && OneBit(m) :: ByteHas(r.bytes[i], m) <==> ByteJoined(op, vs, w, i, m)
  {
    hide Fold, Changes, Leading, BitJoined, ByteJoined, ByteMeet, HasBit, OneBit, ByteHas, Zip, ToBits;
    LeadingAll(vs, w);
    ghost var rs := Leading(vs);
    var meet, normal, changes := MeetRun(op, vs);
    RunWidth(op, rs, w);
    r := Blob(ToBytes(normal.value));
    forall i, m | 0 <= i < w && OneBit(m) ensures ByteHas(r.bytes[i], m) <==> ByteJoined(op, vs, w, i, m) {
      RunBit(op, rs, w, i, m);
      BitOut(normal.value, i, m);
      JoinedAlike(op, vs, rs, w, i, m);
    }
  }

  lemma {:induction false} RunWidth(op: Op, rs: seq<Bits>, w: nat)
    requires Width(rs, w) && rs != [] && w > 0
    ensures Fold(op, [], rs).Some? && |Fold(op, [], rs).value| == w
  {
    RunBit(op, rs, w, 0, 1);
  }

  // ----- exactly when order matters -----

  /** An empty operand among operands of one non-zero width. */
  ghost predicate Mixed(rs: seq<Bits>) {
    && [] in rs
    && exists x :: x in rs && x != [] && forall y | y in rs :: y == [] || |y| == |x|
  }

  lemma {:induction false} WrongWidth(op: Op, acc: Bits, rs: seq<Bits>, i: nat)
    requires acc != [] && i < |rs| && |rs[i]| != |acc|
    decreases |rs|
    ensures Fold(op, acc, rs) == None
  {
    if |rs[0]| == |acc| {
      WrongWidth(op, Zip(op, acc, rs[0]), rs[1..], i - 1);
    }
  }

  lemma {:induction false} TwoWidths(op: Op, rs: seq<Bits>, i: nat, j: nat)
    requires i < |rs| && j < |rs| && rs[i] != [] && rs[j] != [] && |rs[i]| != |rs[j]|
    ensures Fold(op, [], rs) == None
  {
    if rs[0] == [] {
      TwoWidths(op, rs[1..], i - 1, j - 1);
    } else if |rs[0]| != |rs[i]| {
      WrongWidth(op, rs[0], rs[1..], i - 1);
    } else {
      WrongWidth(op, rs[0], rs[1..], j - 1);
    }
  }

  function Keep(rs: seq<Bits>, empty: bool): seq<Bits> {
    if rs == [] then []
    else (if (rs[0] == []) == empty then [rs[0]] else []) + Keep(rs[1..], empty)
  }

  lemma {:induction false} KeepSplits(rs: seq<Bits>)
    ensures multiset(Keep(rs, true)) + multiset(Keep(rs, false)) == multiset(rs)
  {
    if rs != [] {
      KeepSplits(rs[1..]);
      assert rs == [rs[0]] + rs[1..];
    }
  }

  lemma {:induction false} KeepMembers(rs: seq<Bits>, empty: bool, i: nat)
    requires i < |Keep(rs, empty)|
    ensures Keep(rs, empty)[i] in rs && (Keep(rs, empty)[i] == []) == empty
  {
    if (rs[0] == []) != empty || i > 0 {
      KeepMembers(rs[1..], empty, if (rs[0] == []) == empty then i - 1 else i);
    }
  }

  lemma {:induction false} EmptiesFirst(op: Op, es: seq<Bits>, rs: seq<Bits>)
    requires Width(es, 0)
    ensures Fold(op, [], es + rs) == Fold(op, [], rs)
  {
    if es == [] {
      assert es + rs == rs;
    } else {
      assert (es + rs)[1..] == es[1..] + rs && es[0] == [];
      EmptiesFirst(op, es[1..], rs);
    }
  }

  lemma {:induction false} SomeOrderFails(op: Op, rs: seq<Bits>, x: Bits) returns (qs: seq<Bits>)
    requires [] in rs && x in rs && x != []
    ensures Rearranged(rs, qs) && Fold(op, [], qs) == None
  {
    var k :| 0 <= k < |rs| && rs[k] == x;
    var e :| 0 <= e < |rs| && rs[e] == [];
    var rest := Without(rs, k);
    qs := [x] + rest;
    ToFront(rs, k);
    var i := StillThere(rs, k, e);
    assert qs[1..] == rest;
    WrongWidth(op, x, rest, i);
  }

  lemma {:induction false} SomeOrderFits(op: Op, rs: seq<Bits>, x: Bits) returns (qs: seq<Bits>)
    requires x in rs && x != [] && forall y | y in rs :: y == [] || |y| == |x|
    ensures Rearranged(rs, qs) && Fold(op, [], qs).Some?
  {
    var es, ns := Keep(rs, true), Keep(rs, false);
    qs := es + ns;
    KeepSplits(rs);
    SameMultiset(rs, qs);
    forall i | 0 <= i < |es| ensures |es[i]| == 0 {
      KeepMembers(rs, true, i);
    }
    forall i | 0 <= i < |ns| ensures |ns[i]| == |x| {
      KeepMembers(rs, false, i);
    }
    EmptiesFirst(op, es, ns);
    SameMultiset(ns, ns);
    AnyOrder(op, ns, ns, |x|);
  }

  ghost predicate OrderFree(op: Op, rs: seq<Bits>) {
    forall qs: seq<Bits> | Rearranged(rs, qs) :: Fold(op, [], qs) == Fold(op, [], rs)
  }

  lemma {:induction false} SameOutcome(op: Op, rs: seq<Bits>, qs: seq<Bits>)
    requires !Mixed(rs) && Rearranged(rs, qs)
    ensures Fold(op, [], qs) == Fold(op, [], rs)
  {
    forall y ensures y in rs <==> y in qs {
      SameElements(rs, qs, y);
    }
    if i, j :| 0 <= i < |rs| && 0 <= j < |rs| && rs[i] != [] && rs[j] != [] && |rs[i]| != |rs[j]| {
      TwoWidths(op, rs, i, j);
      assert rs[i] in qs && rs[j] in qs;
      var k :| 0 <= k < |qs| && qs[k] == rs[i];
      var l :| 0 <= l < |qs| && qs[l] == rs[j];
      TwoWidths(op, qs, k, l);
    } else if i :| 0 <= i < |rs| && rs[i] != [] {
      var w := |rs[i]|;
      assert rs[i] in rs;
      assert [] !in rs;
      forall k | 0 <= k < |qs| ensures |qs[k]| == w {
        assert qs[k] in rs;
      }
      AnyOrder(op, rs, qs, w);
    } else {
      forall k | 0 <= k < |qs| ensures |qs[k]| == 0 {
        assert qs[k] in rs;
      }
      AnyOrder(op, rs, qs, 0);
    }
  }

  /** Operands may be taken in any order unless an empty one is mixed with operands of a single other width. */
  lemma {:induction false} OrderFreeIff(op: Op, rs: seq<Bits>)
    ensures OrderFree(op, rs) <==> !Mixed(rs)
  {
    if Mixed(rs) {
      var x :| x in rs && x != [] && forall y | y in rs :: y == [] || |y| == |x|;
      var fails := SomeOrderFails(op, rs, x);
      var fits := SomeOrderFits(op, rs, x);
    } else {
      forall qs: seq<Bits> | Rearranged(rs, qs) ensures Fold(op, [], qs) == Fold(op, [], rs) {
        SameOutcome(op, rs, qs);
      }
    }
  }
}
