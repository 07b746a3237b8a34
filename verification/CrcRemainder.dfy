/** The register of the CRC is the remainder of a polynomial division. */
module CrcRemainder {
  import opened Bytes
  import opened Crc16
  import opened CrcBytes
  import opened Polynomial

  /** The power `e` of two. */
  function Mask(e: nat): (m: bv16) {
    if e == 0 then 1 else Mask(e - 1) << 1
  }

  predicate BitSet(c: bv16, e: nat) {
    c & Mask(e) != 0
  }

  predicate ByteBitSet(b: bv8, e: nat) {
    BitSet(b as bv16, e)
  }

  /** Bit `e` of the register is the coefficient at exponent `e`. */
  function Register(c: bv16): (r: poly)
    ensures forall e :: e in r ==> e < DEGREE
  {
    set e: nat | e < DEGREE && BitSet(c, e)
  }

  /** The bits of a message in the order of transmission, the last bit at exponent zero. */
  function Message(msg: seq<bv8>): (r: poly) {
    set e: nat | e < 8 * |msg| && ByteBitSet(msg[|msg| - 1 - e / 8], e % 8)
  }

  // ---- Single bits

  lemma MaskValues()
    ensures Mask(0) == 0x0001 && Mask(1) == 0x0002 && Mask(2) == 0x0004 && Mask(3) == 0x0008
    ensures Mask(4) == 0x0010 && Mask(5) == 0x0020 && Mask(6) == 0x0040 && Mask(7) == 0x0080
    ensures Mask(8) == 0x0100 && Mask(9) == 0x0200 && Mask(10) == 0x0400 && Mask(11) == 0x0800
    ensures Mask(12) == 0x1000 && Mask(13) == 0x2000 && Mask(14) == 0x4000 && Mask(15) == 0x8000
  {
    assert Mask(2) == 4;
    assert Mask(4) == 0x10;
    assert Mask(6) == 0x40;
    assert Mask(8) == 0x100;
    assert Mask(10) == 0x400;
    assert Mask(12) == 0x1000;
    assert Mask(14) == 0x4000;
  }

  lemma OneBit(e: nat)
    requires e < 16
    ensures Mask(e) & (Mask(e) - 1) == 0 && Mask(e) != 0
    ensures Mask(e) == 0x8000 <==> e == 15
    ensures Mask(e) < 0x100 <==> e < 8
    ensures POLY & Mask(e) != 0 <==> e in {12, 5, 0}
  {
    hide Mask;
    MaskValues();
  }

  lemma XorBit(a: bv16, b: bv16, m: bv16)
    requires m & (m - 1) == 0
    ensures (a ^ b) & m != 0 <==> ((a & m != 0) != (b & m != 0))
  {
  }

  lemma SumBit(a: bv16, b: bv16, e: nat)
    requires e < DEGREE
    ensures BitSet(Add(a, b), e) <==> BitSet(a, e) != BitSet(b, e)
  {
    hide Mask;
    OneBit(e);
    XorBit(a, b, Mask(e));
  }

  lemma ShiftBit(c: bv16, m: bv16)
    requires m & (m - 1) == 0 && m != 0x8000
    ensures (c << 1) & (m << 1) != 0 <==> c & m != 0
  {
  }

  lemma NextBit(c: bv16, shifted: bv16, e: nat)
    requires shifted == c << 1 && e + 1 < DEGREE
    ensures BitSet(shifted, e + 1) <==> BitSet(c, e)
  {
    assert Mask(e + 1) == Mask(e) << 1;
    hide Mask;
    OneBit(e);
    ShiftBit(c, Mask(e));
  }

  lemma LowestBit(shifted: bv16, c: bv16)
    requires shifted == c << 1
    ensures !BitSet(shifted, 0)
  {
  }

  lemma LiftBit(b: bv8, m: bv16)
    requires m < 0x100
    ensures Lift(b) & (m << 8) != 0 <==> b as bv16 & m != 0
    ensures Lift(b) & m == 0
  {
  }

  lemma RegisterOfSum(a: bv16, b: bv16)
    ensures Register(Add(a, b)) == Sum(Register(a), Register(b))
  {
    hide Add, BitSet;
    forall e: nat | e < DEGREE
      ensures BitSet(Add(a, b), e) <==> BitSet(a, e) != BitSet(b, e)
    {
      SumBit(a, b, e);
    }
  }

  lemma RegisterOfPoly()
    ensures Register(POLY) == {12, 5, 0}
  {
    hide Mask;
    forall e: nat | e < DEGREE
      ensures BitSet(POLY, e) <==> e in {12, 5, 0}
    {
      OneBit(e);
    }
  }

  /** Shifting the register loses its top coefficient. */
  lemma RegisterOfShift(c: bv16)
    ensures Register(c << 1) == Shift(Register(c), 1) - {DEGREE}
  {
    hide BitSet;
    var shifted := c << 1;
    forall e: nat | e < DEGREE
      ensures BitSet(shifted, e) <==> e > 0 && BitSet(c, e - 1)
    {
      if e == 0 {
        LowestBit(shifted, c);
      } else {
        NextBit(c, shifted, e - 1);
      }
    }
  }

  // ---- Rounds

  lemma TopBit(c: bv16)
    ensures BitSet(c, 15) <==> c & 0x8000 != 0
  {
    hide Mask;
    MaskValues();
  }

  /** One round multiplies the register by the indeterminate and divides by the generator. */
  lemma RoundLeaves(c: bv16)
    ensures Leaves(Shift(Register(c), 1), Register(Round(c)))
  {
    hide Register, Add, Multiple, BitSet;
    TopBit(c);
    var shifted := c << 1;
    var m := Shift(Register(c), 1);
    RegisterOfShift(c);
    TopTerm(c);
    if c & 0x8000 != 0 {
      RegisterOfSum(shifted, POLY);
      RegisterOfPoly();
      MultipleOfOne();
      assert m == Sum(Multiple({0}), Register(Round(c)));
    } else {
      LeavesItself(m);
      assert m == Register(Round(c));
    }
  }

  lemma TopTerm(c: bv16)
    ensures DEGREE in Shift(Register(c), 1) <==> BitSet(c, 15)
  {
    hide BitSet;
  }

  lemma {:induction false} RoundsLeave(c: bv16, n: nat)
    ensures Leaves(Shift(Register(c), n), Register(Rounds(c, n)))
  {
    hide Register, Round, Leaves;
    if n == 0 {
      assert Shift(Register(c), 0) == Register(c);
      LeavesItself(Register(c));
    } else {
      RoundsLeave(c, n - 1);
      LeavesShift(Shift(Register(c), n - 1), Register(Rounds(c, n - 1)), 1);
      ShiftTwice(Register(c), n - 1, 1);
      RoundLeaves(Rounds(c, n - 1));
      LeavesTwice(Shift(Register(c), n), Shift(Register(Rounds(c, n - 1)), 1), Register(Rounds(c, n)));
    }
  }

  lemma ShiftTwice(p: poly, j: nat, k: nat)
    ensures Shift(Shift(p, j), k) == Shift(p, j + k)
  {
  }

  lemma ShiftOfSum(p: poly, q: poly, k: nat)
    ensures Shift(Sum(p, q), k) == Sum(Shift(p, k), Shift(q, k))
  {
  }

  // ---- Bytes

  lemma LiftedBit(b: bv8, e: nat)
    requires e < DEGREE
    ensures BitSet(Lift(b), e) <==> e >= 8 && ByteBitSet(b, e - 8)
  {
    hide Mask;
    MaskValues();
    if e < 8 {
      OneBit(e);
      LiftBit(b, Mask(e));
    } else {
      OneBit(e - 8);
      LiftBit(b, Mask(e - 8));
      assert Mask(e) == Mask(e - 8) << 8;
    }
  }

  lemma RegisterOfLift(b: bv8)
    ensures Register(Lift(b)) == Shift(Message([b]), 8)
  {
    hide BitSet, ByteBitSet, Lift;
    forall e: nat | e < DEGREE
      ensures BitSet(Lift(b), e) <==> e >= 8 && ByteBitSet(b, e - 8)
    {
      LiftedBit(b, e);
    }
  }

  lemma MessageOfOneMore(msg: seq<bv8>, b: bv8)
    ensures Message(msg + [b]) == Sum(Shift(Message(msg), 8), Message([b]))
  {
    hide ByteBitSet;
    var longer, m := msg + [b], Message(msg);
    forall e: nat
      ensures e in Message(longer) <==> if e < 8 then e in Message([b]) else e - 8 in m
    {
      if 8 <= e < 8 * |longer| {
        assert (e - 8) / 8 == e / 8 - 1 && (e - 8) % 8 == e % 8;
        assert longer[|longer| - 1 - e / 8] == msg[|msg| - 1 - (e - 8) / 8];
      }
    }
  }

  lemma FeedByteLeaves(c: bv16, b: bv8)
    ensures Leaves(Sum(Shift(Register(c), 8), Shift(Message([b]), 16)), Register(FeedByte(c, b)))
  {
    hide Register, Message, Add, Lift, Rounds, Leaves;
    var mixed := Add(c, Lift(b));
    RegisterOfSum(c, Lift(b));
    RegisterOfLift(b);
    ShiftOfSum(Register(c), Shift(Message([b]), 8), 8);
    ShiftTwice(Message([b]), 8, 8);
    RoundsLeave(mixed, 8);
  }

  /** The dividend of a message after the register `start`: the message carries sixteen zero bits behind it. */
  function Dividend(start: bv16, msg: seq<bv8>): (m: poly) {
    Sum(Shift(Register(start), 8 * |msg|), Shift(Message(msg), 16))
  }

  lemma DividendOfOneMore(start: bv16, msg: seq<bv8>, b: bv8)
    ensures Dividend(start, msg + [b]) == Sum(Shift(Dividend(start, msg), 8), Shift(Message([b]), 16))
  {
    hide Register, Message;
    var r, m, last := Register(start), Message(msg), Message([b]);
    MessageOfOneMore(msg, b);
    ShiftOfSum(Shift(r, 8 * |msg|), Shift(m, 16), 8);
    ShiftTwice(r, 8 * |msg|, 8);
    ShiftTwice(m, 16, 8);
    ShiftOfSum(Shift(m, 8), last, 16);
    ShiftTwice(m, 8, 16);
    SumAssociates(Shift(r, 8 * |msg| + 8), Shift(m, 24), Shift(last, 16));
  }

  lemma SumAssociates(p: poly, q: poly, r: poly)
    ensures Sum(Sum(p, q), r) == Sum(p, Sum(q, r))
  {
  }

  /** The register after a message is the remainder of the message, shifted by sixteen, under the generator. */
  lemma {:induction false} FeedIsRemainder(start: bv16, msg: seq<bv8>)
    ensures Remainder(Dividend(start, msg), Register(Feed(start, msg)))
  {
    hide Register, Message, FeedByte, Dividend, Leaves;
    if msg == [] {
      FeedOfNothing(start, msg);
    } else {
      var n := |msg| - 1;
      var before, b := msg[..n], msg[n];
      assert msg == before + [b];
      FeedIsRemainder(start, before);
      var c := Feed(start, before);
      DividendOfOneMore(start, before, b);
      LeavesShift(Dividend(start, before), Register(c), 8);
      LeavesItself(Shift(Message([b]), 16));
      LeavesSum(Shift(Dividend(start, before), 8), Shift(Register(c), 8),
                Shift(Message([b]), 16), Shift(Message([b]), 16));
      FeedByteLeaves(c, b);
      LeavesTwice(Dividend(start, msg), Sum(Shift(Register(c), 8), Shift(Message([b]), 16)),
                  Register(Feed(start, msg)));
    }
  }

  lemma FeedOfNothing(start: bv16, msg: seq<bv8>)
    requires msg == []
    ensures Leaves(Dividend(start, msg), Register(start))
  {
    hide BitSet, ByteBitSet;
    assert Message(msg) == {};
    assert Dividend(start, msg) == Register(start);
    LeavesItself(Register(start));
  }

  lemma RegisterOfZero()
    ensures Register(0) == {}
  {
    forall e: nat | e < DEGREE
      ensures !BitSet(0, e)
    {
      assert 0 & Mask(e) == 0;
    }
  }

  /** The checksum of a part of a file: no other remainder fits, and the two bytes hold the register. */
  lemma ChecksumIsRemainder(bs: seq<byte>, r: poly)
    ensures var crc := CrcFrom(0, bs);
            && FromBe16(CrcField(crc)) == crc as int
            && (Remainder(Shift(Message(Bits(bs)), 16), r) <==> r == Register(crc))
  {
    hide Register, Message, BitsOf, Remainder, Feed;
    var crc, msg := CrcFrom(0, bs), Bits(bs);
    CrcFieldMatches(CrcField(crc), crc);
    FeedIsRemainder(0, msg);
    RegisterOfZero();
    assert Dividend(0, msg) == Shift(Message(msg), 16);
    if Remainder(Shift(Message(msg), 16), r) {
      RemainderUnique(Shift(Message(msg), 16), r, Register(crc));
    }
  }
}
