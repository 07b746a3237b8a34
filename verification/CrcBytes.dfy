/** The CRC-16/XMODEM of byte buffers, and parts of a file that are sealed with it. */
module CrcBytes {
  import opened Bytes
  import opened Crc16

  const CRC_SIZE: nat := 2

  /** A byte from its eight binary digits, the most significant first. */
  function FromDigits(b7: bool, b6: bool, b5: bool, b4: bool, b3: bool, b2: bool, b1: bool, b0: bool): (r: bv8) {
    (if b7 then 0x80 else 0) | (if b6 then 0x40 else 0) | (if b5 then 0x20 else 0) | (if b4 then 0x10 else 0)
    | (if b3 then 8 else 0) | (if b2 then 4 else 0) | (if b1 then 2 else 0) | (if b0 then 1 else 0)
  }

  function Halved(x: nat, n: nat): (h: nat) {
    if n == 0 then x else Halved(x / 2, n - 1)
  }

  predicate BinaryDigit(x: nat, n: nat) {
    Halved(x, n) % 2 == 1
  }

  /** The bit pattern of a byte. */
  function BitsOf(x: byte): (r: bv8) {
    FromDigits(BinaryDigit(x, 7), BinaryDigit(x, 6), BinaryDigit(x, 5), BinaryDigit(x, 4),
               BinaryDigit(x, 3), BinaryDigit(x, 2), BinaryDigit(x, 1), BinaryDigit(x, 0))
  }

  function Bits(bs: seq<byte>): (r: seq<bv8>)
    ensures |r| == |bs|
  {
    seq(|bs|, i requires 0 <= i < |bs| => BitsOf(bs[i]))
  }

  function CrcFrom(crc: bv16, bs: seq<byte>): (r: bv16) {
    Feed(crc, Bits(bs))
  }

  lemma CrcAppend(crc: bv16, a: seq<byte>, b: seq<byte>)
    ensures CrcFrom(crc, a + b) == CrcFrom(CrcFrom(crc, a), b)
  {
    hide Feed, BitsOf;
    assert Bits(a + b) == Bits(a) + Bits(b);
    FeedComposes(crc, Bits(a), Bits(b));
  }

  lemma CrcFromEmpty(crc: bv16)
    ensures CrcFrom(crc, []) == crc
  {
  }

  lemma CrcFromIsFeed(crc: bv16, bs: seq<byte>)
    ensures CrcFrom(crc, bs) == Feed(crc, Bits(bs))
  {
  }

  function CrcField(crc: bv16): (bs: seq<byte>)
    ensures |bs| == 2
  {
    Be16(crc as int)
  }

  lemma CrcFieldMatches(bs: seq<byte>, crc: bv16)
    requires |bs| == 2
    ensures FromBe16(bs) == crc as int <==> bs == CrcField(crc)
  {
    Be16RoundTrip(crc as int);
  }

  /** A part of the file followed by its checksum in network byte order. */
  function Sealed(bs: seq<byte>): (r: seq<byte>) {
    bs + CrcField(CrcFrom(0, bs))
  }

  /** Damage to one byte or two neighbouring bytes never keeps the checksum. */
  lemma DamageShows(a: seq<byte>, b: seq<byte>, at: nat)
    requires |a| == |b| && at + 1 < |a| && a != b
    requires forall i :: 0 <= i < |a| && i != at && i != at + 1 ==> a[i] == b[i]
    ensures CrcField(CrcFrom(0, a)) != CrcField(CrcFrom(0, b))
  {
    hide Feed, BitsOf;
    var k := if a[at] != b[at] then at else at + 1;
    BitsDiffer(a[k], b[k]);
    assert Bits(a)[k] != Bits(b)[k];
    AdjacentDamageDetected(0, Bits(a), Bits(b), at);
    CrcFieldMatches(CrcField(CrcFrom(0, a)), CrcFrom(0, a));
    CrcFieldMatches(CrcField(CrcFrom(0, a)), CrcFrom(0, b));
    CrcAsIntDiffers(CrcFrom(0, a), CrcFrom(0, b));
  }

  lemma {:induction false} HalvedBelow(x: nat, n: nat, bound: nat)
    requires x < bound * Pow2(n)
    ensures Halved(x, n) < bound
  {
    if n > 0 {
      assert bound * Pow2(n) == 2 * (bound * Pow2(n - 1));
      HalvedBelow(x / 2, n - 1, bound);
    }
  }

  function Pow2(n: nat): (p: nat) {
    if n == 0 then 1 else 2 * Pow2(n - 1)
  }

  lemma ByteHasEightDigits(x: byte)
    ensures Halved(x, 8) == 0
  {
    hide Halved;
    assert Pow2(4) == 16 && Pow2(8) == 16 * Pow2(4);
    HalvedBelow(x, 8, 1);
  }

  lemma ValueOfBits(b: bv8)
    ensures b as int == (if b & 0x80 != 0 then 128 else 0) + (if b & 0x40 != 0 then 64 else 0)
                        + (if b & 0x20 != 0 then 32 else 0) + (if b & 0x10 != 0 then 16 else 0)
                        + (if b & 8 != 0 then 8 else 0) + (if b & 4 != 0 then 4 else 0)
                        + (if b & 2 != 0 then 2 else 0) + (if b & 1 != 0 then 1 else 0)
  {
  }

  lemma DigitsAreBits(b7: bool, b6: bool, b5: bool, b4: bool, b3: bool, b2: bool, b1: bool, b0: bool)
    ensures var b := FromDigits(b7, b6, b5, b4, b3, b2, b1, b0);
            && (b & 0x80 != 0) == b7 && (b & 0x40 != 0) == b6 && (b & 0x20 != 0) == b5 && (b & 0x10 != 0) == b4
            && (b & 8 != 0) == b3 && (b & 4 != 0) == b2 && (b & 2 != 0) == b1 && (b & 1 != 0) == b0
  {
  }

  lemma {:induction false} OneDigit(x: nat, n: nat)
    ensures Halved(x, n) == 2 * Halved(x, n + 1) + if BinaryDigit(x, n) then 1 else 0
  {
    if n > 0 {
      OneDigit(x / 2, n - 1);
    }
  }

  lemma ValueOfDigits(x: byte)
    ensures x == (if BinaryDigit(x, 7) then 128 else 0) + (if BinaryDigit(x, 6) then 64 else 0)
                 + (if BinaryDigit(x, 5) then 32 else 0) + (if BinaryDigit(x, 4) then 16 else 0)
                 + (if BinaryDigit(x, 3) then 8 else 0) + (if BinaryDigit(x, 2) then 4 else 0)
                 + (if BinaryDigit(x, 1) then 2 else 0) + (if BinaryDigit(x, 0) then 1 else 0)
  {
    assert Halved(x, 0) == x;
    hide Halved, BinaryDigit;
    forall n | 0 <= n < 8
      ensures Halved(x, n) == 2 * Halved(x, n + 1) + if BinaryDigit(x, n) then 1 else 0
    {
      OneDigit(x, n);
    }
    ByteHasEightDigits(x);
  }

  /** The bit pattern of a byte stands for its value. */
  lemma BitsKeepTheValue(x: byte)
    ensures BitsOf(x) as int == x
  {
    hide FromDigits, BinaryDigit;
    ValueOfBits(BitsOf(x));
    DigitsAreBits(BinaryDigit(x, 7), BinaryDigit(x, 6), BinaryDigit(x, 5), BinaryDigit(x, 4),
                  BinaryDigit(x, 3), BinaryDigit(x, 2), BinaryDigit(x, 1), BinaryDigit(x, 0));
    ValueOfDigits(x);
  }

  lemma BitsDiffer(x: byte, y: byte)
    requires x != y
    ensures BitsOf(x) != BitsOf(y)
  {
    hide BitsOf;
    BitsKeepTheValue(x);
    BitsKeepTheValue(y);
  }

  lemma CrcAsIntDiffers(x: bv16, y: bv16)
    requires x != y
    ensures x as int != y as int
  {
    assert (x as int) as bv16 == x && (y as int) as bv16 == y;
  }

  // ---- Damage across the end of a part and its checksum

  lemma IntLow(x: int, high: int, low: int)
    requires x == high * 0x100 + low && 0 <= low < 0x100
    ensures x % 0x100 == low
  {
  }

  lemma SmallBits(c: bv16)
    requires c < 0x100
    ensures 0 <= c as int < 0x100
  {
  }

  lemma SplitBits(c: bv16)
    ensures c as int == (c >> 8) as int * 0x100 + (c & 0xff) as int
  {
  }

  lemma LowByteOfField(c: bv16)
    ensures CrcField(c)[1] == (c & 0xff) as int
  {
    SplitBits(c);
    SmallBits(c & 0xff);
    IntLow(c as int, (c >> 8) as int, (c & 0xff) as int);
  }

  /** A different last byte shows in the second byte of the checksum. */
  lemma LastByteShows(bs: seq<byte>, x: byte, y: byte)
    requires x != y
    ensures CrcField(CrcFrom(0, bs + [x]))[1] != CrcField(CrcFrom(0, bs + [y]))[1]
  {
    hide CrcFrom, BitsOf, FeedByte;
    CrcOneMore(bs, x);
    CrcOneMore(bs, y);
    BitsDiffer(x, y);
    FieldsDiffer(CrcFrom(0, bs), BitsOf(x), BitsOf(y));
  }

  lemma FieldsDiffer(r: bv16, u: bv8, v: bv8)
    requires u != v
    ensures CrcField(FeedByte(r, u))[1] != CrcField(FeedByte(r, v))[1]
  {
    hide FeedByte, CrcField;
    LastByteReachesLowHalf(r, u, v);
    LowByteOfField(FeedByte(r, u));
    LowByteOfField(FeedByte(r, v));
    CrcAsIntDiffers(FeedByte(r, u) & 0xff, FeedByte(r, v) & 0xff);
  }

  lemma CrcOneMore(bs: seq<byte>, x: byte)
    ensures CrcFrom(0, bs + [x]) == FeedByte(CrcFrom(0, bs), BitsOf(x))
  {
    hide BitsOf;
    assert Bits(bs + [x]) == Bits(bs) + [BitsOf(x)];
    var m := Bits(bs) + [BitsOf(x)];
    assert m[..|m| - 1] == Bits(bs);
  }

  /** A sealed part with one byte or two neighbouring bytes damaged is no longer sealed, wherever the damage is. */
  lemma DamageUnseals(bs: seq<byte>, part: seq<byte>, at: nat)
    requires |part| == |Sealed(bs)| && part != Sealed(bs)
    requires forall i :: 0 <= i < |part| && i != at && i != at + 1 ==> part[i] == Sealed(bs)[i]
    ensures part[|bs|..] != CrcField(CrcFrom(0, part[..|bs|]))
  {
    hide CrcFrom, CrcField;
    var n, field := |bs|, CrcField(CrcFrom(0, bs));
    var a, f := part[..n], part[n..];
    assert Sealed(bs)[..n] == bs && Sealed(bs)[n..] == field && part == a + f;
    if a == bs {
      assert f != field;
    } else if at + 1 < n {
      assert f == field;
      DamageShows(a, bs, at);
    } else {
      assert at == n - 1;
      assert a == bs[..n - 1] + [a[n - 1]] && bs == bs[..n - 1] + [bs[n - 1]];
      LastByteShows(bs[..n - 1], a[n - 1], bs[n - 1]);
      assert f[1] == field[1];
    }
  }
}
