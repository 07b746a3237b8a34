/** The CRC-16/XMODEM of BinHex and MacBinary (bin/nad/crc16.c). */
module Crc16 {
  const POLY: bv16 := 0x1021

  /** Addition of registers, seen as polynomials over the two-element field. */
  function Add(a: bv16, b: bv16): (r: bv16) { a ^ b }

  /** A message byte enters at the top of the register. */
  function Lift(b: bv8): (r: bv16) { (b as bv16) << 8 }

  /** One round of the inner loop: shift left, and reduce by the polynomial when the top bit falls out. */
  function Round(crc: bv16): (r: bv16) {
    if crc & 0x8000 != 0 then Add(crc << 1, POLY) else crc << 1
  }

  function Rounds(crc: bv16, n: nat): (r: bv16) {
    if n == 0 then crc else Round(Rounds(crc, n - 1))
  }

  function FeedByte(crc: bv16, b: bv8): (r: bv16) {
    Rounds(Add(crc, Lift(b)), 8)
  }

  /** The register after a whole message. */
  function Feed(crc: bv16, msg: seq<bv8>): (r: bv16) {
    if msg == [] then crc else FeedByte(Feed(crc, msg[..|msg| - 1]), msg[|msg| - 1])
  }

  /** crc16_xmodem_update: two nested loops over a register. */
  method Update(start: bv16, msg: seq<bv8>) returns (crc: bv16)
    ensures crc == Feed(start, msg)
  {
    hide Add, Lift;
    crc := start;
    for i := 0 to |msg|
      invariant crc == Feed(start, msg[..i])
    {
      crc := Add(crc, Lift(msg[i]));
      ghost var mixed := crc;
      for bit := 0 to 8
        invariant crc == Rounds(mixed, bit)
      {
        if crc & 0x8000 != 0 {
          crc := Add(crc << 1, POLY);
        } else {
          crc := crc << 1;
        }
      }
      assert msg[..i + 1][..i] == msg[..i];
    }
    assert msg[..|msg|] == msg;
  }

  /** A run over several buffers passes each result to the next call. */
  lemma {:induction false} FeedComposes(crc: bv16, a: seq<bv8>, b: seq<bv8>)
    ensures Feed(crc, a + b) == Feed(Feed(crc, a), b)
  {
    if b == [] {
      assert a + b == a;
    } else {
      FeedComposes(crc, a, b[..|b| - 1]);
      assert (a + b)[..|a + b| - 1] == a + b[..|b| - 1];
    }
  }

  // ---- Linearity over exclusive or

  function Xor(a: seq<bv8>, b: seq<bv8>): (r: seq<bv8>)
    requires |a| == |b|
    ensures |r| == |a| && forall i :: 0 <= i < |r| ==> r[i] == a[i] ^ b[i]
  {
    seq(|a|, i requires 0 <= i < |a| => a[i] ^ b[i])
  }

  lemma RoundLinear(c: bv16, d: bv16)
    ensures Round(Add(c, d)) == Add(Round(c), Round(d))
  {
    if c & 0x8000 != 0 {
      if d & 0x8000 != 0 {
        RoundLinearBothReduce(c, d);
      } else {
        RoundLinearOneReduces(c, d);
      }
    } else if d & 0x8000 != 0 {
      hide Round;
      RoundLinearOneReduces(d, c);
      assert Add(c, d) == Add(d, c) && Add(Round(c), Round(d)) == Add(Round(d), Round(c));
    } else {
      RoundLinearNoneReduces(c, d);
    }
  }

  lemma RoundLinearBothReduce(c: bv16, d: bv16)
    requires c & 0x8000 != 0 && d & 0x8000 != 0
    ensures Round(Add(c, d)) == Add(Round(c), Round(d))
  {
  }

  lemma RoundLinearOneReduces(c: bv16, d: bv16)
    requires c & 0x8000 != 0 && d & 0x8000 == 0
    ensures Round(Add(c, d)) == Add(Round(c), Round(d))
  {
  }

  lemma RoundLinearNoneReduces(c: bv16, d: bv16)
    requires c & 0x8000 == 0 && d & 0x8000 == 0
    ensures Round(Add(c, d)) == Add(Round(c), Round(d))
  {
  }

  lemma {:induction false} RoundsLinear(c: bv16, d: bv16, n: nat)
    ensures Rounds(Add(c, d), n) == Add(Rounds(c, n), Rounds(d, n))
  {
    hide Add, Round;
    if n > 0 {
      RoundsLinear(c, d, n - 1);
      RoundLinear(Rounds(c, n - 1), Rounds(d, n - 1));
    }
  }

  lemma LiftLinear(c: bv16, d: bv16, x: bv8, y: bv8)
    ensures Add(Add(c, d), Lift(x ^ y)) == Add(Add(c, Lift(x)), Add(d, Lift(y)))
  {
  }

  lemma FeedByteLinear(c: bv16, d: bv16, x: bv8, y: bv8)
    ensures FeedByte(Add(c, d), x ^ y) == Add(FeedByte(c, x), FeedByte(d, y))
  {
    hide Add, Rounds, Lift;
    LiftLinear(c, d, x, y);
    RoundsLinear(Add(c, Lift(x)), Add(d, Lift(y)), 8);
  }

  lemma {:induction false} FeedLinear(c: bv16, d: bv16, a: seq<bv8>, b: seq<bv8>)
    requires |a| == |b|
    ensures Feed(Add(c, d), Xor(a, b)) == Add(Feed(c, a), Feed(d, b))
  {
    hide Add, FeedByte;
    if a != [] {
      var n := |a| - 1;
      FeedLinear(c, d, a[..n], b[..n]);
      assert Xor(a, b)[..n] == Xor(a[..n], b[..n]);
      FeedByteLinear(Feed(c, a[..n]), Feed(d, b[..n]), a[n], b[n]);
    }
  }

  // ---- Error detection

  function High(crc: bv16): bv8 { (crc >> 8) as bv8 }

  function Low(crc: bv16): bv8 { (crc & 0xff) as bv8 }

  lemma EightRounds(crc: bv16)
    ensures Rounds(crc, 8) == Round(Round(Round(Round(Round(Round(Round(Round(crc))))))))
  {
    assert Rounds(crc, 1) == Round(crc);
    assert Rounds(crc, 2) == Round(Round(crc));
    assert Rounds(crc, 4) == Round(Round(Rounds(crc, 2)));
    assert Rounds(crc, 6) == Round(Round(Rounds(crc, 4)));
  }

  lemma OwnCrcCancels(crc: bv16)
    ensures FeedByte(FeedByte(crc, High(crc)), Low(crc)) == 0
  {
    EightRounds(Add(crc, Lift(High(crc))));
    var half := FeedByte(crc, High(crc));
    assert half == (crc & 0xff) << 8;
    EightRounds(Add(half, Lift(Low(crc))));
  }

  /** A message followed by its own CRC in network byte order leaves the register at zero. */
  lemma ResidueZero(crc: bv16, msg: seq<bv8>)
    ensures var sum := Feed(crc, msg); Feed(crc, msg + [High(sum), Low(sum)]) == 0
  {
    var sum := Feed(crc, msg);
    var tail := [High(sum), Low(sum)];
    FeedComposes(crc, msg, tail);
    assert tail[..1] == [High(sum)];
    assert tail[..1][..0] == [];
    assert Feed(sum, tail[..1]) == FeedByte(sum, High(sum));
    OwnCrcCancels(sum);
  }

  lemma {:induction false} RoundsKeepNonzero(crc: bv16, n: nat)
    requires crc != 0
    ensures Rounds(crc, n) != 0
  {
    if n > 0 {
      RoundsKeepNonzero(crc, n - 1);
    }
  }

  lemma {:induction false} FeedZeros(crc: bv16, msg: seq<bv8>)
    requires forall i :: 0 <= i < |msg| ==> msg[i] == 0
    ensures crc == 0 ==> Feed(crc, msg) == 0
    ensures crc != 0 ==> Feed(crc, msg) != 0
  {
    if msg != [] {
      var n := |msg| - 1;
      FeedZeros(crc, msg[..n]);
      var before := Feed(crc, msg[..n]);
      assert Add(before, Lift(0)) == before;
      if crc == 0 {
        EightRounds(0);
      } else {
        RoundsKeepNonzero(before, 8);
      }
    }
  }

  lemma OneByteReachesLowHalf(x: bv8)
    requires x != 0
    ensures Rounds(Lift(x), 8) & 0xff != 0
  {
    EightRounds(Lift(x));
  }

  lemma TwoBytesNonzero(x: bv8, y: bv8)
    requires x != 0 || y != 0
    ensures FeedByte(FeedByte(0, x), y) != 0
  {
    var first := FeedByte(0, x);
    assert Add(0, Lift(x)) == Lift(x);
    if x != 0 {
      OneByteReachesLowHalf(x);
      assert first & 0xff != 0 ==> Add(first, Lift(y)) != 0;
    } else {
      EightRounds(0);
      assert first == 0;
      assert Add(first, Lift(y)) != 0;
    }
    RoundsKeepNonzero(Add(first, Lift(y)), 8);
  }

  lemma XorSelf(x: bv16)
    ensures Add(x, x) == 0
  {
  }

  lemma XorSelfByte(x: bv8, y: bv8)
    ensures x ^ y == 0 <==> x == y
  {
  }

  lemma FeedFromZero(x: bv8)
    ensures FeedByte(0, x) == Rounds(Lift(x), 8)
  {
    assert Add(0, Lift(x)) == Lift(x);
  }

  lemma LowHalvesDiffer(x: bv16, y: bv16)
    requires Add(x, y) & 0xff != 0
    ensures x & 0xff != y & 0xff
  {
  }

  /** Two last bytes leave registers with different low halves. */
  lemma LastByteReachesLowHalf(r: bv16, u: bv8, v: bv8)
    requires u != v
    ensures FeedByte(r, u) & 0xff != FeedByte(r, v) & 0xff
  {
    hide FeedByte, Add;
    XorSelfByte(u, v);
    FeedByteLinear(r, r, u, v);
    DifferenceReachesLowHalf(r, FeedByte(r, u), FeedByte(r, v), u ^ v);
  }

  lemma DifferenceReachesLowHalf(r: bv16, p: bv16, q: bv16, d: bv8)
    requires d != 0 && FeedByte(Add(r, r), d) == Add(p, q)
    ensures p & 0xff != q & 0xff
  {
    hide FeedByte, Rounds, Lift, Add;
    XorSelf(r);
    FeedFromZero(d);
    OneByteReachesLowHalf(d);
    LowHalvesDiffer(p, q);
  }

  /** A difference of one or two neighbouring bytes in a field of zeros never feeds to zero. */
  lemma BurstNonzero(d: seq<bv8>, at: nat)
    requires at + 1 < |d| && (d[at] != 0 || d[at + 1] != 0)
    requires forall i :: 0 <= i < |d| && i != at && i != at + 1 ==> d[i] == 0
    ensures Feed(0, d) != 0
  {
    var head, mid, tail := d[..at], d[at..at + 2], d[at + 2..];
    assert d == (head + mid) + tail;
    FeedComposes(0, head + mid, tail);
    FeedComposes(0, head, mid);
    FeedZeros(0, head);
    assert mid[..1] == [d[at]] && mid[..1][..0] == [];
    assert Feed(0, mid[..1]) == FeedByte(0, d[at]);
    TwoBytesNonzero(d[at], d[at + 1]);
    FeedZeros(Feed(0, head + mid), tail);
  }

  /** Damage confined to two neighbouring bytes always shows, however long the message. */
  lemma AdjacentDamageDetected(crc: bv16, a: seq<bv8>, b: seq<bv8>, at: nat)
    requires |a| == |b| && at + 1 < |a| && a != b
    requires forall i :: 0 <= i < |a| && i != at && i != at + 1 ==> a[i] == b[i]
    ensures Feed(crc, a) != Feed(crc, b)
  {
    var d := Xor(a, b);
    forall i | 0 <= i < |a|
      ensures d[i] == 0 <==> a[i] == b[i]
    {
      XorSelfByte(a[i], b[i]);
    }
    FeedLinear(crc, crc, a, b);
    XorSelf(crc);
    BurstNonzero(d, at);
    XorSelf(Feed(crc, a));
  }
}
