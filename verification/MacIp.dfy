/** The Internet checksum of contrib/macipgw/macip.c. */
module MacIp {
  import opened Bytes

  // ---- Checksum

  function Sum(ws: seq<uint16>): (n: nat) {
    if ws == [] then 0 else Sum(ws[..|ws| - 1]) + ws[|ws| - 1]
  }

  /** Addition of 16-bit words with the carry brought back in, as section 1 of RFC 1071 defines the sum. */
  function EndAround(a: uint16, b: uint16): (r: uint16) {
    var s: int := a + b;
    if s > 0xFFFF then s - 0x1_0000 + 1 else s
  }

  function OnesSum(ws: seq<uint16>): (r: uint16) {
    if ws == [] then 0 else EndAround(OnesSum(ws[..|ws| - 1]), ws[|ws| - 1])
  }

  /** The one value between 1 and 0xFFFF that a positive sum is congruent to modulo 0xFFFF. */
  function Norm(n: nat): (r: uint16)
    ensures n > 0 ==> r > 0
  {
    if n == 0 then 0 else (n - 1) % 0xFFFF + 1
  }

  lemma NormAdd(n: nat, w: uint16)
    ensures EndAround(Norm(n), w) == Norm(n + w)
  {
  }

  lemma {:induction false} OnesSumIsNorm(ws: seq<uint16>)
    ensures OnesSum(ws) == Norm(Sum(ws))
  {
    if ws != [] {
      OnesSumIsNorm(ws[..|ws| - 1]);
      NormAdd(Sum(ws[..|ws| - 1]), ws[|ws| - 1]);
    }
  }

  lemma {:induction false} SumBound(ws: seq<uint16>)
    ensures Sum(ws) <= |ws| * 0xFFFF
  {
    if ws != [] {
      SumBound(ws[..|ws| - 1]);
    }
  }

  lemma FoldIsNorm(sum: nat)
    requires sum <= 0xFFFF_FFFF
    ensures var s := sum % 0x1_0000 + sum / 0x1_0000 % 0x1_0000;
            (if s > 0xFFFF then s - 0xFFFF else s) == Norm(sum)
  {
    var lo, hi := sum % 0x1_0000, sum / 0x1_0000;
    assert sum == hi * 0xFFFF + (lo + hi);
    NormShift(lo + hi, hi);
  }

  lemma NormShift(n: nat, k: nat)
    requires n > 0 || k == 0
    ensures Norm(n + k * 0xFFFF) == Norm(n)
  {
    if n > 0 {
      assert (n - 1 + k * 0xFFFF) % 0xFFFF == (n - 1) % 0xFFFF;
    }
  }

  const MAX_WORDS: nat := 65537

  /** cksum: a 32-bit sum that cannot overflow, one fold and one conditional subtraction. */
  method Cksum(ws: seq<uint16>) returns (c: uint16)
    requires |ws| <= MAX_WORDS
    ensures c == 0xFFFF - OnesSum(ws)
  {
    var sum: uint32 := 0;
    for i := 0 to |ws|
      invariant sum == Sum(ws[..i])
    {
      assert ws[..i + 1][..i] == ws[..i];
      SumBound(ws[..i + 1]);
      sum := sum + ws[i];
    }
    assert ws[..|ws|] == ws;
    FoldIsNorm(sum);
    OnesSumIsNorm(ws);
    var s := sum % 0x1_0000 + sum / 0x1_0000 % 0x1_0000;
    s := if s > 0xFFFF then s - 0xFFFF else s;
    c := 0xFFFF - s;
  }

  lemma {:induction false} SumUpdate(ws: seq<uint16>, k: nat, c: uint16)
    requires k < |ws|
    ensures Sum(ws[k := c]) == Sum(ws) - ws[k] + c
  {
    var n := |ws| - 1;
    if k < n {
      SumUpdate(ws[..n], k, c);
      assert ws[k := c][..n] == ws[..n][k := c];
    } else {
      assert ws[k := c][..n] == ws[..n];
    }
  }

  /** A packet with its checksum in the zeroed field sums to 0xFFFF, which is how a receiver accepts it. */
  lemma ChecksumVerifies(ws: seq<uint16>, k: nat)
    requires k < |ws| && ws[k] == 0
    ensures OnesSum(ws[k := 0xFFFF - OnesSum(ws)]) == 0xFFFF
  {
    var c := 0xFFFF - OnesSum(ws);
    OnesSumIsNorm(ws);
    OnesSumIsNorm(ws[k := c]);
    SumUpdate(ws, k, c);
    NormCompletes(Sum(ws));
  }

  lemma NormCompletes(n: nat)
    ensures Norm(n + (0xFFFF - Norm(n))) == 0xFFFF
  {
    if n > 0 {
      var q, r := (n - 1) / 0xFFFF, (n - 1) % 0xFFFF;
      assert n + (0xFFFF - Norm(n)) == 0xFFFF + q * 0xFFFF;
      NormShift(0xFFFF, q);
    }
  }
}
