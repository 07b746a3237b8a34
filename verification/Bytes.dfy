/** Bytes, big-endian fields and the small sequence helpers that the components share. */
module Bytes {
  type byte = x: int | 0 <= x < 0x100

  type uint16 = x: int | 0 <= x < 0x1_0000

  type uint32 = x: int | 0 <= x < 0x1_0000_0000

  datatype Option<+T> = None | Some(value: T)

  // The two forks of a Mac file
  const DATA: nat := 0
  const RESOURCE: nat := 1

  const NEWLINE: byte := 10
  const COLON: byte := 58
  const SLASH: byte := 47
  const NUL: byte := 0

  /** A number in decimal digits. */
  function Decimal(n: nat): (s: string)
    ensures s != []
  {
    if n < 10 then [Digit(n)] else Decimal(n / 10) + [Digit(n % 10)]
  }

  function Digit(n: nat): (c: char)
    requires n < 10
  {
    ('0' as int + n) as char
  }

  /** The number that digits spell. */
  function Number(s: string): (n: int) {
    if s == [] then 0 else 10 * Number(s[..|s| - 1]) + (s[|s| - 1] as int - '0' as int)
  }

  /** The digits spell the number, and a number of two or more digits does not start with a zero. */
  lemma {:induction false} DecimalSpells(n: nat)
    ensures var s := Decimal(n);
            && Number(s) == n
            && (forall i :: 0 <= i < |s| ==> '0' <= s[i] <= '9')
            && (s[0] == '0' ==> n == 0)
  {
    var s := Decimal(n);
    assert s[|s| - 1] == Digit(n % 10);
    if n < 10 {
      assert s[..|s| - 1] == [];
    } else {
      assert s[..|s| - 1] == Decimal(n / 10);
      DecimalSpells(n / 10);
    }
  }

  /** Different numbers have different digits. */
  lemma DecimalInjective(a: nat, b: nat)
    requires Decimal(a) == Decimal(b)
    ensures a == b
  {
    DecimalSpells(a);
    DecimalSpells(b);
  }

  function Repeat<T>(x: T, n: nat): (s: seq<T>)
    ensures |s| == n && forall i :: 0 <= i < n ==> s[i] == x
  {
    seq(n, _ => x)
  }

  /** The sequence without its element at `i`. */
  function Without<T>(s: seq<T>, i: nat): (r: seq<T>)
    requires i < |s|
    ensures |r| == |s| - 1
  {
    s[..i] + s[i + 1..]
  }

  lemma WithoutAt<T>(s: seq<T>, i: nat)
    requires i < |s|
    ensures forall k :: 0 <= k < |s| - 1 ==> Without(s, i)[k] == s[if k < i then k else k + 1]
  {
  }

  lemma WithoutMembers<T>(s: seq<T>, i: nat)
    requires i < |s| && forall k :: 0 <= k < |s| && k != i ==> s[k] != s[i]
    ensures forall x :: x in Without(s, i) <==> x in s && x != s[i]
  {
    forall x | x in s && x != s[i]
      ensures x in Without(s, i)
    {
      var k :| 0 <= k < |s| && s[k] == x;
      assert Without(s, i)[if k < i then k else k - 1] == x;
    }
  }

  function Min(a: int, b: int): (m: int)
    ensures m <= a && m <= b && (m == a || m == b)
  {
    if a < b then a else b
  }

  function Max(a: int, b: int): (m: int)
    ensures m >= a && m >= b && (m == a || m == b)
  {
    if a < b then b else a
  }

  /** The two bytes of a 16-bit field in network byte order. */
  function Be16(x: uint16): (s: seq<byte>)
    ensures |s| == 2 && s[0] as int * 0x100 + s[1] == x
  {
    [x / 0x100, x % 0x100]
  }

  function FromBe16(s: seq<byte>): (x: uint16)
    requires |s| == 2
  {
    s[0] as int * 0x100 + s[1]
  }

  /** The four bytes of a 32-bit field in network byte order. */
  function Be32(x: uint32): (s: seq<byte>)
    ensures |s| == 4 && s[0] as int * 0x1000000 + s[1] as int * 0x10000 + s[2] as int * 0x100 + s[3] == x
  {
    var x1, x2 := x / 0x100, x / 0x100 / 0x100;
    [x2 / 0x100, x2 % 0x100, x1 % 0x100, x % 0x100]
  }

  function FromBe32(s: seq<byte>): (x: uint32)
    requires |s| == 4
  {
    ((s[0] as int * 0x100 + s[1]) * 0x100 + s[2]) * 0x100 + s[3]
  }

  lemma Be16RoundTrip(x: uint16)
    ensures FromBe16(Be16(x)) == x
  {
  }

  lemma Be32RoundTrip(x: uint32)
    ensures FromBe32(Be32(x)) == x
  {
  }

  /** All pieces one after the other. */
  function Concat<T>(pieces: seq<seq<T>>): (s: seq<T>) {
    if pieces == [] then [] else pieces[0] + Concat(pieces[1..])
  }

  lemma {:induction false} ConcatAppend<T>(pieces: seq<seq<T>>, last: seq<T>)
    ensures Concat(pieces + [last]) == Concat(pieces) + last
  {
    if pieces == [] {
      assert pieces + [last] == [last];
      assert Concat([last][1..]) == [];
    } else {
      ConcatAppend(pieces[1..], last);
      assert (pieces + [last])[1..] == pieces[1..] + [last];
    }
  }

  /** A C string ends at its first NUL. */
  function CString(bs: seq<byte>): (s: seq<byte>)
    ensures s <= bs && NUL !in s
  {
    if bs == [] || bs[0] == NUL then [] else [bs[0]] + CString(bs[1..])
  }

  lemma {:induction false} CStringWhole(bs: seq<byte>)
    requires NUL !in bs
    ensures CString(bs) == bs
  {
    if bs != [] {
      CStringWhole(bs[1..]);
    }
  }

  lemma {:induction false} ConcatSplit(chunks: seq<seq<byte>>, i: nat)
    requires i <= |chunks|
    ensures Concat(chunks) == Concat(chunks[..i]) + Concat(chunks[i..])
  {
    if i > 0 {
      ConcatSplit(chunks[1..], i - 1);
      assert chunks[..i][1..] == chunks[1..][..i - 1];
      assert chunks[1..][i - 1..] == chunks[i..];
    } else {
      assert chunks[..0] == [] && chunks[0..] == chunks;
    }
  }

  /** What the reads of an input return until its end: no portion is empty. */
  ghost predicate Chunked(chunks: seq<seq<byte>>) {
    forall i :: 0 <= i < |chunks| ==> chunks[i] != []
  }
}
