/**
 The BinHex 4.0 format as pure functions: the 64-character alphabet, the packing of three bytes
 into four six-bit values, the 0x90 escape and run length code, and the 63-column lines.
 The encoder and the decoder are both proved against these functions.
 */
module HqxFormat {
  import opened Bytes

  type six = x: int | 0 <= x < 64

  const RUNCHAR: byte := 0x90

  // What the lookup table answers for characters outside the alphabet
  const BLANK: byte := 0xFC
  const STOP: byte := 0xFD
  const EOL: byte := 0xFE
  const BAD: byte := 0xFF

  /** The alphabet, one line for each unbroken range of character codes. */
  function HqxChar(v: six): (c: byte) {
    if v < 13 then v + 0x21
    else if v < 20 then v - 13 + 0x30
    else if v < 22 then v - 20 + 0x38
    else if v < 37 then v - 22 + 0x40
    else if v < 44 then v - 37 + 0x50
    else if v < 48 then v - 44 + 0x58
    else if v < 55 then v - 48 + 0x60
    else if v < 61 then v - 55 + 0x68
    else v - 61 + 0x70
  }

  /** The decoder's lookup table. */
  function HqxLookup(c: byte): (v: byte) {
    if 0x21 <= c <= 0x2D then c - 0x21
    else if 0x30 <= c <= 0x36 then c - 0x30 + 13
    else if 0x38 <= c <= 0x39 then c - 0x38 + 20
    else if 0x40 <= c <= 0x4E then c - 0x40 + 22
    else if 0x50 <= c <= 0x56 then c - 0x50 + 37
    else if 0x58 <= c <= 0x5B then c - 0x58 + 44
    else if 0x60 <= c <= 0x66 then c - 0x60 + 48
    else if 0x68 <= c <= 0x6D then c - 0x68 + 55
    else if 0x70 <= c <= 0x72 then c - 0x70 + 61
    else if c == 0x09 || c == 0x20 then BLANK
    else if c == 0x0A || c == 0x0D then EOL
    else if c == COLON then STOP
    else BAD
  }

  /** The 64 characters that appendix A of RFC 1741 lists. */
  const ALPHABET: string :=
    "!\"#$%&'()*+,-012" + "345689@ABCDEFGHI" + "JKLMNPQRSTUVXYZ[" + "`abcdefhijklmpqr"

  /** Value `v` is written as the `v`-th character. */
  lemma AlphabetIsRfc1741(v: six)
    ensures |ALPHABET| == 64 && HqxChar(v) == ALPHABET[v] as int
  {
  }

  /** The decoder takes a character for a value exactly if the alphabet has it, and for its place there. */
  lemma LookupIsRfc1741(c: byte)
    ensures HqxLookup(c) < 64 ==> HqxLookup(c) < |ALPHABET| && ALPHABET[HqxLookup(c)] as int == c
    ensures HqxLookup(c) < 64 <==> exists v :: 0 <= v < |ALPHABET| && ALPHABET[v] as int == c
    ensures HqxLookup(c) == STOP <==> c == ':' as int
    ensures HqxLookup(c) == EOL <==> c in {'\n' as int, '\r' as int}
    ensures HqxLookup(c) == BLANK <==> c in {' ' as int, '\t' as int}
  {
    if HqxLookup(c) < 64 {
      AlphabetIsRfc1741(HqxLookup(c));
      assert HqxChar(HqxLookup(c)) == c;
    }
    if v :| 0 <= v < |ALPHABET| && ALPHABET[v] as int == c {
      AlphabetIsRfc1741(v);
    }
  }

  lemma AlphabetRoundTrip(v: six)
    ensures HqxLookup(HqxChar(v)) == v
  {
  }

  lemma Delimiters()
    ensures HqxLookup(NEWLINE) == EOL && HqxLookup(COLON) == STOP
  {
  }

  function Chars(s: seq<six>): (cs: seq<byte>)
    ensures |cs| == |s|
    ensures forall i :: 0 <= i < |s| ==> cs[i] == HqxChar(s[i]) && HqxLookup(cs[i]) == s[i]
  {
    seq(|s|, i requires 0 <= i < |s| => HqxChar(s[i]))
  }

  // ---- Three bytes as four six-bit values

  /** The number that the three bytes make is the number that the four values make. */
  function Pack(a: byte, b: byte, c: byte): (s: seq<six>)
    ensures |s| == 4
    ensures s[0] as int * 0x40000 + s[1] as int * 0x1000 + s[2] as int * 0x40 + s[3]
         == a as int * 0x10000 + b as int * 0x100 + c
  {
    [a / 4, a % 4 * 16 + b / 16, b % 16 * 4 + c / 64, c % 64]
  }

  function Unpack(s: seq<six>): (p: seq<byte>)
    requires |s| == 4
    ensures |p| == 3
  {
    [s[0] as int * 4 + s[1] / 16, s[1] % 16 as int * 16 + s[2] / 4, s[2] % 4 as int * 64 + s[3]]
  }

  lemma UnpackPack(a: byte, b: byte, c: byte)
    ensures Unpack(Pack(a, b, c)) == [a, b, c]
  {
    var s := Pack(a, b, c);
    assert s[1] / 16 == a % 4 && s[1] % 16 == b / 16;
    assert s[2] / 4 == b % 16 && s[2] % 4 == c / 64;
  }

  /** Groups of three bytes; one byte left over becomes two values and two bytes become three. */
  function SixBits(p: seq<byte>): (s: seq<six>) {
    if |p| >= 3 then Pack(p[0], p[1], p[2]) + SixBits(p[3..])
    else if |p| == 2 then Pack(p[0], p[1], 0)[..3]
    else if |p| == 1 then Pack(p[0], 0, 0)[..2]
    else []
  }

  /** Four values from the front of the stream; the terminator fills a short group with zeros. */
  function Group(s: seq<six>): (g: seq<six>)
    ensures |g| == 4
  {
    if |s| >= 4 then s[..4]
    else if |s| == 3 then [s[0], s[1], s[2], 0]
    else if |s| == 2 then [s[0], s[1], 0, 0]
    else if |s| == 1 then [s[0], 0, 0, 0]
    else [0, 0, 0, 0]
  }

  /** A short group has zeros behind it. */
  lemma GroupPads(s: seq<six>)
    ensures Group(s) == (s + [0, 0, 0, 0])[..4]
  {
    assert forall i :: 0 <= i < 4 ==> (s + [0, 0, 0, 0])[i] == if i < |s| then s[i] else 0;
  }

  /** The packed bytes of a stream; its terminator makes a last group even after a whole number of groups. */
  function Unsix(s: seq<six>): (p: seq<byte>)
    ensures |p| >= 3
  {
    if |s| >= 4 then Unpack(s[..4]) + Unsix(s[4..]) else Unpack(Group(s))
  }

  lemma {:induction false} SixBitsAppend(p: seq<byte>, q: seq<byte>)
    requires |p| % 3 == 0
    ensures SixBits(p + q) == SixBits(p) + SixBits(q)
  {
    hide Pack;
    if p == [] {
      assert p + q == q;
    } else {
      SixBitsAppend(p[3..], q);
      assert (p + q)[3..] == p[3..] + q;
      var g, s, t := Pack(p[0], p[1], p[2]), SixBits(p[3..]), SixBits(q);
      assert g + (s + t) == (g + s) + t;
    }
  }

  /** Unpacking gives back the bytes, with the zeros of the last group after them. */
  lemma {:induction false} UnsixSixBits(p: seq<byte>) returns (pad: nat)
    ensures 1 <= pad <= 3 && Unsix(SixBits(p)) == p + Repeat(0, pad)
  {
    hide Unpack, Pack;
    if |p| >= 3 {
      pad := UnsixSixBits(p[3..]);
      UnsixStep(p);
      assert p == p[..3] + p[3..];
    } else {
      pad := 3 - |p|;
      UnsixShort(p);
    }
  }

  lemma PackedGroup(p: seq<byte>)
    requires |p| >= 3
    ensures Unpack(Pack(p[0], p[1], p[2])) == p[..3]
  {
    hide *;
    UnpackPack(p[0], p[1], p[2]);
    assert p[..3] == [p[0], p[1], p[2]];
  }

  lemma UnsixStep(p: seq<byte>)
    requires |p| >= 3
    ensures Unsix(SixBits(p)) == p[..3] + Unsix(SixBits(p[3..]))
  {
    hide Unpack, Pack;
    var g, t := Pack(p[0], p[1], p[2]), SixBits(p[3..]);
    assert SixBits(p)[..4] == g && SixBits(p)[4..] == t;
    PackedGroup(p);
  }

  lemma PackZeros(a: byte, b: byte)
    ensures Pack(a, b, 0)[3] == 0 && Pack(a, 0, 0)[2] == 0 && Pack(0, 0, 0) == [0, 0, 0, 0]
  {
  }

  lemma GroupOfTwo(a: byte, b: byte)
    ensures Group(SixBits([a, b])) == Pack(a, b, 0)
  {
    hide Unpack, Unsix, Pack;
    PackZeros(a, b);
    var g := Pack(a, b, 0);
    assert SixBits([a, b]) == g[..3];
    assert Group(g[..3]) == [g[0], g[1], g[2], 0] == g;
  }

  lemma GroupOfOne(a: byte)
    ensures Group(SixBits([a])) == Pack(a, 0, 0)
  {
    hide Unpack, Unsix, Pack;
    PackZeros(a, 0);
    var g := Pack(a, 0, 0);
    assert SixBits([a]) == g[..2];
    assert Group(g[..2]) == [g[0], g[1], 0, 0] == g;
  }

  lemma ShortGroup(p: seq<byte>)
    requires |p| < 3
    ensures var z := p + Repeat(0, 3 - |p|); Group(SixBits(p)) == Pack(z[0], z[1], z[2])
  {
    hide Pack, Unpack, Unsix;
    if |p| == 2 {
      hide SixBits, Group;
      GroupOfTwo(p[0], p[1]);
      assert p == [p[0], p[1]];
    } else if |p| == 1 {
      hide SixBits, Group;
      GroupOfOne(p[0]);
      assert p == [p[0]];
    } else {
      PackZeros(0, 0);
    }
  }

  lemma UnsixShort(p: seq<byte>)
    requires |p| < 3
    ensures Unsix(SixBits(p)) == p + Repeat(0, 3 - |p|)
  {
    hide Pack, Unpack, Group;
    var z: seq<byte> := p + Repeat(0, 3 - |p|);
    PackedGroup(z);
    ShortGroup(p);
    assert z[..3] == z;
    assert |SixBits(p)| < 4;
  }

  // ---- The 0x90 code

  /** What the encoder packs: every byte as itself, and a zero after each 0x90. It writes no runs. */
  function Escape(bs: seq<byte>): (p: seq<byte>) {
    if bs == [] then [] else EscapeByte(bs[0]) + Escape(bs[1..])
  }

  function EscapeByte(b: byte): (p: seq<byte>) {
    if b == RUNCHAR then [b, 0] else [b]
  }

  lemma {:induction false} EscapeAppend(a: seq<byte>, b: seq<byte>)
    ensures Escape(a + b) == Escape(a) + Escape(b)
  {
    hide EscapeByte;
    if a == [] {
      assert a + b == b;
    } else {
      EscapeAppend(a[1..], b);
      assert (a + b)[1..] == a[1..] + b;
      var e, s, t := EscapeByte(a[0]), Escape(a[1..]), Escape(b);
      assert e + (s + t) == (e + s) + t;
    }
  }

  /**
   The meaning of a packed stream. A 0x90 marks the next byte as a count: zero stands for a
   literal 0x90, and n for n copies of the byte before it, of which one is out already.
   `marked` says that the last packed byte was such a 0x90, and `last` is the last byte out.
   */
  function Expand(p: seq<byte>, marked: bool, last: byte): (out: seq<byte>) {
    if p == [] then []
    else if marked then
      if p[0] == 0 then [RUNCHAR] + Expand(p[1..], false, RUNCHAR)
      else Repeat(last, p[0] - 1) + Expand(p[1..], false, last)
    else if p[0] == RUNCHAR then Expand(p[1..], true, last)
    else [p[0]] + Expand(p[1..], false, p[0])
  }

  function MarkedAfter(p: seq<byte>, marked: bool): (m: bool) {
    if p == [] then marked else MarkedAfter(p[1..], !marked && p[0] == RUNCHAR)
  }

  function LastAfter(p: seq<byte>, marked: bool, last: byte): (l: byte) {
    if p == [] then last
    else if marked then LastAfter(p[1..], false, if p[0] == 0 then RUNCHAR else last)
    else if p[0] == RUNCHAR then LastAfter(p[1..], true, last)
    else LastAfter(p[1..], false, p[0])
  }

  lemma {:induction false} ExpandAppend(p: seq<byte>, q: seq<byte>, marked: bool, last: byte)
    ensures Expand(p + q, marked, last)
         == Expand(p, marked, last) + Expand(q, MarkedAfter(p, marked), LastAfter(p, marked, last))
  {
    if p == [] {
      assert p + q == q;
    } else {
      assert (p + q)[1..] == p[1..] + q;
      if marked {
        ExpandAppend(p[1..], q, false, if p[0] == 0 then RUNCHAR else last);
      } else if p[0] == RUNCHAR {
        ExpandAppend(p[1..], q, true, last);
      } else {
        ExpandAppend(p[1..], q, false, p[0]);
      }
    }
  }

  lemma ExpandEscapeByte(b: byte, rest: seq<byte>, last: byte)
    ensures Expand(EscapeByte(b) + rest, false, last) == [b] + Expand(rest, false, b)
  {
    var p := EscapeByte(b) + rest;
    if b == RUNCHAR {
      assert p[1..] == [0] + rest && ([0] + rest)[1..] == rest;
    } else {
      assert p[1..] == rest;
    }
  }

  /** A byte with a count behind it stands for a run of that length; so RFC 1741 has it, for 0x90 too. */
  lemma RunExpands(b: byte, n: byte, rest: seq<byte>, last: byte)
    requires n >= 1
    ensures Expand((if b == 0x90 then [0x90, 0] else [b]) + [0x90, n] + rest, false, last)
         == Repeat(b, n) + Expand(rest, false, b)
  {
    var tail := [0x90, n] + rest;
    assert EscapeByte(b) + [0x90, n] + rest == EscapeByte(b) + tail;
    ExpandEscapeByte(b, tail, last);
    assert tail[1..] == [n] + rest && tail[1..][1..] == rest;
    assert [b] + Repeat(b, n - 1) == Repeat(b, n);
  }

  /** Expansion undoes the escape, whatever is packed behind it. */
  lemma {:induction false} ExpandEscape(bs: seq<byte>, q: seq<byte>, last: byte)
    ensures Expand(Escape(bs) + q, false, last)
         == bs + Expand(q, false, if bs == [] then last else bs[|bs| - 1])
  {
    hide Expand, EscapeByte;
    if bs == [] {
      assert Escape(bs) + q == q;
    } else {
      var rest := Escape(bs[1..]) + q;
      ExpandEscape(bs[1..], q, bs[0]);
      assert Escape(bs) + q == EscapeByte(bs[0]) + rest;
      ExpandEscapeByte(bs[0], rest, last);
      assert bs == [bs[0]] + bs[1..];
    }
  }

  // ---- Lines of 63 columns

  /** The characters as hqx_put_char writes them when the line already holds `col` characters. */
  function Wrap(cs: seq<byte>, col: nat): (text: seq<byte>) {
    if cs == [] then []
    else if col >= 63 then [NEWLINE, cs[0]] + Wrap(cs[1..], 1)
    else [cs[0]] + Wrap(cs[1..], col + 1)
  }

  function ColumnAfter(n: nat, col: nat): (c: nat) {
    if n == 0 then col else ColumnAfter(n - 1, if col >= 63 then 1 else col + 1)
  }

  lemma {:induction false} WrapAppend(a: seq<byte>, b: seq<byte>, col: nat)
    ensures Wrap(a + b, col) == Wrap(a, col) + Wrap(b, ColumnAfter(|a|, col))
    ensures ColumnAfter(|a| + |b|, col) == ColumnAfter(|b|, ColumnAfter(|a|, col))
  {
    if a == [] {
      assert a + b == b;
    } else {
      assert (a + b)[1..] == a[1..] + b;
      WrapAppend(a[1..], b, if col >= 63 then 1 else col + 1);
    }
  }

  /** How many alphabet characters the text starts with. */
  function LineLength(text: seq<byte>): (n: nat)
    ensures n <= |text|
    ensures forall i :: 0 <= i < n ==> HqxLookup(text[i]) < 64
    ensures n < |text| ==> HqxLookup(text[n]) >= 64
  {
    if text == [] || HqxLookup(text[0]) >= 64 then 0 else 1 + LineLength(text[1..])
  }

  const BUFFER: nat := 8192

  /** A line the decoder takes for encoded data: it ends in a colon, or it has more than 30 characters. */
  predicate DataLine(text: seq<byte>) {
    var n := LineLength(text);
    && n < |text| && n + 2 <= 8192
    && (HqxLookup(text[n]) == STOP || (HqxLookup(text[n]) == EOL && n > 30))
  }

  /** Encoded text up to the terminating colon, of which every further line looks like data. */
  predicate Shaped(text: seq<byte>) {
    && text != []
    && var v := HqxLookup(text[0]);
       if v < 64 then Shaped(text[1..])
       else if v == EOL then DataLine(text[1..]) && Shaped(text[1..])
       else v == STOP
  }

  /** The six-bit stream of shaped text. */
  function Sixes(text: seq<byte>): (s: seq<six>) {
    if text == [] then []
    else
      var v := HqxLookup(text[0]);
      if v < 64 then [v] + Sixes(text[1..])
      else if v == EOL then Sixes(text[1..])
      else []
  }

  const TRAILER: seq<byte> := [COLON, NEWLINE]

  lemma {:induction false} WrapLineLength(s: seq<six>, col: nat)
    requires col <= 63
    ensures var text := Wrap(Chars(s), col) + TRAILER;
            var n := Min(63 - col, |s|);
            LineLength(text) == n && n < |text| && text[n] == (if |s| > 63 - col then NEWLINE else COLON)
  {
    hide HqxLookup, HqxChar;
    Delimiters();
    var cs := Chars(s);
    var text := Wrap(cs, col) + TRAILER;
    if s == [] {
    } else if col >= 63 {
      assert text[0] == NEWLINE;
    } else {
      assert cs[1..] == Chars(s[1..]);
      WrapLineLength(s[1..], col + 1);
      assert text[1..] == Wrap(cs[1..], col + 1) + TRAILER;
    }
  }

  /** Wrapped text has the shape the decoder expects and carries the same six-bit stream. */
  lemma {:induction false} WrapIsShaped(s: seq<six>, col: nat)
    requires col <= 63
    ensures var text := Wrap(Chars(s), col) + TRAILER; Shaped(text) && Sixes(text) == s
  {
    hide HqxLookup, HqxChar;
    Delimiters();
    var cs := Chars(s);
    var text := Wrap(cs, col) + TRAILER;
    if s == [] {
      assert text == TRAILER;
    } else {
      assert cs[1..] == Chars(s[1..]);
      var col' := if col >= 63 then 1 else col + 1;
      WrapIsShaped(s[1..], col');
      var rest := Wrap(cs[1..], col') + TRAILER;
      if col >= 63 {
        var line := [cs[0]] + rest;
        assert text[1..] == line && line[1..] == rest;
        WrapLineLength(s, 0);
        assert Wrap(cs, 0) + TRAILER == line;
      } else {
        assert text[1..] == rest;
      }
      assert s == [s[0]] + s[1..];
    }
  }
}
