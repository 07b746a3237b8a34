/** A BinHex file as a whole: the header, the two forks and their checksums, and the text around them. */
module HqxFile {
  import opened Bytes
  import opened CrcBytes
  import opened HqxFormat

  // ---- The header

  /** The fields of struct FHeader that BinHex carries; the last four are in network byte order. */
  datatype FHeader = FHeader(name: seq<byte>, fdType: seq<byte>, fdCreator: seq<byte>, fdFlags: seq<byte>,
                             dataLen: seq<byte>, rsrcLen: seq<byte>)

  const MAX_NAME: nat := 63
  const FIELDS: nat := 19

  predicate ValidHeader(fh: FHeader) {
    && |fh.name| <= 255 && 0 !in fh.name
    && |fh.fdType| == 4 && |fh.fdCreator| == 4 && |fh.fdFlags| == 2 && |fh.dataLen| == 4 && |fh.rsrcLen| == 4
  }

  /** The Finder flags under the mask 0xfcee, which clears the two low bits of the high byte
      and bits 0 and 4 of the low byte. */
  function MaskFlags(flags: seq<byte>): (r: seq<byte>)
    requires |flags| == 2
    ensures |r| == 2
  {
    [flags[0] - flags[0] % 4, flags[1] - flags[1] % 2 - flags[1] / 16 % 2 * 16]
  }

  /** The two bytes under the mask, bit by bit. */
  lemma MaskIsFcee(flags: seq<byte>)
    requires |flags| == 2
    ensures var r := MaskFlags(flags);
            BitsOf(r[0]) == BitsOf(flags[0]) & 0xfc && BitsOf(r[1]) == BitsOf(flags[1]) & 0xee
  {
    var r := MaskFlags(flags);
    HighFlags(flags[0], r[0]);
    LowFlags(flags[1], r[1]);
  }

  lemma HighFlags(x: byte, y: byte)
    requires y == x - x % 4
    ensures BitsOf(y) == BitsOf(x) & 0xfc
  {
    HighDigits(x, y);
    hide BinaryDigit, FromDigits;
    HighMask(BinaryDigit(x, 7), BinaryDigit(x, 6), BinaryDigit(x, 5), BinaryDigit(x, 4),
             BinaryDigit(x, 3), BinaryDigit(x, 2), BinaryDigit(x, 1), BinaryDigit(x, 0));
  }

  lemma HighDigits(x: byte, y: byte)
    requires y == x - x % 4
    ensures !BinaryDigit(y, 0) && !BinaryDigit(y, 1)
    ensures forall n :: 2 <= n < 8 ==> BinaryDigit(y, n) == BinaryDigit(x, n)
  {
    hide Halved;
    Halvings(x);
    Halvings(y);
    var h := Halved(x, 2);
    assert x % 4 == x - 4 * h;
    assert Halved(y, 1) == 2 * h;
    assert Halved(y, 2) == h;
    assert Halved(y, 3) == Halved(x, 3);
  }

  lemma HighMask(b7: bool, b6: bool, b5: bool, b4: bool, b3: bool, b2: bool, b1: bool, b0: bool)
    ensures FromDigits(b7, b6, b5, b4, b3, b2, false, false)
         == FromDigits(b7, b6, b5, b4, b3, b2, b1, b0) & 0xfc
  {
  }

  lemma LowFlags(x: byte, y: byte)
    requires y == x - x % 2 - x / 16 % 2 * 16
    ensures BitsOf(y) == BitsOf(x) & 0xee
  {
    LowDigits(x, y);
    hide BinaryDigit, FromDigits;
    LowMask(BinaryDigit(x, 7), BinaryDigit(x, 6), BinaryDigit(x, 5), BinaryDigit(x, 4),
            BinaryDigit(x, 3), BinaryDigit(x, 2), BinaryDigit(x, 1), BinaryDigit(x, 0));
  }

  lemma LowDigits(x: byte, y: byte)
    requires y == x - x % 2 - x / 16 % 2 * 16
    ensures !BinaryDigit(y, 0) && !BinaryDigit(y, 4)
    ensures forall n :: 0 <= n < 8 && n != 0 && n != 4 ==> BinaryDigit(y, n) == BinaryDigit(x, n)
  {
    hide Halved;
    Halvings(x);
    Halvings(y);
    var k := Halved(x, 4) % 2;
    assert x / 16 == Halved(x, 4);
    assert Halved(y, 1) == Halved(x, 1) - 8 * k;
    assert Halved(y, 2) == Halved(x, 2) - 4 * k;
    assert Halved(y, 3) == Halved(x, 3) - 2 * k;
    assert Halved(y, 4) == Halved(x, 4) - k;
    assert Halved(y, 5) == Halved(x, 5);
  }

  lemma LowMask(b7: bool, b6: bool, b5: bool, b4: bool, b3: bool, b2: bool, b1: bool, b0: bool)
    ensures FromDigits(b7, b6, b5, false, b3, b2, b1, false)
         == FromDigits(b7, b6, b5, b4, b3, b2, b1, b0) & 0xee
  {
  }

  lemma Halvings(x: nat)
    ensures Halved(x, 0) == x && Halved(x, 1) == Halved(x, 0) / 2 && Halved(x, 2) == Halved(x, 1) / 2
    ensures Halved(x, 3) == Halved(x, 2) / 2 && Halved(x, 4) == Halved(x, 3) / 2 && Halved(x, 5) == Halved(x, 4) / 2
    ensures Halved(x, 6) == Halved(x, 5) / 2 && Halved(x, 7) == Halved(x, 6) / 2
  {
    assert Halved(x, 0) == x;
    hide Halved;
    forall n | 0 <= n < 8
      ensures Halved(x, n + 1) == Halved(x, n) / 2
    {
      OneDigit(x, n);
    }
  }

  lemma MaskTwice(flags: seq<byte>)
    requires |flags| == 2
    ensures MaskFlags(MaskFlags(flags)) == MaskFlags(flags)
  {
    var m := MaskFlags(flags);
    assert m[0] % 4 == 0;
    assert m[1] % 2 == 0 && m[1] / 16 % 2 == 0;
  }

  /** The fixed fields after the name: version, type, creator, flags and fork lengths. */
  function FieldBytes(fh: FHeader): (bs: seq<byte>)
    requires ValidHeader(fh)
    ensures |bs| == FIELDS
  {
    [0] + fh.fdType + fh.fdCreator + MaskFlags(fh.fdFlags) + fh.dataLen + fh.rsrcLen
  }

  function HeaderBytes(fh: FHeader): (bs: seq<byte>)
    requires ValidHeader(fh)
    ensures |bs| == 1 + |fh.name| + FIELDS
  {
    [|fh.name|] + fh.name + FieldBytes(fh)
  }

  /** What the decoder takes from a header whose name occupies `n` bytes. */
  function ParseHeader(bs: seq<byte>, n: byte): (fh: FHeader)
    requires |bs| >= n + FIELDS
    ensures ValidHeader(fh)
  {
    var f := bs[n..];
    FHeader(CString(bs[..n]), f[1..5], f[5..9], MaskFlags(f[9..11]), f[11..15], f[15..19])
  }

  lemma ParseHeaderBytes(fh: FHeader)
    requires ValidHeader(fh)
    ensures var bs := HeaderBytes(fh)[1..];
            ParseHeader(bs, |fh.name|) == fh.(fdFlags := MaskFlags(fh.fdFlags))
  {
    var bs := HeaderBytes(fh)[1..];
    var n := |fh.name|;
    assert bs == fh.name + FieldBytes(fh);
    assert bs[..n] == fh.name && bs[n..] == FieldBytes(fh);
    FieldSlices(fh);
    CStringWhole(fh.name);
    MaskTwice(fh.fdFlags);
  }

  lemma FieldSlices(fh: FHeader)
    requires ValidHeader(fh)
    ensures var f := FieldBytes(fh);
            && f[1..5] == fh.fdType && f[5..9] == fh.fdCreator && f[9..11] == MaskFlags(fh.fdFlags)
            && f[11..15] == fh.dataLen && f[15..19] == fh.rsrcLen
  {
    hide MaskFlags;
  }

  /** Where each field of the header lies, in the order that RFC 1741 gives. */
  lemma HeaderLayout(fh: FHeader)
    requires ValidHeader(fh)
    ensures var h, n := HeaderBytes(fh), |fh.name|;
            && |h| == n + 20 && h[0] == n && h[1..n + 1] == fh.name && h[n + 1] == 0
            && h[n + 2..n + 6] == fh.fdType && h[n + 6..n + 10] == fh.fdCreator
            && h[n + 10..n + 12] == MaskFlags(fh.fdFlags)
            && h[n + 12..n + 16] == fh.dataLen && h[n + 16..] == fh.rsrcLen
  {
    hide MaskFlags;
    var h, n, f := HeaderBytes(fh), |fh.name|, FieldBytes(fh);
    FieldSlices(fh);
    assert h[n + 1..] == f;
    SliceOfRest(h, n + 1, 1, 5);
    SliceOfRest(h, n + 1, 5, 9);
    SliceOfRest(h, n + 1, 9, 11);
    SliceOfRest(h, n + 1, 11, 15);
    SliceOfRest(h, n + 1, 15, 19);
    assert h[n + 16..n + 20] == h[n + 16..];
  }

  lemma SliceOfRest(s: seq<byte>, k: nat, from: nat, to: nat)
    requires from <= to && k + to <= |s|
    ensures s[k..][from..to] == s[k + from..k + to]
  {
  }

  // ---- The whole file

  /** The header's lengths are those of the forks. */
  predicate Describes(fh: FHeader, data: seq<byte>, rsrc: seq<byte>) {
    ValidHeader(fh) && FromBe32(fh.dataLen) == |data| && FromBe32(fh.rsrcLen) == |rsrc|
  }

  function Payload(fh: FHeader, data: seq<byte>, rsrc: seq<byte>): (bs: seq<byte>)
    requires ValidHeader(fh)
  {
    Sealed(HeaderBytes(fh)) + Sealed(data) + Sealed(rsrc)
  }

  /** The bytes of ASCII text. */
  function Ascii(text: string): (bs: seq<byte>)
    requires forall i :: 0 <= i < |text| ==> text[i] < '\U{80}'
  {
    seq(|text|, i requires 0 <= i < |text| => text[i] as int)
  }

  /** The line that RFC 1741 demands, and an empty line. */
  const BANNER: seq<byte> :=
    Ascii("(This file must ") + Ascii("be converted wit") + Ascii("h BinHex 4.0)\n\n")

  lemma BannerHasNoColon()
    ensures COLON !in BANNER && |BANNER| == 47
  {
    assert COLON !in Ascii("(This file must ");
    assert COLON !in Ascii("be converted wit");
    assert COLON !in Ascii("h BinHex 4.0)\n\n");
  }

  /** The text that carries these bytes. */
  function TextOf(payload: seq<byte>): (text: seq<byte>) {
    BANNER + [COLON] + Wrap(Chars(SixBits(Escape(payload))), 0) + TRAILER
  }

  /** The text that a conversion of these forks produces. */
  function HqxText(fh: FHeader, data: seq<byte>, rsrc: seq<byte>): (text: seq<byte>)
    requires ValidHeader(fh)
  {
    TextOf(Payload(fh, data, rsrc))
  }
}
