/** The MacBinary file format of bin/nad/macbin.c: a 128-byte header and two padded forks. */
module MacBinFormat {
  import opened Bytes
  import opened CrcBytes

  const HEADBUFSIZ := 128
  const MACBIN_NAMELEN := 63
  const MAX_LENGTH := 0x7fff_ffff
  const FILL: byte := 0x7f
  const MAGIC: seq<byte> := [0x6d, 0x42, 0x49, 0x4e]

  /** What a MacBinary header says of a file. The two dates are in the form that MacBinary has them. */
  datatype BinHeader = BinHeader(
    name: seq<byte>, typeAndCreator: seq<byte>, flags: uint16, location: seq<byte>, folder: seq<byte>,
    dataLength: uint32, rsrcLength: uint32, created: seq<byte>, modified: seq<byte>, script: byte, xflags: byte)

  predicate ValidBinHeader(fh: BinHeader) {
    && |fh.name| <= 255 && NUL !in fh.name && |fh.typeAndCreator| == 8 && |fh.location| == 4 && |fh.folder| == 2
    && |fh.created| == 4 && |fh.modified| == 4
  }

  predicate Holds(b: seq<byte>, at: nat, field: seq<byte>) {
    at + |field| <= |b| && b[at..at + |field|] == field
  }

  /** All 128 bytes of the MacBinary III header of a file. */
  predicate HeaderOf(b: seq<byte>, fh: BinHeader) {
    && |b| == HEADBUFSIZ && |fh.name| <= MACBIN_NAMELEN
    && NameOf(b, fh.name) && FinderOf(b, fh) && LengthsOf(b, fh)
    && Holds(b, 102, [0x6d, 0x42, 0x49, 0x4e] + [fh.script, fh.xflags]) && Holds(b, 108, Repeat(0, 14) + [130, 129])
    && Holds(b, 124, CrcField(CrcFrom(0, b[..124])) + [0, 0])
  }

  predicate NameOf(b: seq<byte>, name: seq<byte>)
    requires |name| <= MACBIN_NAMELEN
  {
    Holds(b, 0, [0, |name|] + name + Repeat(0, 63 - |name|))
  }

  predicate FinderOf(b: seq<byte>, fh: BinHeader) {
    && Holds(b, 65, fh.typeAndCreator) && Holds(b, 73, Be16(fh.flags))
    && Holds(b, 75, fh.location) && Holds(b, 79, fh.folder)
    && Holds(b, 99, [0, 0, fh.flags % 0x100])
  }

  predicate LengthsOf(b: seq<byte>, fh: BinHeader) {
    && Holds(b, 81, [0, 0] + Be32(fh.dataLength)) && Holds(b, 87, Be32(fh.rsrcLength))
    && Holds(b, 91, fh.created) && Holds(b, 95, fh.modified)
  }

  /** A MacBinary II header: the low flags stand at 101 alone, there is no signature, and a checksum closes it. */
  predicate SecondHeaderOf(b: seq<byte>, fh: BinHeader) {
    && |b| == HEADBUFSIZ && |fh.name| <= MACBIN_NAMELEN && fh.script == 0 && fh.xflags == 0
    && NameOf(b, fh.name) && OlderFinderOf(b, fh) && LengthsOf(b, fh) && Holds(b, 101, [fh.flags % 0x100])
    && Holds(b, 102, Repeat(0, 20) + [129, 129])
    && Holds(b, 124, CrcField(CrcFrom(0, b[..124])))
  }

  /** A MacBinary I header: only the high byte of the flags, and zeros from the dates on. */
  predicate FirstHeaderOf(b: seq<byte>, fh: BinHeader) {
    && |b| == HEADBUFSIZ && 1 <= |fh.name| <= MACBIN_NAMELEN && fh.script == 0 && fh.xflags == 0
    && NameOf(b, fh.name) && OlderFinderOf(b, fh) && LengthsOf(b, fh) && fh.flags % 0x100 == 0
    && Holds(b, 99, Repeat(0, 29))
    && fh.dataLength <= MAX_LENGTH && fh.rsrcLength <= MAX_LENGTH
  }

  predicate OlderFinderOf(b: seq<byte>, fh: BinHeader) {
    && Holds(b, 65, fh.typeAndCreator) && Holds(b, 73, [fh.flags / 0x100, 0])
    && Holds(b, 75, fh.location) && Holds(b, 79, fh.folder)
  }

  /** test_header on a whole header: the revision, or -1. */
  function Revision(b: seq<byte>): (r: int)
    requires |b| == HEADBUFSIZ
    ensures r == -1 || 1 <= r <= 3
  {
    if b[102..106] == MAGIC then 3
    else if (b[0] == 0 || b[74] == 0) && CrcFrom(0, b[..124]) as int == FromBe16(b[124..126]) then 2
    else if b[82] == 0 && 1 <= b[1] <= MACBIN_NAMELEN && b[101..126] == Repeat(0, 25)
            && FromBe32(b[83..87]) <= MAX_LENGTH && FromBe32(b[87..91]) <= MAX_LENGTH then 1
    else -1
  }

  /** The low byte of the Finder flags. */
  function FlagsLow(b: seq<byte>, revision: int): (f: byte)
    requires |b| == HEADBUFSIZ
  {
    if revision < 2 then 0 else if b[101] == 0 then b[74] else b[101]
  }

  /** bin_header_read; `script` and `xflags` are 0 in the older revisions. */
  function Parsed(b: seq<byte>, revision: int): (fh: BinHeader)
    requires |b| == HEADBUFSIZ && b[1] <= 126
    ensures ValidBinHeader(fh)
  {
    BinHeader(CString(b[2..2 + b[1]]), b[65..73], b[73] * 0x100 + FlagsLow(b, revision), b[75..79], b[79..81],
              FromBe32(b[83..87]), FromBe32(b[87..91]), b[91..95], b[95..99],
              if revision == 3 then b[106] else 0, if revision == 3 then b[107] else 0)
  }

  /** Every field that the header of a file holds is read back from it. */
  lemma HeaderRoundTrip(b: seq<byte>, fh: BinHeader)
    requires ValidBinHeader(fh) && HeaderOf(b, fh)
    ensures Revision(b) == 3 && b[1] == |fh.name| <= MACBIN_NAMELEN && Parsed(b, 3) == fh
  {
    hide CrcFrom, CrcField, Be32, Be16, FromBe32;
    MagicIsThere(b, fh);
    NameIsThere(b, fh.name);
    CStringWhole(fh.name);
    FinderIsThere(b, fh);
    LengthsAreThere(b, fh);
  }

  /** A MacBinary II header is known as one, and every field that it holds is read back from it. */
  lemma SecondRoundTrip(b: seq<byte>, fh: BinHeader)
    requires ValidBinHeader(fh) && SecondHeaderOf(b, fh)
    ensures Revision(b) == 2 && b[1] == |fh.name| && Parsed(b, 2) == fh
  {
    hide CrcFrom, CrcField, Be32, Be16, FromBe32, FromBe16;
    assert b[102] == b[102..124][0];
    assert b[102..106][0] == b[102];
    CrcFieldMatches(b[124..126], CrcFrom(0, b[..124]));
    NameIsThere(b, fh.name);
    CStringWhole(fh.name);
    OlderFinderIsThere(b, fh);
    LengthsAreThere(b, fh);
    assert b[101] == b[101..102][0];
  }

  /** A header without the signature that ends in its checksum is MacBinary II if one of two bytes is zero. */
  lemma EitherByteSuffices(b: seq<byte>)
    requires |b| == HEADBUFSIZ && b[102..106] != [0x6d, 0x42, 0x49, 0x4e] && (b[82] != 0 || b[101] != 0)
    ensures Revision(b) == 2 <==> b[..126] == Sealed(b[..124]) && (b[0] == 0 || b[74] == 0)
    ensures Revision(b) in {2, -1}
  {
    hide CrcFrom, CrcField, FromBe32, FromBe16;
    CrcFieldMatches(b[124..126], CrcFrom(0, b[..124]));
    assert b[..126] == b[..124] + b[124..126];
    assert b[101..126][0] == b[101];
  }

  /**
   A MacBinary I header is read back too. It passes for one of MacBinary II if its first 124 bytes have the checksum
   zero, which reads the same fields.
   */
  lemma FirstRoundTrip(b: seq<byte>, fh: BinHeader)
    requires ValidBinHeader(fh) && FirstHeaderOf(b, fh)
    ensures Revision(b) == (if CrcFrom(0, b[..124]) == 0 then 2 else 1)
    ensures b[1] == |fh.name| && Parsed(b, Revision(b)) == fh
  {
    hide CrcFrom, CrcField, Be32, Be16, FromBe32;
    NameIsThere(b, fh.name);
    ZerosAreThere(b);
    ZeroChecksum(b[124..126], CrcFrom(0, b[..124]));
    CStringWhole(fh.name);
    OlderFinderIsThere(b, fh);
    LengthsAreThere(b, fh);
    assert b[82] == b[81..87][1];
  }

  lemma ZerosAreThere(b: seq<byte>)
    requires |b| == HEADBUFSIZ && Holds(b, 99, Repeat(0, 29))
    ensures b[101..126] == Repeat(0, 25) && b[124..126] == [0, 0] && b[101] == 0 && b[102..106] != MAGIC
  {
    var zeros := b[99..128];
    assert b[101..126] == zeros[2..27] && b[124..126] == zeros[25..27];
    assert b[101] == zeros[2] && b[102] == zeros[3];
    assert b[102..106][0] == b[102];
  }

  lemma ZeroChecksum(field: seq<byte>, crc: bv16)
    requires field == [0, 0]
    ensures crc as int == FromBe16(field) <==> crc == 0
  {
    if crc != 0 {
      CrcAsIntDiffers(crc, 0);
    }
  }

  lemma OlderFinderIsThere(b: seq<byte>, fh: BinHeader)
    requires |b| == HEADBUFSIZ && ValidBinHeader(fh) && OlderFinderOf(b, fh)
    ensures b[65..73] == fh.typeAndCreator && b[75..79] == fh.location && b[79..81] == fh.folder
    ensures b[73] == fh.flags / 0x100 && b[74] == 0
  {
    assert b[73] == b[73..75][0] && b[74] == b[73..75][1];
  }

  lemma MagicIsThere(b: seq<byte>, fh: BinHeader)
    requires |b| == HEADBUFSIZ && Holds(b, 102, MAGIC + [fh.script, fh.xflags])
    ensures b[102..106] == MAGIC && b[106] == fh.script && b[107] == fh.xflags
  {
    var field := b[102..108];
    assert field[..4] == MAGIC && field[4] == fh.script && field[5] == fh.xflags;
    assert b[102..106] == field[..4];
  }

  lemma NameIsThere(b: seq<byte>, name: seq<byte>)
    requires |b| == HEADBUFSIZ && |name| <= MACBIN_NAMELEN && NameOf(b, name)
    ensures b[1] == |name| && b[2..2 + |name|] == name
  {
    var field := b[0..65];
    assert field[1] == |name| && field[2..2 + |name|] == name;
    assert b[2..2 + |name|] == field[2..2 + |name|];
  }

  lemma FinderIsThere(b: seq<byte>, fh: BinHeader)
    requires |b| == HEADBUFSIZ && ValidBinHeader(fh) && FinderOf(b, fh)
    ensures b[65..73] == fh.typeAndCreator && b[75..79] == fh.location && b[79..81] == fh.folder
    ensures b[73] * 0x100 + FlagsLow(b, 3) == fh.flags
  {
    assert b[73] == b[73..75][0] && b[74] == b[73..75][1] && b[101] == b[99..102][2];
  }

  lemma LengthsAreThere(b: seq<byte>, fh: BinHeader)
    requires |b| == HEADBUFSIZ && ValidBinHeader(fh) && LengthsOf(b, fh)
    ensures FromBe32(b[83..87]) == fh.dataLength && FromBe32(b[87..91]) == fh.rsrcLength
    ensures b[91..95] == fh.created && b[95..99] == fh.modified
  {
    hide Be32, FromBe32;
    assert b[83..87] == b[81..87][2..];
    assert ([0, 0] + Be32(fh.dataLength))[2..] == Be32(fh.dataLength);
    Be32RoundTrip(fh.dataLength);
    Be32RoundTrip(fh.rsrcLength);
  }

  /** The bytes it takes from a position to the next multiple of 128. */
  function Padding(pos: nat): (n: nat)
    ensures n < HEADBUFSIZ && (pos + n) % HEADBUFSIZ == 0
  {
    if pos % HEADBUFSIZ == 0 then 0 else HEADBUFSIZ - pos % HEADBUFSIZ
  }

  function Padded(fork: seq<byte>): (r: seq<byte>)
    ensures |r| % HEADBUFSIZ == 0 && fork <= r
  {
    fork + Repeat(0x7f, Padding(|fork|))
  }

  /** Where the resource fork begins. */
  function RsrcStart(dataLength: nat): (at: nat)
    ensures at % HEADBUFSIZ == 0
  {
    HEADBUFSIZ + dataLength + Padding(HEADBUFSIZ + dataLength)
  }

  /** A whole MacBinary file. */
  predicate BinFile(file: seq<byte>, fh: BinHeader, data: seq<byte>, rsrc: seq<byte>) {
    Forks(file, fh, data, rsrc) && HeaderOf(file[..HEADBUFSIZ], fh)
  }

  /** The two forks behind a header that gives their lengths. */
  predicate Forks(file: seq<byte>, fh: BinHeader, data: seq<byte>, rsrc: seq<byte>) {
    && |file| >= HEADBUFSIZ && file[HEADBUFSIZ..] == Padded(data) + Padded(rsrc)
    && |data| == fh.dataLength && |rsrc| == fh.rsrcLength
  }

  /** A file is a whole number of blocks, and both forks lie in it on block boundaries. */
  lemma Layout(file: seq<byte>, fh: BinHeader, data: seq<byte>, rsrc: seq<byte>)
    requires Forks(file, fh, data, rsrc)
    ensures |file| % HEADBUFSIZ == 0
    ensures var at := RsrcStart(|data|); |file| == at + |Padded(rsrc)|
    ensures Holds(file, HEADBUFSIZ, data) && Holds(file, RsrcStart(|data|), rsrc)
  {
    hide Padding, Holds;
    var head, dataFill, rsrcFill := file[..HEADBUFSIZ], Repeat(FILL, Padding(|data|)), Repeat(FILL, Padding(|rsrc|));
    PaddingShifts(|data|);
    assert file == head + file[HEADBUFSIZ..];
    assert file == head + data + (dataFill + Padded(rsrc));
    Within(head, data, dataFill + Padded(rsrc));
    assert file == (head + Padded(data)) + rsrc + rsrcFill;
    Within(head + Padded(data), rsrc, rsrcFill);
  }

  lemma Within(a: seq<byte>, b: seq<byte>, c: seq<byte>)
    ensures Holds(a + b + c, |a|, b)
  {
  }

  lemma PaddingShifts(n: nat)
    ensures Padding(HEADBUFSIZ + n) == Padding(n)
  {
  }

  /** What bytes from a place on are there, up to a number of them. */
  function Clip(file: seq<byte>, at: nat, n: nat): (r: seq<byte>)
    ensures |r| == Max(0, Min(n, |file| - at))
  {
    if at >= |file| then [] else file[at..Min(|file|, at + n)]
  }

  lemma ClipAtEnd(file: seq<byte>, at: nat, n: nat, m: nat)
    requires n <= m && at + n >= |file|
    ensures Clip(file, at, n) == Clip(file, at, m)
  {
  }

  lemma ClipJoin(file: seq<byte>, at: nat, n: nat, m: nat)
    requires |Clip(file, at, n)| == n
    ensures var more := Clip(file, at + n, m); Clip(file, at, n) + more == Clip(file, at, n + |more|)
  {
  }
}
