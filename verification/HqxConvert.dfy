/** Conversion from BinHex, and the round trip through both conversions. */
module HqxConvert {
  import opened Bytes
  import opened CrcBytes
  import opened HqxFormat
  import opened HqxStream
  import opened HqxFile
  import opened HqxEncoder
  import opened HqxDecoder

  datatype Archive = Archive(fh: FHeader, data: seq<byte>, rsrc: seq<byte>)

  /** The stream holds a fork of this length in whole groups, with a correct checksum behind it. */
  ghost predicate GoodFork(st: Stream, length: nat)
    requires WellFormed(st)
  {
    && st.Open? && length <= MAX_FORK && length <= st.sure
    && Given(After(st, length), CRC_SIZE) == CrcField(CrcFrom(0, st.rest[..length]))
  }

  ghost function AfterFork(st: Stream, length: nat): (st': Stream)
    requires WellFormed(st)
    ensures WellFormed(st')
  {
    After(After(st, length), CRC_SIZE)
  }

  ghost predicate GoodArchive(st: Stream)
    requires WellFormed(st)
  {
    && GoodHeader(st)
    && var fh, st1 := HeaderOf(st), AfterHeader(st);
    && GoodFork(st1, FromBe32(fh.dataLen))
    && GoodFork(AfterFork(st1, FromBe32(fh.dataLen)), FromBe32(fh.rsrcLen))
  }

  ghost function ArchiveOf(st: Stream): (a: Archive)
    requires WellFormed(st) && GoodArchive(st)
  {
    var fh, st1 := HeaderOf(st), AfterHeader(st);
    var st2 := AfterFork(st1, FromBe32(fh.dataLen));
    Archive(fh, st1.rest[..FromBe32(fh.dataLen)], st2.rest[..FromBe32(fh.rsrcLen)])
  }

  ghost function TextStream(file: seq<byte>): (st: Stream)
    ensures WellFormed(st)
  {
    StreamOf([], Sixes(Body(file)), false, 0)
  }

  /** The inner loop of the conversion in bin/nad/megatron.c, with the length check that follows it. */
  method ReadFork(dec: Decoder, fork: nat, chunk: nat) returns (ok: bool, bytes: seq<byte>)
    requires dec.Valid() && fork < 2 && chunk > 0
    requires |dec.forklen| == 2 && |dec.forkcrc| == 2 && dec.forkcrc[fork] == 0
    modifies dec, dec.buf
    ensures dec.Valid() && |dec.forklen| == 2 && |dec.forkcrc| == 2
    ensures dec.forklen[1 - fork] == old(dec.forklen)[1 - fork] && dec.forkcrc[1 - fork] == old(dec.forkcrc)[1 - fork]
    ensures ok <==> GoodFork(old(dec.Stream()), old(dec.forklen)[fork])
    ensures ok ==> bytes == old(dec.Stream()).rest[..old(dec.forklen)[fork]]
                   && dec.Stream() == AfterFork(old(dec.Stream()), old(dec.forklen)[fork])
  {
    hide Decoder.Valid, Decoder.Stream, CrcFrom, CrcField;
    ghost var st := dec.Stream();
    var length := dec.forklen[fork];
    bytes := [];
    CrcFromEmpty(0);
    while true
      invariant dec.Valid() && |dec.forklen| == 2 && |dec.forkcrc| == 2
      invariant dec.forklen[1 - fork] == old(dec.forklen)[1 - fork]
      invariant dec.forkcrc[1 - fork] == old(dec.forkcrc)[1 - fork]
      invariant |bytes| <= length && dec.forklen[fork] == length - |bytes|
      invariant dec.forkcrc[fork] == CrcFrom(0, bytes)
      invariant Progress(st, bytes, length, dec.Stream())
      invariant |bytes| > 0 ==> length <= MAX_FORK
      decreases length - |bytes|
    {
      ghost var sofar := bytes;
      var r := dec.Read(fork, chunk);
      if r == None {
        return false, bytes;
      }
      if r.value == [] {
        break;
      }
      CrcAppend(0, bytes, r.value);
      bytes := bytes + r.value;
      ProgressStep(st, sofar, length, Min(length - |sofar|, chunk));
    }
    ok := |bytes| == length;
  }

  /** How far a fork has been read: either evenly along the stream, or the stream ended short of the fork. */
  ghost predicate Progress(st: Stream, bytes: seq<byte>, length: nat, now: Stream)
    requires WellFormed(st)
  {
    if st.Open? && |bytes| <= st.sure && now.Open? then bytes == st.rest[..|bytes|] && now == After(st, |bytes|)
    else now.Ended? && (st.Ended? || length > st.sure)
  }

  lemma ProgressStep(st: Stream, bytes: seq<byte>, length: nat, n: nat)
    requires WellFormed(st) && |bytes| + n <= length
    ensures st.Open? && |bytes| <= st.sure && bytes == st.rest[..|bytes|] ==>
              var now := After(st, |bytes|); Progress(st, bytes + Given(now, n), length, After(now, n))
  {
  }

  /** A conversion from BinHex. It succeeds exactly on text whose three checksums agree. */
  method Unhex(file: seq<byte>, chunk: nat) returns (r: Option<Archive>)
    requires Readable(file) && chunk > 0
    ensures r.Some? <==> GoodArchive(TextStream(file))
    ensures r.Some? ==> r.value == ArchiveOf(TextStream(file))
  {
    hide Decoder.Valid, GoodHeader, HeaderOf, AfterHeader, GoodFork, AfterFork, Readable, Sixes, StreamOf, FromBe32;
    var dec := new Decoder(file);
    ReadableIsShaped(file);
    var found := dec.SkipToFirstLine();
    dec.StartsAtText();
    assert dec.hqx8[3..] == [];
    ghost var st := TextStream(file);
    var fh := dec.HeaderRead();
    if fh == None {
      return None;
    }
    var ok, data := ReadFork(dec, 0, chunk);
    if !ok {
      return None;
    }
    var rsrc;
    ok, rsrc := ReadFork(dec, 1, chunk);
    if !ok {
      return None;
    }
    r := Some(Archive(fh.value, data, rsrc));
  }

  lemma ReadableIsShaped(file: seq<byte>)
    requires Readable(file)
    ensures Shaped(Body(file))
  {
  }

  // ---- Encoded text is readable

  lemma {:induction false} SixBitsLong(p: seq<byte>)
    ensures 3 * |SixBits(p)| >= 4 * |p|
  {
    hide Pack;
    if |p| >= 3 {
      SixBitsLong(p[3..]);
    }
  }

  lemma {:induction false} BodyBehind(pre: seq<byte>, text: seq<byte>)
    requires COLON !in pre
    ensures Body(pre + [COLON] + text) == text && COLON in pre + [COLON] + text
  {
    var file := pre + [COLON] + text;
    assert file[|pre|] == COLON;
    if pre == [] {
      assert file[1..] == text;
    } else {
      BodyBehind(pre[1..], text);
      assert file[1..] == pre[1..] + [COLON] + text;
    }
  }

  /** Text that carries enough bytes for a first line has the shape that the decoder's scan needs. */
  lemma TextIsReadable(payload: seq<byte>)
    requires |payload| >= 26
    ensures Readable(TextOf(payload)) && Sixes(Body(TextOf(payload))) == SixBits(Escape(payload))
  {
    hide TextOf, Readable, Escape, SixBits, Chars, Wrap, HqxLookup, LineLength, Shaped, Sixes, Body;
    var s := SixBits(Escape(payload));
    EscapeNotShorter(payload);
    SixBitsLong(Escape(payload));
    BannerHasNoColon();
    TextParts(payload);
    WrapIsShaped(s, 0);
    LongTextIsReadable(s);
  }

  lemma TextParts(payload: seq<byte>)
    ensures var text := Wrap(Chars(SixBits(Escape(payload))), 0) + TRAILER;
            TextOf(payload) == BANNER + [COLON] + text && Body(TextOf(payload)) == text
  {
    hide Escape, SixBits, Chars, Wrap, Body;
    var text := Wrap(Chars(SixBits(Escape(payload))), 0) + TRAILER;
    assert TextOf(payload) == BANNER + [COLON] + text;
    BannerHasNoColon();
    BodyBehind(BANNER, text);
  }

  lemma LongTextIsReadable(s: seq<six>)
    requires |s| > 30
    ensures Readable(BANNER + [COLON] + (Wrap(Chars(s), 0) + TRAILER))
  {
    hide Chars, Wrap, HqxLookup, LineLength, Shaped, Body;
    var text := Wrap(Chars(s), 0) + TRAILER;
    BannerHasNoColon();
    BodyBehind(BANNER, text);
    WrapLineLength(s, 0);
    WrapIsShaped(s, 0);
    Delimiters();
  }

  lemma EncodedIsReadable(fh: FHeader, data: seq<byte>, rsrc: seq<byte>)
    requires ValidHeader(fh)
    ensures var file, s := HqxText(fh, data, rsrc), SixBits(Escape(Payload(fh, data, rsrc)));
            Readable(file) && Sixes(Body(file)) == s
  {
    hide Payload, TextOf, Escape, SixBits, Readable, Sixes, Body;
    PayloadLong(fh, data, rsrc);
    TextIsReadable(Payload(fh, data, rsrc));
  }

  lemma PayloadLong(fh: FHeader, data: seq<byte>, rsrc: seq<byte>)
    requires ValidHeader(fh)
    ensures |Payload(fh, data, rsrc)| >= 26
  {
  }

  // ---- The round trip

  /** A sealed part at the front of a stream that runs on to at least two bytes before the end of `tail`. */
  lemma SealedForkIsGood(st: Stream, bs: seq<byte>, tail: seq<byte>)
    requires WellFormed(st) && st.Open? && |bs| <= MAX_FORK
    requires Sealed(bs) + tail <= st.rest && st.sure + CRC_SIZE >= |Sealed(bs) + tail|
    ensures GoodFork(st, |bs|) && st.rest[..|bs|] == bs
    ensures |tail| >= CRC_SIZE ==> var st' := AfterFork(st, |bs|);
                                   st'.Open? && tail <= st'.rest && st'.sure + CRC_SIZE >= |tail|
  {
    hide CrcFrom, CrcField;
    var field := CrcField(CrcFrom(0, bs));
    assert st.rest[..|bs|] == (Sealed(bs) + tail)[..|bs|] == bs;
    assert st.rest[|bs|..][..CRC_SIZE] == (Sealed(bs) + tail)[|bs|..][..CRC_SIZE] == field;
    assert st.rest[|bs| + CRC_SIZE..][..|tail|] == (Sealed(bs) + tail)[|bs| + CRC_SIZE..] == tail;
    assert st.rest[|bs|..][CRC_SIZE..] == st.rest[|bs| + CRC_SIZE..];
  }

  lemma SealedHeaderIsGood(st: Stream, fh: FHeader, tail: seq<byte>)
    requires WellFormed(st) && st.Open? && ValidHeader(fh) && |tail| >= CRC_SIZE
    requires Sealed(HeaderBytes(fh)) + tail <= st.rest && st.sure + CRC_SIZE >= |Sealed(HeaderBytes(fh)) + tail|
    ensures GoodHeader(st) && HeaderOf(st) == fh.(fdFlags := MaskFlags(fh.fdFlags))
    ensures var st' := AfterHeader(st); st'.Open? && tail <= st'.rest && st'.sure + CRC_SIZE >= |tail|
  {
    hide CrcFrom, CrcField, MaskFlags, ParseHeader;
    var bs := HeaderBytes(fh);
    var n := |fh.name|;
    var all := Sealed(bs) + tail;
    var field := CrcField(CrcFrom(0, bs));
    assert st.rest[0] == all[0] == n;
    assert st.rest[..|bs|] == all[..|bs|] == bs;
    assert st.rest[|bs|..|bs| + CRC_SIZE] == all[|bs|..|bs| + CRC_SIZE] == field;
    assert st.rest[|bs| + CRC_SIZE..][..|tail|] == all[|bs| + CRC_SIZE..] == tail;
    assert st.rest[1..][n + FIELDS + CRC_SIZE..] == st.rest[|bs| + CRC_SIZE..];
    var h := st.rest[1..1 + n + FIELDS + CRC_SIZE];
    assert h == bs[1..] + field;
    ParseIgnoresTail(bs[1..], field, n);
    ParseHeaderBytes(fh);
  }

  lemma ParseIgnoresTail(bs: seq<byte>, tail: seq<byte>, n: byte)
    requires |bs| == n + FIELDS
    ensures ParseHeader(bs + tail, n) == ParseHeader(bs, n)
  {
    hide MaskFlags;
    var f, g := bs[n..], (bs + tail)[n..];
    assert (bs + tail)[..n] == bs[..n];
    assert g == f + tail;
    assert g[1..5] == f[1..5] && g[5..9] == f[5..9] && g[9..11] == f[9..11];
    assert g[11..15] == f[11..15] && g[15..19] == f[15..19];
  }

  /** The stream of encoded text is a good archive with the same forks and the same header, flags masked. */
  lemma EncodedIsGood(fh: FHeader, data: seq<byte>, rsrc: seq<byte>)
    requires Describes(fh, data, rsrc) && |data| <= 0x7fff_ffff && |rsrc| <= 0x7fff_ffff
    ensures var st := TextStream(HqxText(fh, data, rsrc));
            GoodArchive(st) && ArchiveOf(st) == Archive(fh.(fdFlags := MaskFlags(fh.fdFlags)), data, rsrc)
  {
    hide Escape, SixBits, StreamOf, Readable, HqxText, MaskFlags, FromBe32, Sealed, HeaderBytes;
    hide GoodHeader, HeaderOf, AfterHeader, GoodFork, AfterFork;
    EncodedIsReadable(fh, data, rsrc);
    EncodedStream(Payload(fh, data, rsrc));
    var st := TextStream(HqxText(fh, data, rsrc));
    SealedSizes(data);
    SealedSizes(rsrc);
    var h, d, r := Sealed(HeaderBytes(fh)), Sealed(data), Sealed(rsrc);
    assert Payload(fh, data, rsrc) == h + (d + r);
    SealedHeaderIsGood(st, fh, d + r);
    var st1 := AfterHeader(st);
    SealedForkIsGood(st1, data, r);
    var st2 := AfterFork(st1, |data|);
    assert r + [] == r;
    SealedForkIsGood(st2, rsrc, []);
  }

  lemma SealedSizes(bs: seq<byte>)
    ensures |Sealed(bs)| == |bs| + CRC_SIZE
  {
  }

  /** Both conversions in a row, for forks written and read in any portions. */
  method RoundTrip(fh: FHeader, dataChunks: seq<seq<byte>>, rsrcChunks: seq<seq<byte>>, chunk: nat)
    returns (r: Option<Archive>)
    requires ValidHeader(fh) && |fh.name| <= 63 && Chunked(dataChunks) && Chunked(rsrcChunks) && chunk > 0
    requires Describes(fh, Concat(dataChunks), Concat(rsrcChunks))
    requires |Concat(dataChunks)| <= 0x7fff_ffff && |Concat(rsrcChunks)| <= 0x7fff_ffff
    ensures r == Some(Archive(fh.(fdFlags := MaskFlags(fh.fdFlags)), Concat(dataChunks), Concat(rsrcChunks)))
  {
    var data, rsrc := Concat(dataChunks), Concat(rsrcChunks);
    hide *;
    var text := Hex(fh, dataChunks, rsrcChunks);
    EncodedIsReadable(fh, data, rsrc);
    EncodedIsGood(fh, data, rsrc);
    r := Unhex(text.value, chunk);
  }

  // ---- Damage

  /** A fork with one byte or two neighbouring bytes damaged, in it or in its checksum, is refused. */
  lemma DamagedForkIsRefused(st: Stream, bs: seq<byte>, part: seq<byte>, at: nat)
    requires WellFormed(st) && st.Open? && part <= st.rest && st.sure + CRC_SIZE >= |part|
    requires |part| == |Sealed(bs)| && part != Sealed(bs)
    requires forall i :: 0 <= i < |part| && i != at && i != at + 1 ==> part[i] == Sealed(bs)[i]
    ensures !GoodFork(st, |bs|)
  {
    hide CrcFrom, CrcField, Sealed;
    SealedSizes(bs);
    DamageUnseals(bs, part, at);
    assert st.rest[..|bs|] == part[..|bs|];
    assert st.rest[|bs|..][..CRC_SIZE] == part[|bs|..];
  }

  /** The same for a header whose first byte, the length of its name, is intact. */
  lemma DamagedHeaderIsRefused(st: Stream, fh: FHeader, part: seq<byte>, at: nat)
    requires WellFormed(st) && ValidHeader(fh) && (st.Open? ==> part <= st.rest)
    requires |part| == |Sealed(HeaderBytes(fh))| && part != Sealed(HeaderBytes(fh)) && at >= 1
    requires forall i :: 0 <= i < |part| && i != at && i != at + 1 ==> part[i] == Sealed(HeaderBytes(fh))[i]
    ensures !GoodHeader(st)
  {
    hide CrcFrom, CrcField;
    var bs := HeaderBytes(fh);
    SealedSizes(bs);
    DamageUnseals(bs, part, at);
    if st.Open? {
      assert st.rest[0] == part[0] == bs[0] == |fh.name|;
      assert st.rest[..|bs|] == part[..|bs|];
      assert st.rest[|bs|..|bs| + CRC_SIZE] == part[|bs|..];
    }
  }

  /** Where the damage of a whole lies in a part of it that starts at `from`. */
  lemma DamageInPart(whole: seq<byte>, damaged: seq<byte>, at: nat, from: nat, to: nat) returns (here: nat)
    requires |whole| == |damaged| && from <= to <= |whole|
    requires forall i :: 0 <= i < |whole| && i != at && i != at + 1 ==> damaged[i] == whole[i]
    ensures forall i :: 0 <= i < to - from && i != here && i != here + 1 ==> damaged[from..to][i] == whole[from..to][i]
    ensures at >= from ==> here == at - from
  {
    here := if at >= from then at - from else 0;
  }

  /** A file with one byte or two neighbouring bytes damaged, other than the length of the name, is refused as text. */
  lemma DamagedTextIsRefused(fh: FHeader, data: seq<byte>, rsrc: seq<byte>, damaged: seq<byte>, at: nat)
    requires Describes(fh, data, rsrc) && |data| <= 0x7fff_ffff && |rsrc| <= 0x7fff_ffff && at >= 1
    requires var payload := Payload(fh, data, rsrc);
             && |damaged| == |payload| && damaged != payload
             && forall i :: 0 <= i < |payload| && i != at && i != at + 1 ==> damaged[i] == payload[i]
    ensures Readable(TextOf(damaged)) && !GoodArchive(TextStream(TextOf(damaged)))
  {
    hide Escape, SixBits, StreamOf, Readable, TextOf, MaskFlags, FromBe32, Sealed, HeaderBytes;
    hide GoodHeader, HeaderOf, AfterHeader, GoodFork, AfterFork, Given, After;
    PayloadLong(fh, data, rsrc);
    TextIsReadable(damaged);
    EncodedStream(damaged);
    var st := TextStream(TextOf(damaged));
    SealedSizes(data);
    SealedSizes(rsrc);
    var h, d, r, payload := Sealed(HeaderBytes(fh)), Sealed(data), Sealed(rsrc), Payload(fh, data, rsrc);
    var m, n := |h|, |h| + |d|;
    var h', d', r' := damaged[..m], damaged[m..n], damaged[n..];
    assert payload[0..m] == h && payload[m..n] == d && payload[n..|payload|] == r;
    assert damaged[0..m] == h' && damaged[n..|damaged|] == r' && damaged == h' + (d' + r');
    if h' != h {
      var here := DamageInPart(payload, damaged, at, 0, m);
      DamagedHeaderIsRefused(st, fh, h', here);
      return;
    }
    SealedHeaderIsGood(st, fh, d' + r');
    var st1 := AfterHeader(st);
    assert d' <= d' + r' <= st1.rest;
    if d' != d {
      var here := DamageInPart(payload, damaged, at, m, n);
      DamagedForkIsRefused(st1, data, d', here);
      return;
    }
    assert r' != r;
    SealedForkIsGood(st1, data, r');
    var here := DamageInPart(payload, damaged, at, n, |payload|);
    DamagedForkIsRefused(AfterFork(st1, |data|), rsrc, r', here);
  }
}
