/** The BinHex encoder of bin/nad/hqx.c: fork sequencing, escaping, six-bit packing and line breaks. */
module HqxEncoder {
  import opened Bytes
  import opened Crc16
  import opened CrcBytes
  import opened HqxFormat
  import opened HqxFile

  class Encoder {
    var output: seq<byte>  // the file as written so far
    var outbuf: seq<byte>  // up to two bytes that wait for their group of three
    var outcnt: nat
    var linecol: nat
    var forklen: seq<nat>  // bytes still to come
    var forkcrc: seq<bv16>
    var forkdone: seq<bool>

    ghost var packed: seq<byte>  // every byte that entered the six-bit encoder
    ghost var header: seq<byte>
    ghost var written: seq<seq<byte>>  // the bytes of each fork so far

    // ---- The character level

    ghost predicate Encoding()
      reads `output, `outbuf, `outcnt, `linecol, `packed
    {
      && |outbuf| == 3 && outcnt <= 2 && outcnt <= |packed|
      && var whole := packed[..|packed| - outcnt];
      && |whole| % 3 == 0
      && packed == whole + outbuf[..outcnt]
      && linecol == ColumnAfter(|SixBits(whole)|, 0) <= 63
      && output == BANNER + [COLON] + Wrap(Chars(SixBits(whole)), 0)
    }

    method PutChar(c: byte)
      requires linecol <= 63
      modifies `output, `linecol
      ensures output == old(output) + Wrap([c], old(linecol))
      ensures linecol == ColumnAfter(1, old(linecol)) <= 63
    {
      if linecol >= 63 {
        output := output + [NEWLINE];
        linecol := 0;
      }
      output := output + [c];
      linecol := linecol + 1;
      assert Wrap([c][1..], 1) == [] && forall k: nat :: Wrap([c][1..], k) == [];
      assert forall k :: ColumnAfter(0, k) == k;
    }

    method PutChars(cs: seq<byte>)
      requires linecol <= 63
      modifies `output, `linecol
      ensures output == old(output) + Wrap(cs, old(linecol))
      ensures linecol == ColumnAfter(|cs|, old(linecol)) <= 63
    {
      hide Wrap, ColumnAfter;
      assert Wrap(cs[..0], linecol) == [] && ColumnAfter(0, linecol) == linecol by {
        WrapEmpty(linecol);
        assert cs[..0] == [];
      }
      for i := 0 to |cs|
        invariant linecol == ColumnAfter(i, old(linecol)) <= 63
        invariant output == old(output) + Wrap(cs[..i], old(linecol))
      {
        PutChar(cs[i]);
        WrapAppend(cs[..i], [cs[i]], old(linecol));
        assert cs[..i + 1] == cs[..i] + [cs[i]];
      }
      assert cs[..|cs|] == cs;
    }

    method Emit6bit(b: byte)
      requires Encoding()
      modifies `output, `linecol, `outbuf, `outcnt, `packed
      ensures Encoding() && packed == old(packed) + [b]
    {
      hide Wrap, ColumnAfter, SixBits, Pack, Chars;
      ghost var whole := packed[..|packed| - outcnt];
      ghost var held := outbuf[..outcnt];
      outbuf := outbuf[outcnt := b];
      outcnt := outcnt + 1;
      packed := packed + [b];
      assert outbuf[..outcnt] == held + [b];
      if outcnt == 3 {
        var out := Chars(Pack(outbuf[0], outbuf[1], outbuf[2]));
        PutChars(out);
        outcnt := 0;
        assert packed == whole + outbuf;
        GroupAppended(whole, outbuf);
        assert packed[..|packed|] == packed;
      } else {
        assert packed[..|packed| - outcnt] == whole;
      }
    }

    method EmitByte(b: byte)
      requires Encoding()
      modifies `output, `linecol, `outbuf, `outcnt, `packed
      ensures Encoding() && packed == old(packed) + EscapeByte(b)
    {
      Emit6bit(b);
      if b == RUNCHAR {
        Emit6bit(0);
      }
    }

    method EmitData(buf: seq<byte>)
      requires Encoding()
      modifies `output, `linecol, `outbuf, `outcnt, `packed
      ensures Encoding() && packed == old(packed) + Escape(buf)
    {
      hide *;
      EscapeEmpty();
      for i := 0 to |buf|
        invariant Encoding() && packed == old(packed) + Escape(buf[..i])
      {
        EmitByte(buf[i]);
        EscapeAppend(buf[..i], [buf[i]]);
        EscapeOne(buf[i]);
        assert buf[..i + 1] == buf[..i] + [buf[i]];
      }
      assert buf[..|buf|] == buf;
    }

    method Flush6bit()
      requires Encoding()
      modifies `output, `linecol, `outbuf, `outcnt
      ensures output == BANNER + [COLON] + Wrap(Chars(SixBits(packed)), 0)
    {
      hide Wrap, ColumnAfter, Pack, Chars;
      ghost var whole := packed[..|packed| - outcnt];
      ghost var held := outbuf[..outcnt];
      if outcnt == 0 {
        assert whole == packed;
        return;
      }
      outbuf := outbuf[1 := if outcnt > 1 then outbuf[1] else 0][2 := 0];
      var out := Pack(outbuf[0], outbuf[1], 0)[..outcnt + 1];
      assert SixBits(held) == out;
      hide SixBits;
      PutChars(Chars(out));
      outcnt := 0;
      TailAppended(whole, held);
    }

    // ---- The fork level

    ghost function Part(fork: nat): (bs: seq<byte>)
      requires fork < |forkdone| && fork < |written|
      reads this
    {
      if forkdone[fork] then Sealed(written[fork]) else written[fork]
    }

    ghost predicate ForkValid(fork: nat)
      requires fork < |forkdone| && fork < |written| && fork < |forklen| && fork < |forkcrc|
      reads this
    {
      forkcrc[fork] == CrcFrom(0, written[fork]) && (forkdone[fork] ==> forklen[fork] == 0)
    }

    ghost predicate Valid()
      reads this
    {
      && Encoding()
      && |forklen| == 2 && |forkcrc| == 2 && |forkdone| == 2 && |written| == 2
      && ForkValid(0) && ForkValid(1)
      && (written[1] != [] || forkdone[1] ==> forkdone[0])
      && packed == Escape(header + Part(0) + Part(1))
    }

    constructor ()
      ensures Encoding() && packed == []
    {
      output, outbuf, outcnt, linecol := BANNER + [COLON], [0, 0, 0], 0, 0;
      forklen, forkcrc, forkdone := [], [], [];
      packed, header, written := [], [], [];
      new;
      assert Chars(SixBits([])) == [];
    }

    /** hqx_header_write, with the fork state that hqx_open sets up before it. */
    method HeaderWrite(fh: FHeader) returns (ok: bool)
      requires Encoding() && packed == [] && ValidHeader(fh)
      modifies this
      ensures ok <==> |fh.name| <= 63
      ensures ok ==> Valid() && header == Sealed(HeaderBytes(fh)) && written == [[], []]
      ensures ok ==> forklen == [FromBe32(fh.dataLen) as nat, FromBe32(fh.rsrcLen)] && forkdone == [false, false]
    {
      hide Encoding, HeaderBytes, FromBe32, Escape, Feed, CrcField, Bits;
      if |fh.name| > MAX_NAME {
        return false;
      }
      forklen := [FromBe32(fh.dataLen), FromBe32(fh.rsrcLen)];
      forkcrc, forkdone := [0, 0], [false, false];
      var bytes := HeaderBytes(fh);
      var crc := Update(0, Bits(bytes));
      EmitData(bytes + CrcField(crc));
      header, written := Sealed(bytes), [[], []];
      CrcFromEmpty(0);
      assert header + [] + [] == header;
      ok := true;
    }

    method FinishFork(fork: nat) returns (ok: bool)
      requires Valid() && fork < 2 && (fork == RESOURCE ==> forkdone[DATA])
      modifies `output, `linecol, `outbuf, `outcnt, `packed, `forkdone
      ensures Valid()
      ensures ok <==> forklen[fork] == 0
      ensures forkdone == if ok then old(forkdone)[fork := true] else old(forkdone)
    {
      hide Encoding, Escape, CrcFrom, CrcField;
      if forkdone[fork] {
        return true;
      }
      if forklen[fork] != 0 {
        return false;
      }
      ghost var before := header + Part(0) + Part(1);
      var field := CrcField(forkcrc[fork]);
      EmitData(field);
      EscapeAppend(before, field);
      forkdone := forkdone[fork := true];
      assert before + field == header + Part(0) + Part(1);
      ok := true;
    }

    /** The middle of hqx_write: the checksum, the encoder and the remaining length take the bytes. */
    method Append(fork: nat, buffer: seq<byte>)
      requires Valid() && fork < 2 && (fork == RESOURCE ==> forkdone[DATA])
      requires !forkdone[fork] && |buffer| <= forklen[fork]
      modifies `output, `linecol, `outbuf, `outcnt, `packed, `forklen, `forkcrc, `written
      ensures Valid()
      ensures written == old(written)[fork := old(written)[fork] + buffer]
      ensures forklen == old(forklen)[fork := old(forklen)[fork] - |buffer|]
    {
      hide Encoding, Escape, CrcFrom, CrcField, Feed;
      ghost var before := header + Part(0) + Part(1);
      var crc := Update(forkcrc[fork], Bits(buffer));
      assert crc == CrcFrom(forkcrc[fork], buffer) by { CrcFromIsFeed(forkcrc[fork], buffer); }
      CrcAppend(0, written[fork], buffer);
      forkcrc := forkcrc[fork := crc];
      EmitData(buffer);
      EscapeAppend(before, buffer);
      forklen := forklen[fork := forklen[fork] - |buffer|];
      written := written[fork := written[fork] + buffer];
      assert before + buffer == header + Part(0) + Part(1);
    }

    method Write(fork: nat, buffer: seq<byte>) returns (ok: bool)
      requires Valid() && fork < 2
      modifies `output, `linecol, `outbuf, `outcnt, `packed, `forklen, `forkcrc, `forkdone, `written
      ensures Valid()
      ensures ok <==> && (fork == RESOURCE ==> old(forklen)[DATA] == 0)
                      && !old(forkdone)[fork] && |buffer| <= old(forklen)[fork]
      ensures written == if ok then old(written)[fork := old(written)[fork] + buffer] else old(written)
      ensures forklen == if ok then old(forklen)[fork := old(forklen)[fork] - |buffer|] else old(forklen)
      ensures ok ==> forkdone == [if fork == DATA then forklen[DATA] == 0 else true,
                                  if fork == DATA then old(forkdone)[RESOURCE] else forklen[RESOURCE] == 0]
    {
      hide Encoding, Escape, CrcFrom, CrcField;
      if fork == RESOURCE {
        var finished := FinishFork(DATA);
        if !finished {
          return false;
        }
      }
      if forkdone[fork] || |buffer| > forklen[fork] {
        return false;
      }
      Append(fork, buffer);
      if forklen[fork] == 0 {
        var finished := FinishFork(fork);
      }
      ok := true;
    }

    /** hqx_close with KEEP on an output file. */
    method Close() returns (ok: bool)
      requires Valid()
      modifies `output, `linecol, `outbuf, `outcnt, `packed, `forkdone
      ensures ok <==> forklen == [0, 0]
      ensures ok ==> output == BANNER + [COLON]
                               + Wrap(Chars(SixBits(Escape(header + Sealed(written[0]) + Sealed(written[1])))), 0)
                               + TRAILER
    {
      hide Encoding, Escape, CrcFrom, CrcField, Wrap, Chars, SixBits;
      ok := FinishFork(DATA);
      if !ok {
        return;
      }
      ok := FinishFork(RESOURCE);
      if !ok {
        return;
      }
      Flush6bit();
      output := output + TRAILER;
    }
  }

  lemma WrapEmpty(col: nat)
    ensures Wrap([], col) == [] && ColumnAfter(0, col) == col
  {
  }

  lemma OneGroup(group: seq<byte>)
    requires |group| == 3
    ensures SixBits(group) == Pack(group[0], group[1], group[2])
  {
    hide Pack;
    assert group[3..] == [];
  }

  lemma GroupAppended(whole: seq<byte>, group: seq<byte>)
    requires |whole| % 3 == 0 && |group| == 3
    ensures |whole + group| % 3 == 0
    ensures var s, g := SixBits(whole), Pack(group[0], group[1], group[2]);
            && Wrap(Chars(SixBits(whole + group)), 0) == Wrap(Chars(s), 0) + Wrap(Chars(g), ColumnAfter(|s|, 0))
            && ColumnAfter(|SixBits(whole + group)|, 0) == ColumnAfter(4, ColumnAfter(|s|, 0))
  {
    hide Wrap, ColumnAfter, Pack, SixBits;
    var s, g := SixBits(whole), Pack(group[0], group[1], group[2]);
    SixBitsAppend(whole, group);
    OneGroup(group);
    assert Chars(s + g) == Chars(s) + Chars(g);
    WrapAppend(Chars(s), Chars(g), 0);
  }

  lemma TailAppended(whole: seq<byte>, tail: seq<byte>)
    requires |whole| % 3 == 0
    ensures var s, t := SixBits(whole), SixBits(tail);
            Wrap(Chars(SixBits(whole + tail)), 0) == Wrap(Chars(s), 0) + Wrap(Chars(t), ColumnAfter(|s|, 0))
  {
    hide Wrap, ColumnAfter, SixBits;
    var s, t := SixBits(whole), SixBits(tail);
    SixBitsAppend(whole, tail);
    assert Chars(s + t) == Chars(s) + Chars(t);
    WrapAppend(Chars(s), Chars(t), 0);
  }

  lemma EscapeEmpty()
    ensures Escape([]) == []
  {
  }

  lemma EscapeOne(b: byte)
    ensures Escape([b]) == EscapeByte(b)
  {
  }

  /**
   A conversion to BinHex: the copy loop of bin/nad/megatron.c over both forks. The chunks are
   what the reads of the input return, so none is empty.
   */
  method Hex(fh: FHeader, dataChunks: seq<seq<byte>>, rsrcChunks: seq<seq<byte>>) returns (r: Option<seq<byte>>)
    requires ValidHeader(fh) && Chunked(dataChunks) && Chunked(rsrcChunks)
    ensures r.Some? <==> |fh.name| <= 63 && Describes(fh, Concat(dataChunks), Concat(rsrcChunks))
    ensures r.Some? ==> r.value == HqxText(fh, Concat(dataChunks), Concat(rsrcChunks))
  {
    hide FromBe32, Encoder.Encoding, Encoder.ForkValid, Encoder.Part, Escape, Sealed, HeaderBytes, SixBits, Chars, Wrap;
    var enc := new Encoder();
    var ok := enc.HeaderWrite(fh);
    if !ok {
      return None;
    }
    ok := CopyFork(enc, DATA, dataChunks);
    if !ok {
      return None;
    }
    ok := CopyFork(enc, RESOURCE, rsrcChunks);
    if !ok {
      return None;
    }
    ok := enc.Close();
    r := if ok then Some(enc.output) else None;
  }

  /** The inner loop of the conversion, with the length check that follows it. */
  method CopyFork(enc: Encoder, fork: nat, chunks: seq<seq<byte>>) returns (ok: bool)
    requires enc.Valid() && fork < 2 && Chunked(chunks)
    requires !enc.forkdone[fork] && enc.written[fork] == []
    requires fork == RESOURCE ==> enc.forklen[DATA] == 0
    modifies enc
    ensures enc.Valid() && enc.header == old(enc.header)
    ensures ok <==> |Concat(chunks)| == old(enc.forklen)[fork]
    ensures ok ==> enc.written == old(enc.written)[fork := Concat(chunks)]
                   && enc.forklen == old(enc.forklen)[fork := 0]
                   && (fork == DATA ==> enc.forkdone[RESOURCE] == old(enc.forkdone)[RESOURCE])
  {
    hide Encoder.Encoding, Encoder.ForkValid, Encoder.Part, Escape;
    var forkred := 0;
    var wanted := enc.forklen[fork];
    for i := 0 to |chunks|
      invariant enc.Valid() && enc.header == old(enc.header)
      invariant |enc.forkdone| == |enc.forklen| == |enc.written| == 2
      invariant enc.written == old(enc.written)[fork := Concat(chunks[..i])]
      invariant forkred == |Concat(chunks[..i])| <= wanted
      invariant enc.forklen == old(enc.forklen)[fork := wanted - forkred]
      invariant i > 0 ==> enc.forkdone[fork] == (forkred == wanted)
      invariant i == 0 ==> !enc.forkdone[fork]
      invariant fork == DATA ==> enc.forkdone[RESOURCE] == old(enc.forkdone)[RESOURCE]
    {
      assert chunks[..i + 1] == chunks[..i] + [chunks[i]];
      ConcatAppend(chunks[..i], chunks[i]);
      ConcatSplit(chunks, i + 1);
      var wrote := enc.Write(fork, chunks[i]);
      if !wrote {
        return false;
      }
      forkred := forkred + |chunks[i]|;
    }
    assert chunks[..|chunks|] == chunks;
    ok := forkred == wanted;
  }
}
