/** The writer of bin/nad/macbin.c. Every write may be short, and every write may fail. */
module MacBinWriter {
  import opened Bytes
  import opened CrcBytes
  import opened MacBinFormat

  // ---- The header, field by field into its buffer

  /** memcpy to a place in the header buffer. */
  method CopyTo(buf: array<byte>, at: nat, field: seq<byte>)
    requires at + |field| <= buf.Length
    modifies buf
    ensures forall i :: 0 <= i < buf.Length ==>
              buf[i] == if at <= i < at + |field| then field[i - at] else old(buf[i])
  {
    for k := 0 to |field|
      invariant forall i :: 0 <= i < buf.Length ==> buf[i] == if at <= i < at + k then field[i - at] else old(buf[i])
    {
      buf[at + k] := field[k];
    }
  }

  /** A field that is there byte by byte. */
  lemma Spelled(b: seq<byte>, at: nat, field: seq<byte>)
    requires at + |field| <= |b| && forall i :: 0 <= i < |field| ==> field[i] == b[at + i]
    ensures Holds(b, at, field)
  {
    assert b[at..at + |field|] == field;
  }

  method PutName(buf: array<byte>, name: seq<byte>)
    requires buf.Length == HEADBUFSIZ && |name| <= MACBIN_NAMELEN
    requires forall i :: 0 <= i < 65 ==> buf[i] == 0
    modifies buf
    ensures NameOf(buf[..], name)
    ensures forall i :: 65 <= i < HEADBUFSIZ ==> buf[i] == old(buf[i])
  {
    buf[1] := |name|;
    CopyTo(buf, 2, name);
    Spelled(buf[..], 0, [0, |name|] + name + Repeat(0, 63 - |name|));
  }

  /** macbin_fdflags_to_header. */
  method PutFlags(buf: array<byte>, flags: uint16)
    requires buf.Length == HEADBUFSIZ
    modifies buf
    ensures buf[73] == Be16(flags)[0] && buf[74] == Be16(flags)[1] && buf[101] == flags % 0x100
    ensures forall i :: 0 <= i < HEADBUFSIZ && i != 73 && i != 74 && i != 101 ==> buf[i] == old(buf[i])
  {
    buf[73] := flags / 0x100;
    buf[74] := flags % 0x100;
    buf[101] := flags % 0x100;
  }

  method PutFinder(buf: array<byte>, fh: BinHeader)
    requires buf.Length == HEADBUFSIZ && ValidBinHeader(fh) && buf[99] == buf[100] == 0
    modifies buf
    ensures FinderOf(buf[..], fh)
    ensures forall i :: 0 <= i < 65 || 81 <= i < 99 || 102 <= i < HEADBUFSIZ ==> buf[i] == old(buf[i])
  {
    hide Holds, Be16;
    CopyTo(buf, 65, fh.typeAndCreator);
    PutFlags(buf, fh.flags);
    CopyTo(buf, 75, fh.location);
    CopyTo(buf, 79, fh.folder);
    Spelled(buf[..], 65, fh.typeAndCreator);
    Spelled(buf[..], 73, Be16(fh.flags));
    Spelled(buf[..], 75, fh.location);
    Spelled(buf[..], 79, fh.folder);
    Spelled(buf[..], 99, [0, 0, fh.flags % 0x100]);
  }

  method PutLengths(buf: array<byte>, fh: BinHeader)
    requires buf.Length == HEADBUFSIZ && ValidBinHeader(fh) && buf[81] == buf[82] == 0
    modifies buf
    ensures LengthsOf(buf[..], fh)
    ensures forall i :: 0 <= i < 81 || 99 <= i < HEADBUFSIZ ==> buf[i] == old(buf[i])
  {
    hide Be32, Holds;
    CopyTo(buf, 83, Be32(fh.dataLength));
    CopyTo(buf, 87, Be32(fh.rsrcLength));
    CopyTo(buf, 91, fh.created);
    CopyTo(buf, 95, fh.modified);
    Spelled(buf[..], 81, [0, 0] + Be32(fh.dataLength));
    Spelled(buf[..], 87, Be32(fh.rsrcLength));
    Spelled(buf[..], 91, fh.created);
    Spelled(buf[..], 95, fh.modified);
  }

  method PutSignature(buf: array<byte>, fh: BinHeader)
    requires buf.Length == HEADBUFSIZ && forall i :: 102 <= i < HEADBUFSIZ ==> buf[i] == 0
    modifies buf
    ensures Holds(buf[..], 102, MAGIC + [fh.script, fh.xflags]) && Holds(buf[..], 108, Repeat(0, 14) + [130, 129])
    ensures buf[126] == buf[127] == 0
    ensures forall i :: 0 <= i < 102 ==> buf[i] == old(buf[i])
  {
    hide Holds;
    CopyTo(buf, 102, MAGIC);
    buf[106], buf[107] := fh.script, fh.xflags;
    buf[122], buf[123] := 130, 129;
    Spelled(buf[..], 102, MAGIC + [fh.script, fh.xflags]);
    Spelled(buf[..], 108, Repeat(0, 14) + [130, 129]);
  }

  /** A field is the same in a buffer with the same bytes there. */
  lemma Kept(b: seq<byte>, c: seq<byte>, at: nat, field: seq<byte>)
    requires |b| == |c| && Holds(b, at, field) && forall i :: at <= i < at + |field| ==> b[i] == c[i]
    ensures Holds(c, at, field)
  {
    assert b[at..at + |field|] == c[at..at + |field|];
  }

  lemma FinderKept(b: seq<byte>, c: seq<byte>, fh: BinHeader)
    requires |b| == |c| == HEADBUFSIZ && ValidBinHeader(fh) && FinderOf(b, fh)
    requires forall i :: 65 <= i < 81 || 99 <= i < 102 ==> b[i] == c[i]
    ensures FinderOf(c, fh)
  {
    hide Holds;
    Kept(b, c, 65, fh.typeAndCreator);
    Kept(b, c, 73, Be16(fh.flags));
    Kept(b, c, 75, fh.location);
    Kept(b, c, 79, fh.folder);
    Kept(b, c, 99, [0, 0, fh.flags % 0x100]);
  }

  lemma LengthsKept(b: seq<byte>, c: seq<byte>, fh: BinHeader)
    requires |b| == |c| == HEADBUFSIZ && ValidBinHeader(fh) && LengthsOf(b, fh)
    requires forall i :: 81 <= i < 99 ==> b[i] == c[i]
    ensures LengthsOf(c, fh)
  {
    hide Holds, Be32;
    Kept(b, c, 81, [0, 0] + Be32(fh.dataLength));
    Kept(b, c, 87, Be32(fh.rsrcLength));
    Kept(b, c, 91, fh.created);
    Kept(b, c, 95, fh.modified);
  }

  /** The buffer of bin_header_write: every byte of the MacBinary III header of the file. */
  method HeaderBuffer(fh: BinHeader) returns (buf: array<byte>)
    requires ValidBinHeader(fh) && |fh.name| <= MACBIN_NAMELEN
    ensures fresh(buf) && buf.Length == HEADBUFSIZ && HeaderOf(buf[..], fh)
  {
    hide CrcFrom, CrcField, FinderOf, LengthsOf, Holds;
    buf := new byte[HEADBUFSIZ](_ => 0);
    PutName(buf, fh.name);
    ghost var named := buf[..];
    PutFinder(buf, fh);
    ghost var found := buf[..];
    PutLengths(buf, fh);
    ghost var measured := buf[..];
    PutSignature(buf, fh);
    ghost var signed := buf[..];
    PutCrc(buf);
    Kept(named, buf[..], 0, [0, |fh.name|] + fh.name + Repeat(0, 63 - |fh.name|));
    FinderKept(found, buf[..], fh);
    LengthsKept(measured, buf[..], fh);
    Kept(signed, buf[..], 102, MAGIC + [fh.script, fh.xflags]);
    Kept(signed, buf[..], 108, Repeat(0, 14) + [130, 129]);
  }

  method PutCrc(buf: array<byte>)
    requires buf.Length == HEADBUFSIZ && buf[126] == buf[127] == 0
    modifies buf
    ensures Holds(buf[..], 124, CrcField(CrcFrom(0, buf[..124])) + [0, 0])
    ensures forall i :: 0 <= i < 124 ==> buf[i] == old(buf[i])
  {
    hide CrcFrom, CrcField;
    ghost var before := buf[..124];
    CopyTo(buf, 124, CrcField(CrcFrom(0, buf[..124])));
    assert buf[..124] == before;
  }

  // ---- The file

  function LengthOf(fh: BinHeader, fork: nat): (n: nat) {
    if fork == DATA then fh.dataLength else fh.rsrcLength
  }

  /** A fork as far as it is written, with its padding once it is complete. */
  function Part(bytes: seq<byte>, left: nat): (r: seq<byte>) {
    if left == 0 then Padded(bytes) else bytes
  }

  lemma EmptyPart(left: nat)
    ensures Part([], left) == []
  {
  }

  lemma BlocksNeedNoPadding(base: nat, n: nat)
    requires base % HEADBUFSIZ == 0
    ensures Padding(base + n) == Padding(n) && Padding(0) == 0
  {
  }

  /** A fork that grows in the file, from a block boundary on. */
  lemma PartGrows(bytes: seq<byte>, left: nat, buffer: seq<byte>, base: nat)
    requires |buffer| <= left && base % HEADBUFSIZ == 0
    ensures var p := Part(bytes, left) + buffer;
            Part(bytes + buffer, left - |buffer|) ==
            if left == |buffer| then p + Repeat(FILL, Padding(base + |p|)) else p
  {
    hide Padding;
    BlocksNeedNoPadding(base, |Part(bytes, left) + buffer|);
    if left == 0 {
      assert buffer == [] && bytes + buffer == bytes;
      BlocksNeedNoPadding(|Padded(bytes)|, 0);
    }
  }

  /** What goes into the file for a piece of a fork with `left` bytes to come. */
  function Growth(body: seq<byte>, left: nat, buffer: seq<byte>): (r: seq<byte>) {
    if left == |buffer| then buffer + Repeat(FILL, Padding(HEADBUFSIZ + |body| + |buffer|)) else buffer
  }

  lemma DataGrows(body: seq<byte>, data: seq<byte>, left: nat, buffer: seq<byte>, rsrcLeft: nat)
    requires |buffer| <= left && body == Part(data, left) + Part([], rsrcLeft)
    ensures body + Growth(body, left, buffer) == Part(data + buffer, left - |buffer|) + Part([], rsrcLeft)
  {
    PartGrows(data, left, buffer, HEADBUFSIZ);
    EmptyPart(rsrcLeft);
  }

  lemma RsrcGrows(body: seq<byte>, data: seq<byte>, rsrc: seq<byte>, left: nat, buffer: seq<byte>)
    requires |buffer| <= left && body == Part(data, 0) + Part(rsrc, left)
    ensures body + Growth(body, left, buffer) == Part(data, 0) + Part(rsrc + buffer, left - |buffer|)
  {
    PartGrows(rsrc, left, buffer, HEADBUFSIZ + |Padded(data)|);
  }

  class Writer {
    const seekable: bool
    var file: seq<byte>
    var filepos: nat
    var forklen: seq<nat>
    ghost var fh: BinHeader
    ghost var written: seq<seq<byte>>
    ghost var failed: bool  // some write failed

    ghost predicate Counted()
      reads `forklen, `fh, `written
    {
      && |forklen| == 2 && |written| == 2
      && (forall k :: 0 <= k < 2 ==> |written[k]| + forklen[k] == LengthOf(fh, k))
      && (written[RESOURCE] != [] ==> forklen[DATA] == 0)
    }

    ghost predicate Laid()
      requires |forklen| == 2 && |written| == 2
      reads `file, `forklen, `fh, `written
    {
      && |file| >= HEADBUFSIZ && HeaderOf(file[..HEADBUFSIZ], fh)
      && file[HEADBUFSIZ..] == Part(written[DATA], forklen[DATA]) + Part(written[RESOURCE], forklen[RESOURCE])
    }

    ghost predicate Valid()
      reads this
    {
      filepos == |file| && Counted() && Laid()
    }

    lemma Finished()
      requires Valid() && forklen == [0, 0]
      ensures BinFile(file, fh, written[DATA], written[RESOURCE])
    {
      hide HeaderOf, Padded;
    }

    /** write(2): some of the bytes, or none and an error. */
    method WriteSome(s: seq<byte>) returns (cc: int)
      requires s != []
      modifies `file, `failed
      ensures -1 <= cc <= |s| && failed == (old(failed) || cc <= 0)
      ensures file == old(file) + s[..Max(cc, 0)]
    {
      cc := *;
      if cc <= 0 || cc > |s| {
        cc, failed := -1, true;
      } else {
        file := file + s[..cc];
      }
    }

    /** The loop around write(2) for a whole buffer. */
    method WriteAll(s: seq<byte>) returns (ok: bool)
      requires filepos == |file|
      modifies `file, `filepos, `failed
      ensures ok ==> file == old(file) + s && filepos == |file| && failed == old(failed)
      ensures !ok ==> failed
    {
      var at: nat := 0;
      while at < |s|
        invariant at <= |s| && filepos == |file| && file == old(file) + s[..at] && failed == old(failed)
      {
        var cc := WriteSome(s[at..]);
        if cc <= 0 {
          return false;
        }
        assert s[..at] + s[at..][..cc] == s[..at + cc];
        at, filepos := at + cc, filepos + cc;
      }
      ok := true;
    }

    /** macbin_write_repeat, 128 bytes at a time. */
    method WriteRepeat(value: byte, length: nat) returns (ok: bool)
      requires filepos == |file|
      modifies `file, `filepos, `failed
      ensures ok ==> file == old(file) + Repeat(value, length) && filepos == |file| && failed == old(failed)
      ensures !ok ==> failed
    {
      var buffer := Repeat(value, HEADBUFSIZ);
      var left: nat := length;
      while left > 0
        invariant left <= length && filepos == |file| && failed == old(failed)
        invariant file == old(file) + Repeat(value, length - left)
      {
        var cc := WriteSome(buffer[..Min(left, HEADBUFSIZ)]);
        if cc <= 0 {
          return false;
        }
        assert Repeat(value, length - left) + buffer[..Min(left, HEADBUFSIZ)][..cc]
            == Repeat(value, length - left + cc);
        left, filepos := left - cc, filepos + cc;
      }
      ok := true;
    }

    /** macbin_write_padding: where the output has no position of its own, the count of bytes stands in. */
    method WritePadding() returns (ok: bool)
      requires filepos == |file|
      modifies `file, `filepos, `failed
      ensures ok ==> file == old(file) + Repeat(FILL, Padding(|old(file)|)) && filepos == |file|
      ensures ok ==> failed == old(failed)
      ensures !ok ==> failed
    {
      var pos := filepos;
      if seekable {
        pos := |file|;
        filepos := pos;
      }
      if pos % HEADBUFSIZ == 0 {
        return true;
      }
      ok := WriteRepeat(FILL, HEADBUFSIZ - pos % HEADBUFSIZ);
    }

    constructor (seekable: bool)
      ensures file == [] && filepos == 0 && !failed
    {
      this.seekable := seekable;
      file, filepos, forklen, failed := [], 0, [0, 0], false;
      written := [[], []];
    }

    /** bin_header_write. */
    method HeaderWrite(fh: BinHeader) returns (ok: bool)
      requires file == [] && filepos == 0 && !failed && ValidBinHeader(fh)
      modifies this
      ensures ok <==> |fh.name| <= MACBIN_NAMELEN && !failed
      ensures ok ==> Valid() && this.fh == fh && written == [[], []] && forklen == [fh.dataLength, fh.rsrcLength]
    {
      hide HeaderOf;
      if |fh.name| > MACBIN_NAMELEN {
        return false;
      }
      var head := HeaderBuffer(fh);
      ok := WriteAll(head[..]);
      forklen, this.fh, written := [fh.dataLength, fh.rsrcLength], fh, [[], []];
      assert ok ==> file[..HEADBUFSIZ] == head[..];
      EmptyPart(fh.dataLength);
      EmptyPart(fh.rsrcLength);
    }

    /** bin_write. Forks come in order; a fork is padded as soon as it is complete. */
    method Write(fork: nat, buffer: seq<byte>) returns (ok: bool)
      requires Valid() && fork < 2 && !failed && (fork == DATA ==> written[RESOURCE] == [])
      modifies this
      ensures ok <==> !failed && |buffer| <= old(forklen)[fork] && (fork == RESOURCE ==> old(forklen)[DATA] == 0)
      ensures ok ==> && Valid() && fh == old(fh)
                     && written == old(written)[fork := old(written)[fork] + buffer]
                     && forklen == old(forklen)[fork := old(forklen)[fork] - |buffer|]
    {
      hide HeaderOf, Part, Growth;
      if fork == RESOURCE && forklen[DATA] != 0 {
        return false;
      }
      if forklen[fork] < |buffer| {
        return false;
      }
      ghost var body := file[HEADBUFSIZ..];
      if fork == DATA {
        DataGrows(body, written[DATA], forklen[DATA], buffer, forklen[RESOURCE]);
      } else {
        RsrcGrows(body, written[DATA], written[RESOURCE], forklen[RESOURCE], buffer);
      }
      ok := Append(fork, buffer);
      written := written[fork := written[fork] + buffer];
    }

    /** The bytes, the count of what is left, and the padding. */
    method Append(fork: nat, buffer: seq<byte>) returns (ok: bool)
      requires fork < |forklen| && |buffer| <= forklen[fork] && filepos == |file| >= HEADBUFSIZ && !failed
      modifies `file, `filepos, `failed, `forklen
      ensures ok == !failed
      ensures ok ==> forklen == old(forklen)[fork := old(forklen)[fork] - |buffer|]
      ensures ok ==> filepos == |file| >= HEADBUFSIZ && file[..HEADBUFSIZ] == old(file)[..HEADBUFSIZ]
      ensures ok ==> file[HEADBUFSIZ..] ==
                       old(file)[HEADBUFSIZ..] + Growth(old(file)[HEADBUFSIZ..], old(forklen)[fork], buffer)
    {
      ok := WriteAll(buffer);
      if !ok {
        return;
      }
      forklen := forklen[fork := forklen[fork] - |buffer|];
      if forklen[fork] == 0 {
        ok := WritePadding();
      }
    }
  }

  /** The inner loop of the conversion, with the length check that follows it. */
  method CopyIn(w: Writer, fork: nat, chunks: seq<seq<byte>>) returns (ok: bool)
    requires w.Valid() && !w.failed && fork < 2 && Chunked(chunks) && w.written[fork] == []
    requires if fork == DATA then w.written[RESOURCE] == [] else w.forklen[DATA] == 0
    modifies w
    ensures ok <==> !w.failed && |Concat(chunks)| == LengthOf(old(w.fh), fork)
    ensures ok ==> w.Valid() && w.fh == old(w.fh) && w.written == old(w.written)[fork := Concat(chunks)]
                   && w.forklen == old(w.forklen)[fork := 0]
  {
    hide Writer.Laid;
    var forkred, wanted := 0, w.forklen[fork];
    for i := 0 to |chunks|
      invariant w.Valid() && !w.failed && w.fh == old(w.fh)
      invariant w.written == old(w.written)[fork := Concat(chunks[..i])]
      invariant forkred == |Concat(chunks[..i])| && w.forklen == old(w.forklen)[fork := wanted - forkred]
    {
      assert chunks[..i + 1] == chunks[..i] + [chunks[i]];
      ConcatAppend(chunks[..i], chunks[i]);
      ConcatSplit(chunks, i + 1);
      ok := w.Write(fork, chunks[i]);
      if !ok {
        return;
      }
      forkred := forkred + |chunks[i]|;
    }
    assert chunks[..|chunks|] == chunks;
    ok := forkred == wanted;
  }

  /** A conversion to MacBinary: the copy loop of bin/nad/megatron.c over both forks. */
  method Bin(fh: BinHeader, dataChunks: seq<seq<byte>>, rsrcChunks: seq<seq<byte>>, seekable: bool)
      returns (r: Option<seq<byte>>, ghost failed: bool)
    requires ValidBinHeader(fh) && Chunked(dataChunks) && Chunked(rsrcChunks)
    ensures r.Some? <==> && |fh.name| <= MACBIN_NAMELEN && !failed
                         && |Concat(dataChunks)| == fh.dataLength && |Concat(rsrcChunks)| == fh.rsrcLength
    ensures r.Some? ==> BinFile(r.value, fh, Concat(dataChunks), Concat(rsrcChunks))
  {
    hide BinFile, Writer.Laid, ValidBinHeader;
    var w := new Writer(seekable);
    r := None;
    var ok := w.HeaderWrite(fh);
    if ok {
      ok := CopyIn(w, DATA, dataChunks);
    }
    if ok {
      ok := CopyIn(w, RESOURCE, rsrcChunks);
    }
    if ok {
      w.Finished();
      r := Some(w.file);
    }
    failed := w.failed;
  }
}
