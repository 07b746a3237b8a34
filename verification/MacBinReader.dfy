/** The reader of bin/nad/macbin.c, from a disk file or from a pipe. */
module MacBinReader {
  import opened Bytes
  import opened CrcBytes
  import opened MacBinFormat
  import opened MacBinWriter

  /** Whether the padding behind a position can be skipped. */
  predicate Skippable(file: seq<byte>, pos: nat, seekable: bool) {
    seekable || Padding(pos) == 0 || pos + Padding(pos) <= |file|
  }

  /** Whether the one read of the header gets all of it; a pipe gives `first` bytes or fewer. */
  predicate HeaderArrives(file: seq<byte>, seekable: bool, first: nat) {
    |file| >= HEADBUFSIZ && (seekable || first >= HEADBUFSIZ)
  }

  class Reader {
    const file: seq<byte>
    const seekable: bool
    var pos: nat  // the position of the descriptor, which may lie past the end of a disk file
    var filepos: nat
    var forklen: seq<nat>

    ghost predicate Valid()
      reads this
    {
      filepos == pos && |forklen| == 2 && (!seekable ==> pos <= |file|)
    }

    constructor (file: seq<byte>, seekable: bool)
      ensures Valid() && pos == 0 && this.file == file && this.seekable == seekable
    {
      this.file, this.seekable := file, seekable;
      pos, filepos, forklen := 0, 0, [0, 0];
    }

    /** read(2): all there is of a disk file, but perhaps less from a pipe. */
    method ReadSome(n: nat) returns (s: seq<byte>)
      modifies `pos
      ensures s == Clip(file, old(pos), |s|) && |s| <= n && pos == old(pos) + |s|
      ensures seekable ==> s == Clip(file, old(pos), n)
      ensures s == [] <==> n == 0 || old(pos) >= |file|
    {
      var all := Clip(file, pos, n);
      var cc := *;
      s := if !seekable && 0 < cc < |all| then all[..cc] else all;
      pos := pos + |s|;
    }

    /** test_header: the revision, or -1 also for a first read that comes up short, as one of a pipe may. */
    method TestHeader(first: nat) returns (revision: int, head: seq<byte>)
      requires Valid() && pos == 0
      modifies `pos, `filepos
      ensures if HeaderArrives(file, seekable, first)
              then && revision == Revision(file[..HEADBUFSIZ]) && head == file[..HEADBUFSIZ]
                   && Valid() && pos == HEADBUFSIZ
              else revision == -1
    {
      hide Revision;
      head := Clip(file, pos, if seekable then HEADBUFSIZ else Min(first, HEADBUFSIZ));
      pos := pos + |head|;
      if |head| < HEADBUFSIZ {
        return -1, head;
      }
      filepos := |head|;
      revision := Revision(head);
    }

    /** macbin_discard_bytes. */
    method Discard(length: nat) returns (ok: bool)
      requires Valid()
      modifies `pos, `filepos
      ensures Valid() && (ok ==> pos == old(pos) + length)
      ensures ok <==> length == 0 || old(pos) + length <= |file|
    {
      var left: nat := length;
      while left > 0
        invariant left <= length && Valid() && pos == old(pos) + length - left
        invariant left < length ==> pos <= |file|
      {
        var s := ReadSome(Min(left, HEADBUFSIZ));
        if s == [] {
          return false;
        }
        left, filepos := left - |s|, filepos + |s|;
      }
      ok := true;
    }

    /** macbin_skip_padding: a disk file is moved past its end without complaint, a pipe is not. */
    method SkipPadding() returns (ok: bool)
      requires Valid()
      modifies `pos, `filepos
      ensures Valid() && (ok ==> pos == old(pos) + Padding(old(pos)))
      ensures ok <==> Skippable(file, old(pos), seekable)
    {
      var at := if seekable then pos else filepos;
      if at % HEADBUFSIZ == 0 {
        return true;
      }
      var padding := HEADBUFSIZ - at % HEADBUFSIZ;
      if seekable {
        pos, filepos := pos + padding, pos + padding;
        return true;
      }
      ok := Discard(padding);
    }

    /** bin_read: the next bytes of a fork; none at its end, where the data fork's padding is skipped. */
    method Read(fork: nat, length: nat) returns (r: Option<seq<byte>>)
      requires Valid() && fork < 2 && length > 0
      modifies this
      ensures Valid()
      ensures var left, at := old(forklen)[fork], old(pos);
              if left > MAX_LENGTH then r == None
              else if left == 0 then
                && r in {None, Some([])} && forklen == old(forklen)
                && (r.Some? <==> fork == RESOURCE || Skippable(file, at, seekable))
                && (r.Some? ==> pos == if fork == DATA then at + Padding(at) else at)
              else
                && r == Some(Clip(file, at, Min(left, length)))
                && forklen == old(forklen)[fork := left - |r.value|] && pos == at + |r.value|
    {
      if forklen[fork] > MAX_LENGTH {
        return None;
      }
      if forklen[fork] == 0 {
        if fork == DATA {
          var ok := SkipPadding();
          return if ok then Some([]) else None;
        }
        return Some([]);
      }
      var s := ReadFully(Min(forklen[fork], length));
      forklen := forklen[fork := forklen[fork] - |s|];
      r := Some(s);
    }

    /** The loop around read(2). */
    method ReadFully(n: nat) returns (s: seq<byte>)
      requires Valid()
      modifies `pos, `filepos
      ensures Valid() && s == Clip(file, old(pos), n) && pos == old(pos) + |s| && |s| <= n
    {
      hide Clip;
      s := [];
      while |s| < n
        invariant Valid() && |s| <= n && pos == old(pos) + |s| && s == Clip(file, old(pos), |s|)
      {
        var more := ReadSome(n - |s|);
        if more == [] {
          ClipAtEnd(file, old(pos), |s|, n);
          break;
        }
        ClipJoin(file, old(pos), |s|, |more|);
        s, filepos := s + more, filepos + |more|;
      }
    }
  }

  /** The inner loop of the conversion, with the length check that follows it. */
  method CopyOut(rd: Reader, fork: nat, chunk: nat) returns (ok: bool, bytes: seq<byte>)
    requires rd.Valid() && fork < 2 && chunk > 0
    modifies rd
    ensures rd.Valid()
    ensures var left, at := old(rd.forklen)[fork], old(rd.pos);
            && (ok <==> && left <= MAX_LENGTH && (left == 0 || at + left <= |rd.file|)
                        && (fork == DATA ==> Skippable(rd.file, at + left, rd.seekable)))
            && (ok ==> && bytes == Clip(rd.file, at, left) && |bytes| == left
                       && rd.forklen == old(rd.forklen)[fork := 0]
                       && rd.pos == at + left + if fork == DATA then Padding(at + left) else 0)
  {
    hide Padding, Clip, Skippable;
    var wanted := rd.forklen[fork];
    bytes := [];
    while true
      invariant rd.Valid() && |bytes| <= wanted && rd.pos == old(rd.pos) + |bytes|
      invariant rd.forklen == old(rd.forklen)[fork := wanted - |bytes|]
      invariant bytes == Clip(rd.file, old(rd.pos), |bytes|)
      invariant bytes != [] ==> wanted <= MAX_LENGTH
      decreases wanted - |bytes|
    {
      var r := rd.Read(fork, chunk);
      if r == None {
        return false, bytes;
      }
      if r.value == [] {
        break;
      }
      ClipJoin(rd.file, old(rd.pos), |bytes|, Min(wanted - |bytes|, chunk));
      bytes := bytes + r.value;
    }
    ok := |bytes| == wanted;
  }

  /** Whether a file holds all that its header says it does. */
  predicate Complete(file: seq<byte>, fh: BinHeader, seekable: bool) {
    var end := HEADBUFSIZ + fh.dataLength;
    && fh.dataLength <= MAX_LENGTH && fh.rsrcLength <= MAX_LENGTH
    && end <= |file| && Skippable(file, end, seekable)
    && (fh.rsrcLength == 0 || RsrcStart(fh.dataLength) + fh.rsrcLength <= |file|)
  }

  datatype BinArchive = BinArchive(fh: BinHeader, data: seq<byte>, rsrc: seq<byte>)

  function ArchiveIn(file: seq<byte>, fh: BinHeader): (a: BinArchive) {
    BinArchive(fh, Clip(file, HEADBUFSIZ, fh.dataLength), Clip(file, RsrcStart(fh.dataLength), fh.rsrcLength))
  }

  /** `PastBuffer` is a name that the header does not hold: its copy would go on behind the header buffer. */
  datatype Result = Refused | PastBuffer | Read(archive: BinArchive)

  /** The copy of the name stays within the header buffer. */
  predicate NameInBuffer(head: seq<byte>)
    requires |head| == HEADBUFSIZ
  {
    2 + head[1] <= HEADBUFSIZ
  }

  /** The test of the header does not see to that for revisions 2 and 3; it does for revision 1. */
  lemma NameLengthIsNotTested()
    ensures exists head: seq<byte> :: |head| == HEADBUFSIZ && Revision(head) == 3 && !NameInBuffer(head)
    ensures exists head: seq<byte> :: |head| == HEADBUFSIZ && Revision(head) == 2 && !NameInBuffer(head)
    ensures forall head: seq<byte> :: |head| == HEADBUFSIZ && Revision(head) == 1 ==> NameInBuffer(head)
  {
    hide CrcFrom, CrcField, FromBe32;
    var head := [0, 255] + Repeat(0, 100) + MAGIC + Repeat(0, 22);
    assert head[102..106] == MAGIC;
    assert |head| == HEADBUFSIZ && Revision(head) == 3 && !NameInBuffer(head);
    var bytes := [0, 255] + Repeat(0, 122);
    var crc := CrcFrom(0, bytes);
    var older := bytes + CrcField(crc) + [0, 0];
    CrcFieldMatches(CrcField(crc), crc);
    assert older[..124] == bytes && older[124..126] == CrcField(crc) && older[102..106][0] != MAGIC[0];
    assert |older| == HEADBUFSIZ && Revision(older) == 2 && !NameInBuffer(older);
  }

  /**
   A conversion from MacBinary. Each file that starts with a header is either refused or read for
   exactly the two forks at the places that its header gives, whatever the sizes of the reads.
   */
  method Unbin(file: seq<byte>, seekable: bool, first: nat, chunk: nat) returns (r: Result)
    requires chunk > 0
    ensures !HeaderArrives(file, seekable, first) ==> r == Refused
    ensures HeaderArrives(file, seekable, first) ==>
              var head := file[..HEADBUFSIZ];
              if Revision(head) == -1 then r == Refused
              else if !NameInBuffer(head) then r == PastBuffer
              else
                var fh := Parsed(head, Revision(head));
                r == if Complete(file, fh, seekable) then Read(ArchiveIn(file, fh)) else Refused
  {
    hide Revision, Parsed, Padding, Clip, Skippable;
    var rd := new Reader(file, seekable);
    r := Refused;
    var revision, head;
    revision, head := rd.TestHeader(first);
    if revision > 0 {
      if head[1] > HEADBUFSIZ - 2 {
        return PastBuffer;
      }
      var fh := Parsed(head, revision);
      rd.forklen := [fh.dataLength, fh.rsrcLength];
      var ok, data := CopyOut(rd, DATA, chunk);
      if ok {
        var rsrc;
        ok, rsrc := CopyOut(rd, RESOURCE, chunk);
        if ok {
          r := Read(BinArchive(fh, data, rsrc));
        }
      }
    }
  }

  /** A written file comes back as it was, from a disk file or a pipe, if its forks are not over the limit. */
  lemma RoundTrip(file: seq<byte>, fh: BinHeader, data: seq<byte>, rsrc: seq<byte>, seekable: bool)
    requires ValidBinHeader(fh) && BinFile(file, fh, data, rsrc)
    ensures var head := file[..HEADBUFSIZ];
            && head[1] <= 126 && Revision(head) == 3 && Parsed(head, 3) == fh
            && (Complete(file, fh, seekable) <==> |data| <= 0x7fff_ffff && |rsrc| <= 0x7fff_ffff)
            && ArchiveIn(file, fh) == BinArchive(fh, data, rsrc)
  {
    hide HeaderOf, Revision, Parsed, Padded, Padding;
    HeaderRoundTrip(file[..HEADBUFSIZ], fh);
    Layout(file, fh, data, rsrc);
  }

  /** A file of one of the two older revisions is read in the same way. */
  lemma OlderFileIsRead(file: seq<byte>, fh: BinHeader, data: seq<byte>, rsrc: seq<byte>, seekable: bool)
    requires ValidBinHeader(fh) && Forks(file, fh, data, rsrc)
    requires SecondHeaderOf(file[..HEADBUFSIZ], fh) || FirstHeaderOf(file[..HEADBUFSIZ], fh)
    ensures var head := file[..HEADBUFSIZ];
            && head[1] <= 126 && Revision(head) in {1, 2} && Parsed(head, Revision(head)) == fh
            && (Complete(file, fh, seekable) <==> |data| <= 0x7fff_ffff && |rsrc| <= 0x7fff_ffff)
            && ArchiveIn(file, fh) == BinArchive(fh, data, rsrc)
  {
    hide Revision, Parsed, Padded, Padding, FirstHeaderOf, SecondHeaderOf;
    OlderHeaderIsRead(file[..HEADBUFSIZ], fh);
    Layout(file, fh, data, rsrc);
  }

  lemma OlderHeaderIsRead(head: seq<byte>, fh: BinHeader)
    requires ValidBinHeader(fh) && (SecondHeaderOf(head, fh) || FirstHeaderOf(head, fh))
    ensures |head| == HEADBUFSIZ && head[1] <= 126 && Revision(head) in {1, 2} && Parsed(head, Revision(head)) == fh
  {
    hide Revision, Parsed;
    if SecondHeaderOf(head, fh) {
      SecondRoundTrip(head, fh);
    } else {
      FirstRoundTrip(head, fh);
    }
  }

  /**
   Both conversions in a row, for forks written and read in any portions, through disk files or pipes. The file
   comes back exactly if it can be written and both forks are below the limit, and a pipe delivers the header in
   its first read.
   */
  method BothWays(fh: BinHeader, dataChunks: seq<seq<byte>>, rsrcChunks: seq<seq<byte>>, out: bool, seekable: bool,
                  first: nat, chunk: nat)
      returns (r: Result, ghost failed: bool)
    requires ValidBinHeader(fh) && Chunked(dataChunks) && Chunked(rsrcChunks) && chunk > 0
    ensures var data, rsrc := Concat(dataChunks), Concat(rsrcChunks);
            r == if && |fh.name| <= 63 && |data| == fh.dataLength && |rsrc| == fh.rsrcLength && !failed
                    && |data| <= 0x7fff_ffff && |rsrc| <= 0x7fff_ffff && (seekable || first >= 128)
                 then Read(BinArchive(fh, data, rsrc)) else Refused
    ensures r == Refused || r == Read(BinArchive(fh, Concat(dataChunks), Concat(rsrcChunks)))
  {
    hide HeaderOf, Revision, Parsed, Padded, Padding, Complete, ArchiveIn, ValidBinHeader;
    var file;
    file, failed := Bin(fh, dataChunks, rsrcChunks, out);
    if file == None {
      return Refused, failed;
    }
    RoundTrip(file.value, fh, Concat(dataChunks), Concat(rsrcChunks), seekable);
    r := Unbin(file.value, seekable, first, chunk);
  }
}
