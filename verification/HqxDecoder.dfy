/** The BinHex decoder of bin/nad/hqx.c: a resumable machine over an 8192-byte input buffer. */
module HqxDecoder {
  import opened Bytes
  import opened Crc16
  import opened CrcBytes
  import opened HqxFormat
  import opened HqxStream
  import opened HqxFile

  class Decoder {
    const file: seq<byte>
    var pos: nat          // how much of the file has been read
    const buf: array<byte>
    var first: nat        // buf[first..last] is text not yet looked at
    var last: nat

    var hqx8: seq<byte>   // the unpacked group
    var hqx8i: nat        // next byte of it
    var prevHqx8: byte
    var prevOut: byte
    var prevHqx7: byte
    var eof: bool

    var forklen: seq<nat>  // bytes of each fork still to come
    var forkcrc: seq<bv16>

    /** The text still to be decoded, in the buffer and in the file. */
    ghost function Rest(): (text: seq<byte>)
      requires first <= last <= buf.Length && pos <= |file|
      reads `pos, `first, `last, buf
    {
      buf[first..last] + file[pos..]
    }

    ghost predicate Buffered()
      reads `pos, `first, `last, buf
    {
      buf.Length == BUFFER && first <= last <= BUFFER && pos <= |file|
    }

    ghost predicate Valid()
      reads `pos, `first, `last, `hqx8, `hqx8i, `eof, buf
    {
      && Buffered() && |hqx8| == 3 && hqx8i <= 3
      && (!eof ==> Shaped(Rest()))
    }

    /** The bytes this decoder has still to give. */
    ghost function Stream(): (st: HqxStream.Stream)
      requires Valid()
      ensures WellFormed(st)
      reads `pos, `first, `last, `hqx8, `hqx8i, `prevHqx8, `prevOut, `eof, buf
    {
      if eof then Ended else StreamOf(hqx8[hqx8i..], Sixes(Rest()), prevHqx8 == RUNCHAR, prevOut)
    }

    constructor (file: seq<byte>)
      ensures this.file == file && Buffered() && fresh(buf) && first == last == pos == 0
      ensures |hqx8| == 3 && hqx8i == 3 && prevHqx8 == 0 && prevOut == 0 && prevHqx7 == 0 && !eof
    {
      this.file := file;
      buf := new byte[BUFFER];
      pos, first, last := 0, 0, 0;
      hqx8, hqx8i, prevHqx8, prevOut, prevHqx7, eof := [0, 0, 0], 3, 0, 0, 0, false;
      forklen, forkcrc := [], [];
    }

    /** hqx7_fill: read into the buffer from `at` on, as much as fits or as the file still has. */
    method Fill(at: nat) returns (cc: nat)
      requires Buffered() && at < BUFFER
      modifies `pos, `first, `last, buf
      ensures Buffered() && first == at && last == at + cc && pos == old(pos) + cc
      ensures cc == Min(BUFFER - at, |file| - old(pos))
      ensures buf[..at] == old(buf[..at])
      ensures Rest() == file[old(pos)..]
    {
      first := at;
      cc := if |file| - pos < BUFFER - at then |file| - pos else BUFFER - at;
      forall i | 0 <= i < cc {
        buf[at + i] := file[pos + i];
      }
      last := first + cc;
      assert buf[at..last] == file[pos..pos + cc];
      pos := pos + cc;
    }

    /** The scan of skip_junk for the end of a line: how many characters of the buffer belong to it. */
    method ScanLine() returns (nc: int, c: byte)
      requires Buffered() && DataLine(Rest())
      ensures nc == Min(LineLength(Rest()), last - first)
      ensures nc < last - first ==> c == HqxLookup(Rest()[nc])
      ensures nc == last - first ==> c < 64
    {
      hide HqxLookup;
      ghost var text := Rest();
      nc, c := 0, 0;
      var prevchar := EOL;
      var stop := false;
      while !stop && nc < last - first
        invariant 0 <= nc <= last - first
        invariant nc <= LineLength(text)
        invariant !stop ==> c < 64 && (nc > 0 ==> prevchar < 64)
        invariant stop ==> nc < last - first && nc == LineLength(text) && c == HqxLookup(text[nc])
        decreases !stop, last - first - nc
      {
        assert text[nc] == buf[first + nc];
        c := HqxLookup(buf[first + nc]);
        if c == BLANK || c == EOL {
          if prevchar == BLANK || prevchar == EOL {
            nc := nc + 1;
          } else {
            stop := true;
          }
        } else if c == BAD || c == STOP {
          stop := true;
        } else {
          prevchar := c;
          nc := nc + 1;
        }
      }
    }

    /** The tail of skip_junk: a line cut by the buffer moves to the front, behind a new end of line. */
    method MoveLineToFront()
      requires Buffered() && 1 <= first && last - first + 1 < BUFFER && pos < |file|
      modifies `pos, `first, `last, buf
      ensures Buffered() && first == 0 < last && pos > old(pos)
      ensures buf[0] == NEWLINE && Rest() == [NEWLINE] + old(Rest())
    {
      var nc := last - first;
      ShiftLine();
      ghost var line := buf[..nc + 1];
      var cc := Fill(nc + 1);
      ghost var tail := Rest();
      first := 0;
      assert buf[..nc + 1][0] == buf[0];
      assert buf[0..last] == line + buf[nc + 1..last];
      assert Rest() == line + tail;
    }

    /** The bytes of the line behind a new end of line, at the front of the buffer. */
    method ShiftLine()
      requires Buffered() && 1 <= first && last - first + 1 < BUFFER
      modifies buf
      ensures buf[..last - first + 1] == [NEWLINE] + old(buf[first..last])
    {
      var nc, from := last - first, first;
      buf[0] := NEWLINE;
      forall i | 0 <= i < nc {
        buf[i + 1] := buf[from + i];
      }
    }

    /**
     skip_junk for a further line: step over the end of line in front, once the line after it proves to
     be data.
     */
    method SkipToNextLine()
      requires Buffered() && first < last && HqxLookup(buf[first]) == EOL && DataLine(Rest()[1..])
      modifies `pos, `first, `last, buf
      ensures Buffered() && Rest() == old(Rest())[1..]
    {
      hide HqxLookup, LineLength;
      Delimiters();
      ghost var line := Rest()[1..];
      var found := false;
      while !found
        invariant Buffered()
        invariant !found ==> first < last && HqxLookup(buf[first]) == EOL && Rest()[1..] == line
        invariant found ==> Rest() == line
        decreases !found, |file| - pos
      {
        StepForward();
        var nc, c := ScanLine();
        if c == STOP {
          found := true;
        } else if nc > 30 && c == EOL {
          found := true;
        }
        if last - first == nc {
          assert nc <= LineLength(line) < |line|;
          MoveLineToFront();
        }
      }
    }

    /**
     The inner loop of hqx_7tobin that collects four six-bit values, `held` of which an earlier pass got
     before the buffer ran out. The terminator fills the group with zeros and sets the end flag.
     */
    method Gather(held: seq<six>) returns (hqx7: seq<six>)
      requires Buffered() && Shaped(Rest()) && !eof && |held| < 4
      modifies `pos, `first, `last, `prevHqx7, `eof, buf
      ensures Buffered() && |hqx7| <= 4
      ensures var s := held + Sixes(old(Rest()));
              if eof then |s| < 4 && hqx7 == Group(s)
              else Shaped(Rest()) && hqx7 + Sixes(Rest()) == s && (|hqx7| == 4 || first == last)
      ensures !eof && old(first < last) ==> |Rest()| < old(|Rest()|)
    {
      hide HqxLookup, LineLength, DataLine, Shaped, Sixes, Group;
      hqx7 := held;
      ghost var s, size := held + Sixes(Rest()), |Rest()|;
      while |hqx7| < 4 && first < last
        invariant Buffered() && |hqx7| <= 4
        invariant !eof ==> Shaped(Rest()) && hqx7 + Sixes(Rest()) == s
        invariant eof ==> |s| < 4 && hqx7 == Group(s)
        invariant |Rest()| <= size
        invariant |Rest()| == size && !eof ==> |hqx7| < 4 && (old(first < last) ==> first < last)
        decreases |Rest()|, 4 - |hqx7|
      {
        ghost var text := Rest();
        assert text[0] == buf[first];
        ShapedStep(text);
        var v := HqxLookup(buf[first]);
        if v < 64 {
          ghost var got := hqx7;
          hqx7 := hqx7 + [v];
          prevHqx7 := v;
          StepForward();
          assert hqx7 + Sixes(text[1..]) == got + ([v] + Sixes(text[1..]));
        } else if v == EOL {
          prevHqx7 := v;
          SkipToNextLine();
        } else {
          assert s == hqx7;
          eof := true;
          hqx7 := Group(hqx7);
        }
      }
    }

    /** The part of hqx_7tobin that gets the next group, or the values of it that the buffer still has. */
    method NextGroup(held: seq<six>, ghost st: HqxStream.Stream, ghost out: seq<byte>) returns (hqx7: seq<six>)
      requires Buffered() && Shaped(Rest()) && !eof && |held| < 4 && first < last && |hqx8| == 3 && hqx8i == 3
      requires st.Open? && Ahead(st, out, [], held + Sixes(Rest()), prevHqx8 == RUNCHAR, prevOut)
      modifies `pos, `first, `last, `hqx8, `hqx8i, `prevHqx7, `eof, buf
      ensures Buffered() && |hqx7| < 4 && |hqx8| == 3 && hqx8i <= 3
      ensures eof ==> st.sure == |out| && st.rest == out + Expand(hqx8[hqx8i..], prevHqx8 == RUNCHAR, prevOut)
      ensures !eof ==> && Shaped(Rest()) && |Rest()| < old(|Rest()|) && (hqx7 != [] ==> hqx8i == 3)
                       && Ahead(st, out, hqx8[hqx8i..], hqx7 + Sixes(Rest()), prevHqx8 == RUNCHAR, prevOut)
    {
      hide Shaped, Sixes, Expand, Unsix, Whole, Unpack, Group, Ahead;
      ghost var s := held + Sixes(Rest());
      hqx7 := Gather(held);
      if |hqx7| < 4 {
        assert hqx8[hqx8i..] == [];
        return;
      }
      if eof {
        AheadEnd(st, out, s, prevHqx8 == RUNCHAR, prevOut);
      } else {
        AheadLoad(st, out, hqx7, Sixes(Rest()), prevHqx8 == RUNCHAR, prevOut);
      }
      hqx8 := Unpack(hqx7);
      hqx7, hqx8i := [], 0;
      assert hqx8[0..] == hqx8;
      assert [] + Sixes(Rest()) == Sixes(Rest());
    }

    /** A step of run expansion that consumes the count, or as much of it as the request leaves room for. */
    method EmitRun(n: nat, sofar: seq<byte>) returns (out: seq<byte>)
      requires |hqx8| == 3 && hqx8i < 3 && |sofar| < n && prevHqx8 == RUNCHAR
      modifies `hqx8, `hqx8i, `prevHqx8, `prevOut
      ensures |hqx8| == 3 && sofar <= out && |out| <= n
      ensures hqx8i == old(hqx8i) + 1 || (hqx8i == old(hqx8i) && |out| == n && prevHqx8 == RUNCHAR)
      ensures forall i :: old(hqx8i) < i < 3 ==> hqx8[i] == old(hqx8)[i]
      ensures hqx8i == old(hqx8i) + 1 ==>
                && prevHqx8 != RUNCHAR
                && if old(hqx8)[old(hqx8i)] == 0 then out == sofar + [RUNCHAR] && prevOut == RUNCHAR
                   else out == sofar + Repeat(prevOut, old(hqx8)[old(hqx8i)] - 1) && prevOut == old(prevOut)
      ensures hqx8i == old(hqx8i) ==>
                && prevOut == old(prevOut) && 1 < hqx8[hqx8i] <= old(hqx8)[hqx8i]
                && out == sofar + Repeat(prevOut, old(hqx8)[hqx8i] - hqx8[hqx8i])
    {
      out := sofar;
      ghost var count := hqx8[hqx8i];
      if hqx8[hqx8i] == 0 {
        out := out + [prevHqx8];
        prevOut := prevHqx8;
      }
      while |out| < n && hqx8[hqx8i] > 1
        invariant |hqx8| == 3 && |out| <= n && hqx8i == old(hqx8i) && prevHqx8 == RUNCHAR
        invariant prevOut == if count == 0 then RUNCHAR else old(prevOut)
        invariant forall i :: 0 <= i < 3 && i != hqx8i ==> hqx8[i] == old(hqx8)[i]
        invariant count == 0 ==> out == sofar + [RUNCHAR] && hqx8[hqx8i] == 0
        invariant count != 0 ==> 1 <= hqx8[hqx8i] <= count && out == sofar + Repeat(prevOut, count - hqx8[hqx8i])
        decreases hqx8[hqx8i]
      {
        out := out + [prevOut];
        hqx8 := hqx8[hqx8i := hqx8[hqx8i] - 1];
      }
      if hqx8[hqx8i] < 2 {
        prevHqx8 := hqx8[hqx8i];
        hqx8i := hqx8i + 1;
      }
    }

    /** The inner loop of hqx_7tobin that turns the unpacked bytes into output. */
    method EmitPending(n: nat, sofar: seq<byte>) returns (out: seq<byte>)
      requires |hqx8| == 3 && hqx8i <= 3 && |sofar| <= n
      modifies `hqx8, `hqx8i, `prevHqx8, `prevOut
      ensures |hqx8| == 3 && old(hqx8i) <= hqx8i <= 3 && |sofar| <= |out| <= n && (hqx8i == 3 || |out| == n)
      ensures old(hqx8i) == 3 ==> out == sofar
      ensures Same(old(hqx8[hqx8i..]), old(prevHqx8) == RUNCHAR, old(prevOut), sofar,
                   hqx8[hqx8i..], prevHqx8 == RUNCHAR, prevOut, out)
    {
      hide Same, Expand, MarkedAfter, LastAfter;
      SameReflexive(hqx8[hqx8i..], prevHqx8 == RUNCHAR, prevOut, sofar);
      SameTransitive();
      out := sofar;
      while hqx8i < 3 && |out| < n
        invariant |hqx8| == 3 && old(hqx8i) <= hqx8i <= 3 && |sofar| <= |out| <= n
        invariant old(hqx8i) == 3 ==> out == sofar
        invariant Same(old(hqx8[hqx8i..]), old(prevHqx8) == RUNCHAR, old(prevOut), sofar,
                       hqx8[hqx8i..], prevHqx8 == RUNCHAR, prevOut, out)
        decreases 3 - hqx8i, n - |out|
      {
        ghost var p, last0, out0 := hqx8[hqx8i..], prevOut, out;
        if prevHqx8 == RUNCHAR {
          ghost var i := hqx8i;
          out := EmitRun(n, out);
          if i == hqx8i {
            SameCut(p, hqx8[i], last0, out0);
            assert [hqx8[i]] + p[1..] == hqx8[hqx8i..];
          } else {
            SameRun(p, last0, out0);
            assert p[1..] == hqx8[hqx8i..];
          }
        } else {
          prevHqx8 := hqx8[hqx8i];
          if prevHqx8 != RUNCHAR {
            out := out + [prevHqx8];
            prevOut := prevHqx8;
          }
          hqx8i := hqx8i + 1;
          SamePlain(p, last0, out0);
          assert p[1..] == hqx8[hqx8i..];
        }
      }
    }

    /**
     hqx_7tobin: the next `n` bytes of the stream, or all that are left. Runs and groups may be cut
     anywhere by the request, and the buffer may run out anywhere.
     */
    method ToBin(n: nat) returns (out: seq<byte>)
      requires Valid()
      modifies `pos, `first, `last, `hqx8, `hqx8i, `prevHqx8, `prevOut, `prevHqx7, `eof, buf
      ensures Valid()
      ensures out == Given(old(Stream()), n)
      ensures Stream() == After(old(Stream()), n)
    {
      hide Shaped, Sixes, Expand, Unsix, Whole, Unpack, Group, Same, Ahead;
      ghost var st := Stream();
      out := [];
      var hqx7: seq<six> := [];
      if !eof {
        AheadStart(hqx8[hqx8i..], Sixes(Rest()), prevHqx8 == RUNCHAR, prevOut);
        assert [] + Sixes(Rest()) == Sixes(Rest());
      }
      while |out| < n && !eof
        invariant Buffered() && |hqx8| == 3 && hqx8i <= 3 && |hqx7| < 4 && |out| <= n
        invariant st.Ended? ==> eof && out == []
        invariant !eof ==> && Shaped(Rest()) && (hqx7 != [] ==> hqx8i == 3)
                           && Ahead(st, out, hqx8[hqx8i..], hqx7 + Sixes(Rest()), prevHqx8 == RUNCHAR, prevOut)
        invariant eof && st.Open? ==> st.sure < n && (hqx8i == 3 || |out| == n)
                                      && st.rest == out + Expand(hqx8[hqx8i..], prevHqx8 == RUNCHAR, prevOut)
        invariant !eof && |out| == n ==> hqx7 == []
        decreases !eof, |Rest()|, 3 - hqx8i, n - |out|
      {
        if first == last {
          assert Rest() == file[pos..];
          ShapedNotEmpty(Rest());
          var cc := Fill(0);
        }
        if hqx8i > 2 {
          assert hqx8[hqx8i..] == [];
          hqx7 := NextGroup(hqx7, st, out);
        }
        ghost var p, marked, last0, out0 := hqx8[hqx8i..], prevHqx8 == RUNCHAR, prevOut, out;
        out := EmitPending(n, out);
        if eof {
          SameOutput(p, marked, last0, out0, hqx8[hqx8i..], prevHqx8 == RUNCHAR, prevOut, out);
        } else {
          AheadEmit(st, hqx7 + Sixes(Rest()), p, marked, last0, out0, hqx8[hqx8i..], prevHqx8 == RUNCHAR, prevOut, out);
        }
      }
      if eof {
        ExpandEmpty();
        assert hqx8[3..] == [];
      } else {
        assert [] + Sixes(Rest()) == Sixes(Rest());
        AheadFinish(st, out, hqx8[hqx8i..], Sixes(Rest()), prevHqx8 == RUNCHAR, prevOut);
      }
    }

    method FindColon(ghost colon: nat)
      requires Buffered() && first == 0 && colon < last && Rest() == file && FirstColonAt(file, colon)
      modifies `first
      ensures Buffered() && first == colon && last == old(last) && Rest() == file[colon..]
    {
      while buf[first] != COLON
        invariant Buffered() && first <= colon < last && last == old(last) && Rest() == file[first..]
        decreases colon - first
      {
        assert Rest()[0] == buf[first] == file[first];
        StepForward();
      }
      assert Rest()[0] == buf[first] == file[first];
    }

    /** The first read, and the step behind the first colon in it. */
    method GoBehindColon()
      requires Buffered() && first == last == pos == 0 && COLON in file && |file| - |Body(file)| <= BUFFER
      modifies `pos, `first, `last, buf
      ensures Buffered() && Rest() == Body(file)
      ensures first == |file| - |Body(file)| && last == Min(BUFFER, |file|)
    {
      hide Body, FirstColonAt;
      ghost var colon := BodyIsTail(file);
      var cc := Fill(0);
      assert file[0..] == file;
      ColonInside(file, colon);
      FindColon(colon);
      StepForward();
      assert file[colon..][1..] == file[colon + 1..];
    }

    /** skip_junk for the first line, on text whose first colon starts the data. */
    method SkipToFirstLine() returns (found: bool)
      requires Buffered() && first == last == pos == 0 && Readable(file)
      modifies `pos, `first, `last, buf
      ensures found && Buffered() && Rest() == Body(file)
    {
      hide LineLength, HqxLookup, Shaped, Body;
      GoBehindColon();
      var nc, c := ScanLine();
      found := nc > 30 && nc < 64 && (c == EOL || c == STOP);
    }

    method StepForward()
      requires Buffered() && first < last
      modifies `first
      ensures Buffered() && first == old(first) + 1 && Rest() == old(Rest())[1..]
    {
      assert buf[first..last] == [buf[first]] + buf[first + 1..last];
      first := first + 1;
    }

    /** Requests in any portions, over which the state is carried, give what the stream gives. */
    method Requests(ns: seq<nat>) returns (out: seq<byte>)
      requires Valid()
      modifies `pos, `first, `last, `hqx8, `hqx8i, `prevHqx8, `prevOut, `prevHqx7, `eof, buf
      ensures Valid() && out == GivenAll(old(Stream()), ns)
      ensures old(Stream()).Open? && Sum(ns) <= old(Stream()).sure ==> out == old(Stream()).rest[..Sum(ns)]
      ensures old(Stream()).Open? ==> out <= old(Stream()).rest && |out| >= Min(Sum(ns), old(Stream()).sure)
    {
      hide Valid, Stream, Given, HqxStream.After;
      out := [];
      assert ns[0..] == ns;
      for i := 0 to |ns|
        invariant Valid() && GivenAll(old(Stream()), ns) == out + GivenAll(Stream(), ns[i..])
      {
        assert ns[i..][0] == ns[i] && ns[i..][1..] == ns[i + 1..];
        var some := ToBin(ns[i]);
        out := out + some;
      }
      ghost var st := old(Stream());
      if st.Open? {
        SplitsArePrefix(st, ns);
        if Sum(ns) <= st.sure {
          SplitsAgree(st, ns);
        }
      }
    }

    /** A decoder that has just found the first line gives the stream of the whole text. */
    lemma StartsAtText()
      requires Buffered() && !eof && |hqx8| == 3 && hqx8i == 3 && prevHqx8 == 0 && prevOut == 0
      requires Shaped(Rest())
      ensures Valid() && Stream() == StreamOf([], Sixes(Rest()), false, 0)
    {
      hide Shaped, Sixes, StreamOf;
      assert hqx8[3..] == [];
    }

    /** hqx_header_read. */
    method HeaderRead() returns (r: Option<FHeader>)
      requires Valid()
      modifies `pos, `first, `last, `hqx8, `hqx8i, `prevHqx8, `prevOut, `prevHqx7, `eof, `forklen, `forkcrc, buf
      ensures Valid()
      ensures r.Some? <==> GoodHeader(old(Stream()))
      ensures r.Some? ==> r.value == HeaderOf(old(Stream())) && Stream() == AfterHeader(old(Stream()))
      ensures r.Some? ==> forkcrc == [0, 0]
                          && forklen == [FromBe32(r.value.dataLen) as nat, FromBe32(r.value.rsrcLen)]
    {
      hide Valid, Stream, Feed, Bits, CrcFrom, CrcField, FromBe32, FromBe16, ParseHeader;
      ghost var st := Stream();
      var namelen := ToBin(1);
      if |namelen| != 1 {
        return None;
      }
      var n := namelen[0];
      var bytes := ToBin(n + FIELDS + CRC_SIZE);
      if |bytes| != n + FIELDS + CRC_SIZE {
        return None;
      }
      assert st.Open? && st.sure >= 1;
      assert namelen + bytes == st.rest[..1 + |bytes|];
      var crc := Update(0, Bits(namelen));
      crc := Update(crc, Bits(bytes[..n + FIELDS]));
      assert crc == CrcFrom(0, st.rest[..1 + n + FIELDS]) by {
        CrcFromIsFeed(0, namelen);
        CrcFromIsFeed(CrcFrom(0, namelen), bytes[..n + FIELDS]);
        CrcAppend(0, namelen, bytes[..n + FIELDS]);
        assert namelen + bytes[..n + FIELDS] == st.rest[..1 + n + FIELDS];
      }
      var fh := ParseHeader(bytes, n);
      forklen := [FromBe32(fh.dataLen), FromBe32(fh.rsrcLen)];
      forkcrc := [0, 0];
      var field := bytes[n + FIELDS..];
      CrcFieldMatches(field, crc);
      assert st.rest[1..1 + |bytes|] == bytes;
      TailOfSlice(st.rest, 1, n + FIELDS, |bytes|);
      assert field == st.rest[1 + n + FIELDS..1 + n + FIELDS + CRC_SIZE];
      if FromBe16(field) != crc as int {
        return None;
      }
      r := Some(fh);
    }

    /** hqx_read: None for an error, and an empty result once the fork is complete. */
    method Read(fork: nat, length: nat) returns (r: Option<seq<byte>>)
      requires Valid() && fork < 2 && |forklen| == 2 && |forkcrc| == 2
      modifies `pos, `first, `last, `hqx8, `hqx8i, `prevHqx8, `prevOut, `prevHqx7, `eof, `forklen, `forkcrc, buf
      ensures Valid()
      ensures r.Some? <==> && old(forklen)[fork] <= MAX_FORK
                           && (old(forklen)[fork] == 0 ==>
                                 Given(old(Stream()), CRC_SIZE) == CrcField(old(forkcrc)[fork]))
      ensures r.None? ==> forklen == old(forklen) && forkcrc == old(forkcrc)
      ensures r.Some? ==> var n := Min(old(forklen)[fork], length);
                          && r.value == Given(old(Stream()), n)
                          && Stream() == After(old(Stream()), if old(forklen)[fork] == 0 then CRC_SIZE else n)
                          && forklen == old(forklen)[fork := old(forklen)[fork] - |r.value|]
                          && forkcrc == old(forkcrc)[fork := CrcFrom(old(forkcrc)[fork], r.value)]
    {
      hide Valid, Stream, Feed, Bits, CrcFrom, CrcField, FromBe16;
      if forklen[fork] > MAX_FORK {
        return None;
      }
      if forklen[fork] == 0 {
        var stored := ToBin(CRC_SIZE);
        CrcFromEmpty(forkcrc[fork]);
        if |stored| == CRC_SIZE {
          CrcFieldMatches(stored, forkcrc[fork]);
          if FromBe16(stored) == forkcrc[fork] as int {
            return Some([]);
          }
        }
        return None;
      }
      var readlen := if forklen[fork] < length then forklen[fork] else length;
      var out := ToBin(readlen);
      if |out| > 0 {
        var crc := Update(forkcrc[fork], Bits(out));
        CrcFromIsFeed(forkcrc[fork], out);
        forkcrc := forkcrc[fork := crc];
        forklen := forklen[fork := forklen[fork] - |out|];
      } else {
        CrcFromEmpty(forkcrc[fork]);
      }
      r := Some(out);
    }
  }

  lemma TailOfSlice(s: seq<byte>, a: nat, b: nat, n: nat)
    requires b <= n && a + n <= |s|
    ensures s[a..a + n][b..] == s[a + b..a + n]
  {
  }

  const MAX_FORK: nat := 0x7FFF_FFFF

  /** The text behind the first colon. */
  function Body(file: seq<byte>): (text: seq<byte>) {
    if file == [] then [] else if file[0] == COLON then file[1..] else Body(file[1..])
  }

  /** The first colon and the line behind it come with the first read; that line and all further ones look like data. */
  predicate Readable(file: seq<byte>) {
    var text := Body(file);
    var n := LineLength(text);
    && COLON in file && |file| - |text| + n < BUFFER
    && 30 < n < 64 && n < |text|
    && (HqxLookup(text[n]) == EOL || HqxLookup(text[n]) == STOP)
    && Shaped(text)
  }

  predicate FirstColonAt(file: seq<byte>, k: nat) {
    k < |file| && file[k] == COLON && forall i :: 0 <= i < k ==> file[i] != COLON
  }

  lemma ColonInside(file: seq<byte>, k: nat)
    requires FirstColonAt(file, k)
    ensures k < |file|
  {
  }

  lemma {:induction false} BodyIsTail(file: seq<byte>) returns (k: nat)
    requires COLON in file
    ensures FirstColonAt(file, k) && Body(file) == file[k + 1..]
  {
    if file[0] == COLON {
      k := 0;
    } else {
      var j := BodyIsTail(file[1..]);
      k := j + 1;
      assert forall i :: 1 <= i <= k ==> file[i] == file[1..][i - 1];
      assert file[1..][j + 1..] == file[k + 1..];
    }
  }

  /** A stream that starts with a header under a correct checksum. */
  ghost predicate GoodHeader(st: HqxStream.Stream) {
    && st.Open? && st.sure >= 1 && |st.rest| >= 1
    && var n := 1 + st.rest[0] + FIELDS;
       |st.rest| >= n + CRC_SIZE && st.rest[n..n + CRC_SIZE] == CrcField(CrcFrom(0, st.rest[..n]))
  }

  ghost function HeaderOf(st: HqxStream.Stream): (fh: FHeader)
    requires GoodHeader(st)
    ensures ValidHeader(fh)
  {
    ParseHeader(st.rest[1..1 + st.rest[0] + FIELDS + CRC_SIZE], st.rest[0])
  }

  ghost function AfterHeader(st: HqxStream.Stream): (st': HqxStream.Stream)
    requires GoodHeader(st) && WellFormed(st)
    ensures WellFormed(st')
  {
    After(After(st, 1), st.rest[0] + FIELDS + CRC_SIZE)
  }

  lemma ShapedStep(text: seq<byte>)
    requires Shaped(text)
    ensures var v := HqxLookup(text[0]);
            if v < 64 then Shaped(text[1..]) && Sixes(text) == [v as six] + Sixes(text[1..])
            else if v == EOL then DataLine(text[1..]) && Shaped(text[1..]) && Sixes(text) == Sixes(text[1..])
            else Sixes(text) == []
  {
    hide HqxLookup, DataLine;
  }

  lemma ShapedNotEmpty(text: seq<byte>)
    requires Shaped(text)
    ensures text != []
  {
  }

  lemma ExpandEmpty()
    ensures forall marked, last :: Expand([], marked, last) == []
  {
  }

  lemma AheadStart(p: seq<byte>, s: seq<six>, marked: bool, last: byte)
    ensures Ahead(StreamOf(p, s, marked, last), [], p, s, marked, last)
  {
    hide Expand, Unsix, Whole;
    var st := StreamOf(p, s, marked, last);
    assert [] + st.rest == st.rest;
  }

  lemma AheadFinish(st: HqxStream.Stream, out: seq<byte>, p: seq<byte>, s: seq<six>, marked: bool, last: byte)
    requires st.Open? && WellFormed(st) && Ahead(st, out, p, s, marked, last)
    ensures out == Given(st, |out|) && After(st, |out|) == StreamOf(p, s, marked, last)
  {
    hide Expand, Unsix, Whole;
  }

  lemma SameOutput(p: seq<byte>, marked: bool, last: byte, out: seq<byte>,
                   p': seq<byte>, marked': bool, last': byte, out': seq<byte>)
    requires Same(p, marked, last, out, p', marked', last', out')
    ensures out + Expand(p, marked, last) == out' + Expand(p', marked', last')
  {
  }

  /** A state with `out` given out, `p` pending and the values `s` to come, on the way through the stream `st`. */
  ghost predicate Ahead(st: HqxStream.Stream, out: seq<byte>, p: seq<byte>, s: seq<six>, marked: bool, last: byte)
    requires st.Open?
  {
    && st.rest == out + Expand(p + Unsix(s), marked, last)
    && st.sure == |out| + |Expand(p + Whole(s), marked, last)|
  }

  lemma AheadLoad(st: HqxStream.Stream, out: seq<byte>, g: seq<six>, s: seq<six>, marked: bool, last: byte)
    requires st.Open? && |g| == 4 && Ahead(st, out, [], g + s, marked, last)
    ensures Ahead(st, out, Unpack(g), s, marked, last)
  {
    hide Expand, Unpack;
    assert (g + s)[..4] == g && (g + s)[4..] == s;
    assert [] + Unsix(g + s) == Unpack(g) + Unsix(s);
    assert [] + Whole(g + s) == Unpack(g) + Whole(s);
  }

  lemma AheadEnd(st: HqxStream.Stream, out: seq<byte>, s: seq<six>, marked: bool, last: byte)
    requires st.Open? && |s| < 4 && Ahead(st, out, [], s, marked, last)
    ensures st.rest == out + Expand(Unpack(Group(s)), marked, last) && st.sure == |out|
  {
    hide Unpack, Group;
    assert [] + Unsix(s) == Unpack(Group(s)) && [] + Whole(s) == [];
  }

  lemma AheadEmit(st: HqxStream.Stream, s: seq<six>, p: seq<byte>, marked: bool, last: byte, out: seq<byte>,
                  p': seq<byte>, marked': bool, last': byte, out': seq<byte>)
    requires st.Open? && Ahead(st, out, p, s, marked, last) && Same(p, marked, last, out, p', marked', last', out')
    ensures Ahead(st, out', p', s, marked', last')
  {
    hide Expand, Unsix, Whole, MarkedAfter, LastAfter;
    ExpandAppend(p, Unsix(s), marked, last);
    ExpandAppend(p', Unsix(s), marked', last');
    ExpandAppend(p, Whole(s), marked, last);
    ExpandAppend(p', Whole(s), marked', last');
    var e, e' := Expand(p, marked, last), Expand(p', marked', last');
    var x := Expand(Unsix(s), MarkedAfter(p, marked), LastAfter(p, marked, last));
    assert out + (e + x) == (out + e) + x && out' + (e' + x) == (out' + e') + x;
    assert |out + e| == |out' + e'|;
  }

  /** Two decoder states, with what they gave out so far, that agree on everything to come. */
  ghost predicate Same(p: seq<byte>, marked: bool, last: byte, out: seq<byte>,
                       p': seq<byte>, marked': bool, last': byte, out': seq<byte>)
  {
    && out + Expand(p, marked, last) == out' + Expand(p', marked', last')
    && MarkedAfter(p, marked) == MarkedAfter(p', marked')
    && LastAfter(p, marked, last) == LastAfter(p', marked', last')
  }

  lemma SameReflexive(p: seq<byte>, marked: bool, last: byte, out: seq<byte>)
    ensures Same(p, marked, last, out, p, marked, last, out)
  {
  }

  lemma SameTransitive()
    ensures forall p, m, l, o, p', m', l', o', p'', m'', l'', o'' |
              Same(p, m, l, o, p', m', l', o') && Same(p', m', l', o', p'', m'', l'', o'') ::
              Same(p, m, l, o, p'', m'', l'', o'')
  {
  }

  lemma SamePlain(p: seq<byte>, last: byte, out: seq<byte>)
    requires p != []
    ensures if p[0] == RUNCHAR then Same(p, false, last, out, p[1..], true, last, out)
            else Same(p, false, last, out, p[1..], false, p[0], out + [p[0]])
  {
  }

  lemma SameRun(p: seq<byte>, last: byte, out: seq<byte>)
    requires p != []
    ensures if p[0] == 0 then Same(p, true, last, out, p[1..], false, RUNCHAR, out + [RUNCHAR])
            else Same(p, true, last, out, p[1..], false, last, out + Repeat(last, p[0] - 1))
  {
  }

  /** A run cut short by the request goes on with a smaller count. */
  lemma SameCut(p: seq<byte>, c: byte, last: byte, out: seq<byte>)
    requires p != [] && 1 <= c <= p[0]
    ensures Same(p, true, last, out, [c] + p[1..], true, last, out + Repeat(last, p[0] - c))
  {
    var q := [c] + p[1..];
    assert q[1..] == p[1..];
    assert Repeat(last, p[0] - 1) == Repeat(last, p[0] - c) + Repeat(last, c - 1);
    SameRun(p, last, out);
    SameRun(q, last, out + Repeat(last, p[0] - c));
  }
}
