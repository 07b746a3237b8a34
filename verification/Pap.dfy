/** The sending side of bin/pap/pap.c: file data goes out in answer to the printer's READ requests. */
module Pap {
  import opened Bytes

  const PAP_MAXDATA: nat := 512

  /** A DATA response to one READ request. */
  datatype Response = Response(packets: seq<seq<byte>>, eof: bool)

  /** The bytes of a list of responses. */
  function Payload(rs: seq<Response>): (bs: seq<byte>) {
    if rs == [] then [] else Payload(rs[..|rs| - 1]) + Concat(rs[|rs| - 1].packets)
  }

  /** What one pass of the loop finds: the bytes that the file has ready if it is readable, a READ request, and a
      printer that says it is waiting. */
  datatype Pass = Pass(readable: Option<nat>, read: bool, printerReady: bool)

  class Sender {
    const file: seq<byte>
    const quantum: nat
    var pos: nat                // bytes that readv has returned
    var fiov: seq<seq<byte>>    // the packets that wait for a READ request
    var eof: bool
    var senteof: bool
    var data: bool              // a READ request has not been answered yet
    var waitforprinter: bool
    var sent: seq<Response>

    ghost var requests: nat     // READ requests so far

    ghost predicate Valid()
      reads this
    {
      && 1 <= quantum <= 8 && pos <= |file|
      && (forall i :: 0 <= i < |fiov| ==> 0 < |fiov[i]| <= 512) && |fiov| <= quantum
      && Payload(sent) + Concat(fiov) == file[..pos]
      && (eof ==> pos == |file| && fiov == [])
      && |sent| + (if data then 1 else 0) <= requests
      && (forall i :: 0 <= i < |sent| ==> |sent[i].packets| <= quantum)
      && (forall i :: 0 <= i < |sent| ==> (sent[i].eof <==> senteof && i == |sent| - 1))
      && (senteof ==> eof && sent != [])
    }

    constructor (file: seq<byte>, quantum: nat, credit: bool, waitforprinter: bool)
      requires 1 <= quantum <= 8
      ensures Valid() && this.file == file && this.quantum == quantum && sent == []
      ensures requests == if credit then 1 else 0
    {
      this.file, this.quantum, this.data, this.waitforprinter := file, quantum, credit, waitforprinter;
      pos, fiov, eof, senteof, sent := 0, [], false, false, [];
      requests := if credit then 1 else 0;
    }

    /** Read data: `cc` is what readv returns, 0 only at the end of the file. */
    method ReadFile(cc: nat)
      requires Valid() && !eof && fiov == []
      requires cc <= quantum * PAP_MAXDATA && pos + cc <= |file| && (cc == 0 <==> pos == |file|)
      modifies `pos, `fiov, `eof
      ensures Valid() && pos == old(pos) + cc && (eof <==> cc == 0) && (fiov == [] <==> cc == 0)
    {
      if cc == 0 {
        eof := true;
      }
      var bytes := file[pos..pos + cc];
      fiov := SplitPackets(bytes);
      pos := pos + cc;
      assert file[..pos] == file[..old(pos)] + bytes;
      assert |fiov| <= quantum;
    }

    /** Send whatever is pending: buffered packets, or an empty packet with the EOF mark. */
    method SendPending() returns (did: bool)
      requires Valid()
      modifies `fiov, `senteof, `data, `sent
      ensures Valid()
      ensures did <==> !waitforprinter && !old(senteof) && old(data) && (old(fiov) != [] || eof)
      ensures if did then |sent| == |old(sent)| + 1 && old(sent) <= sent && !data && fiov == []
                          && Concat(sent[|old(sent)|].packets) == Concat(old(fiov))
              else sent == old(sent) && fiov == old(fiov) && data == old(data)
      ensures senteof == if did then eof else old(senteof)
    {
      did := !waitforprinter && !senteof && data && (fiov != [] || eof);
      if !did {
        return;
      }
      var packets := if fiov != [] then fiov else [[]];
      senteof := eof;
      EmptyPacket();
      ghost var before := sent;
      sent := sent + [Response(packets, eof)];
      assert sent[..|before|] == before;
      assert Payload(sent) == Payload(before) + Concat(packets);
      data, fiov := false, [];
    }

    /** What readv returns with `ready` bytes at hand: nothing at the end, and otherwise at least one byte. */
    function Readv(ready: nat): (cc: nat)
      requires 1 <= quantum && pos <= |file|
      reads `pos
      ensures cc <= quantum * PAP_MAXDATA && pos + cc <= |file| && (cc == 0 <==> pos == |file|)
    {
      Min(Min(Max(ready, 1), quantum * PAP_MAXDATA), |file| - pos)
    }

    /** One pass of the loop of send_file. */
    method Step(p: Pass)
      requires Valid()
      modifies this
      ensures Valid() && old(sent) <= sent && |sent| <= |old(sent)| + 1
      ensures requests == old(requests) + if p.read then 1 else 0
      ensures |sent| == |old(sent)| + 1 <==>
                && !old(waitforprinter) && !old(senteof) && (old(data) || p.read)
                && (old(fiov) != [] || old(eof) || p.readable.Some?)
      ensures data == (|sent| == |old(sent)| && (old(data) || p.read))
      ensures waitforprinter == (old(waitforprinter) && !p.printerReady)
      ensures p.readable.Some? && p.read && !old(waitforprinter) && !old(senteof) ==>
                senteof || (fiov == [] && !eof && pos >= old(pos) + if old(fiov) == [] then 1 else 0)
      ensures pos >= old(pos) && (old(senteof) ==> senteof)
    {
      hide Payload, Concat, Readv;
      if !waitforprinter && !eof && fiov == [] && p.readable.Some? {
        ReadFile(Readv(p.readable.value));
      }
      if p.read {
        TakeRequest();
      }
      var did := SendPending();
      if !did && p.printerReady {
        StopWaiting();
      }
    }

    method TakeRequest()
      requires Valid()
      modifies `data, `requests
      ensures Valid() && data && requests == old(requests) + 1
    {
      hide Payload;
      data := true;
      requests := requests + 1;
    }

    method StopWaiting()
      requires Valid()
      modifies `waitforprinter
      ensures Valid() && !waitforprinter
    {
      waitforprinter := false;
    }

    /** Every sequence of passes; with a willing printer the whole file and its end mark go out. */
    method Run(passes: seq<Pass>)
      requires Valid()
      modifies this
      ensures Valid() && old(sent) <= sent
      ensures Payload(sent) <= file && |sent| <= requests
      ensures forall i :: 0 <= i < |sent| ==> |sent[i].packets| <= quantum
      ensures forall i :: 0 <= i < |sent| && sent[i].eof ==> i == |sent| - 1 && Payload(sent) == file
      ensures !old(waitforprinter) && Willing(passes) && |passes| > |file| - old(pos) + 1 ==>
                sent != [] && sent[|sent| - 1].eof && Payload(sent) == file
    {
      hide Valid, Payload;
      PosInFile();
      for i := 0 to |passes|
        invariant Valid() && old(sent) <= sent && old(pos) <= pos <= |file|
        invariant !old(waitforprinter) ==> !waitforprinter
        invariant !old(waitforprinter) && Willing(passes) && i > 0 ==>
                    senteof || (fiov == [] && !eof && pos >= old(pos) + i - 1)
      {
        Step(passes[i]);
        PosInFile();
      }
      Safety();
    }

    lemma PosInFile()
      requires Valid()
      ensures pos <= |file|
    {
    }

    /** What every run keeps: the printer gets a prefix of the file, and the end mark once and at the end. */
    lemma Safety()
      requires Valid()
      ensures Payload(sent) <= file && |sent| <= requests
      ensures forall i :: 0 <= i < |sent| ==> |sent[i].packets| <= quantum
      ensures forall i :: 0 <= i < |sent| && sent[i].eof ==> i == |sent| - 1 && Payload(sent) == file
      ensures senteof ==> sent != [] && sent[|sent| - 1].eof
    {
      assert Payload(sent) == file[..pos][..|Payload(sent)|];
      assert file[..|file|] == file;
    }
  }

  /** A file and a printer that are always ready. */
  predicate Willing(passes: seq<Pass>) {
    forall i :: 0 <= i < |passes| ==> passes[i].readable.Some? && passes[i].read
  }

  lemma EmptyPacket()
    ensures Concat<byte>([[]]) == [] && Concat<byte>([]) == []
  {
    var none: seq<seq<byte>> := [[]];
    assert none[1..] == [];
  }

  /** The lengths that send_file gives its I/O vectors. */
  method SplitPackets(bytes: seq<byte>) returns (packets: seq<seq<byte>>)
    ensures Concat(packets) == bytes
    ensures |packets| == |bytes| / 512 + (if |bytes| % 512 > 0 then 1 else 0)
    ensures forall i :: 0 <= i < |packets| ==> 0 < |packets[i]| <= 512
  {
    packets := [];
    var at := 0;
    while at < |bytes|
      invariant at <= |bytes| && Concat(packets) == bytes[..at]
      invariant forall i :: 0 <= i < |packets| ==> 0 < |packets[i]| <= PAP_MAXDATA
      invariant at == |packets| * PAP_MAXDATA
                || (at == |bytes| && |packets| > 0 && (|packets| - 1) * PAP_MAXDATA < at < |packets| * PAP_MAXDATA)
    {
      var n := if |bytes| - at > PAP_MAXDATA then PAP_MAXDATA else |bytes| - at;
      ConcatAppend(packets, bytes[at..at + n]);
      packets := packets + [bytes[at..at + n]];
      at := at + n;
    }
    assert bytes[..at] == bytes;
  }
}
