/**
 The byte stream behind BinHex text, as a reader sees it that asks for bytes in portions.
 The terminator pads the last group with zeros. Bytes of that group reach the request that
 runs into it, and the next request finds the end flag set and gets nothing.
 */
module HqxStream {
  import opened Bytes
  import opened HqxFormat

  /**
   `rest` is every byte still to come, the padded group included. The first `sure` of them come
   from whole groups, so requests within them leave the stream open.
   */
  datatype Stream = Open(rest: seq<byte>, sure: nat) | Ended

  predicate WellFormed(st: Stream) {
    st.Open? ==> st.sure <= |st.rest|
  }

  function Given(st: Stream, n: nat): (out: seq<byte>)
    ensures |out| <= n
  {
    if st.Ended? then [] else if n <= |st.rest| then st.rest[..n] else st.rest
  }

  function After(st: Stream, n: nat): (st': Stream)
    requires WellFormed(st)
    ensures WellFormed(st')
  {
    if st.Open? && n <= st.sure then Open(st.rest[n..], st.sure - n) else Ended
  }

  /** What a sequence of requests returns altogether. */
  function GivenAll(st: Stream, ns: seq<nat>): (out: seq<byte>)
    requires WellFormed(st)
    decreases |ns|
  {
    if ns == [] then [] else Given(st, ns[0]) + GivenAll(After(st, ns[0]), ns[1..])
  }

  function Sum(ns: seq<nat>): (n: nat) {
    if ns == [] then 0 else ns[0] + Sum(ns[1..])
  }

  /** Requests that together stay within the whole groups get the same bytes however they are split. */
  lemma {:induction false} SplitsAgree(st: Stream, ns: seq<nat>)
    requires WellFormed(st) && st.Open? && Sum(ns) <= st.sure
    ensures GivenAll(st, ns) == st.rest[..Sum(ns)]
    decreases |ns|
  {
    if ns != [] {
      SplitsAgree(After(st, ns[0]), ns[1..]);
      assert st.rest[..Sum(ns)] == st.rest[..ns[0]] + st.rest[ns[0]..][..Sum(ns[1..])];
    }
  }

  /** In every case the bytes are a prefix of the stream, and all of the whole groups once enough is asked for. */
  lemma {:induction false} SplitsArePrefix(st: Stream, ns: seq<nat>)
    requires WellFormed(st) && st.Open?
    ensures GivenAll(st, ns) <= st.rest
    ensures |GivenAll(st, ns)| >= Min(Sum(ns), st.sure)
    decreases |ns|
  {
    if ns != [] {
      if ns[0] <= st.sure {
        SplitsArePrefix(After(st, ns[0]), ns[1..]);
        assert st.rest == st.rest[..ns[0]] + st.rest[ns[0]..];
      } else {
        NothingAfterEnd(ns[1..]);
      }
    }
  }

  lemma {:induction false} NothingAfterEnd(ns: seq<nat>)
    ensures GivenAll(Ended, ns) == []
  {
    if ns != [] {
      NothingAfterEnd(ns[1..]);
    }
  }

  // ---- The stream of a decoder state

  /** The packed bytes of the whole groups. */
  function Whole(s: seq<six>): (p: seq<byte>) {
    if |s| >= 4 then Unpack(s[..4]) + Whole(s[4..]) else []
  }

  lemma {:induction false} WholeIsPrefix(s: seq<six>)
    ensures Whole(s) <= Unsix(s) && |Unsix(s)| == |Whole(s)| + 3
  {
    hide Unpack;
    if |s| >= 4 {
      WholeIsPrefix(s[4..]);
      assert Whole(s) == Unpack(s[..4]) + Whole(s[4..]);
    }
  }

  /** The stream of a decoder that holds `pending` unpacked bytes in front of the six-bit values `s`. */
  ghost function StreamOf(pending: seq<byte>, s: seq<six>, marked: bool, last: byte): (st: Stream)
    ensures WellFormed(st) && st.Open?
  {
    SureIsWithinRest(pending, s, marked, last);
    Open(Expand(pending + Unsix(s), marked, last), |Expand(pending + Whole(s), marked, last)|)
  }

  lemma SureIsWithinRest(pending: seq<byte>, s: seq<six>, marked: bool, last: byte)
    ensures Expand(pending + Whole(s), marked, last) <= Expand(pending + Unsix(s), marked, last)
  {
    hide Expand, Unsix, Whole;
    WholeIsPrefix(s);
    var q := Unsix(s)[|Whole(s)|..];
    assert pending + Unsix(s) == (pending + Whole(s)) + q;
    ExpandAppend(pending + Whole(s), q, marked, last);
  }

  // ---- The stream of encoded text

  /** Cutting k packed bytes off an escaped message costs at most k of its bytes. */
  lemma {:induction false} CutEscape(bs: seq<byte>, k: nat, last: byte)
    requires k <= |Escape(bs)|
    ensures |Expand(Escape(bs)[..|Escape(bs)| - k], false, last)| + k >= |bs|
  {
    if bs != [] {
      var b, tail := bs[0], Escape(bs[1..]);
      var p := Escape(bs);
      var cut := p[..|p| - k];
      if k <= |tail| {
        CutEscape(bs[1..], k, b);
        var tcut := tail[..|tail| - k];
        assert cut == EscapeByte(b) + tcut;
        if b == RUNCHAR {
          assert cut[1..] == [0] + tcut && ([0] + tcut)[1..] == tcut;
        } else {
          assert cut[1..] == tcut;
        }
      } else {
        EscapeNotShorter(bs[1..]);
      }
    }
  }

  lemma {:induction false} EscapeNotShorter(bs: seq<byte>)
    ensures |Escape(bs)| >= |bs|
  {
    if bs != [] {
      EscapeNotShorter(bs[1..]);
    }
  }

  /** The stream of an encoded payload: the payload and then padding, open at least up to its last two bytes. */
  lemma EncodedStream(payload: seq<byte>)
    ensures var st := StreamOf([], SixBits(Escape(payload)), false, 0);
            payload <= st.rest && st.sure + 2 >= |payload|
  {
    hide Pack, Unpack, Group, SixBits, Unsix, Whole, Escape, EscapeByte, Expand;
    var p := Escape(payload);
    var s := SixBits(p);
    var pad := UnsixSixBits(p);
    WholeIsPrefix(s);
    assert [] + Unsix(s) == p + Repeat(0, pad);
    ExpandEscape(payload, Repeat(0, pad), 0);
    var k := 3 - pad;
    assert [] + Whole(s) == p[..|p| - k];
    CutEscape(payload, k, 0);
  }
}
