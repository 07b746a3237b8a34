/** CAP-style host names of Mac files: the escapes of bin/nad/nad_adouble.c. */
module Cap {
  import opened Bytes

  const DOT: byte := 0x2e

  predicate IsPrint(c: byte) {
    0x20 <= c <= 0x7e
  }

  /** cap_hexval: -1 for a character that is not a lowercase hex digit. */
  function HexVal(c: byte): (v: int) {
    if 0x30 <= c <= 0x39 then c - 0x30
    else if 0x61 <= c <= 0x66 then c - 0x61 + 10
    else -1
  }

  function HexDigit(v: int): (c: byte)
    requires 0 <= v < 16
    ensures HexVal(c) == v
  {
    if v < 10 then 0x30 + v else 0x61 + v - 10
  }

  /** Whether a name spells an escape at this place. */
  predicate EscapeAt(u: seq<byte>, i: nat) {
    i + 2 < |u| && u[i] == COLON && HexVal(u[i + 1]) >= 0 && HexVal(u[i + 2]) >= 0
  }

  predicate SpellsEscape(name: seq<byte>) {
    exists i :: 0 <= i < |name| && EscapeAt(name, i)
  }

  predicate NeedsEscape(c: byte, first: bool) {
    !IsPrint(c) || c == SLASH || (first && c == DOT)
  }

  function Unit(c: byte, first: bool): (u: seq<byte>)
    ensures 1 <= |u| <= 3
  {
    if NeedsEscape(c, first) then [COLON, HexDigit(c / 16), HexDigit(c % 16)] else [c]
  }

  /** A printable byte stands for itself; a slash, a leading dot and any other byte become a colon and two digits. */
  lemma UnitSpelling(c: byte, first: bool)
    ensures Unit(c, first) ==
            if ' ' as int <= c <= '~' as int && c != '/' as int && !(first && c == '.' as int) then [c]
            else [':' as int, "0123456789abcdef"[c / 16] as int, "0123456789abcdef"[c % 16] as int]
  {
    HexSpelling(c / 16);
    HexSpelling(c % 16);
  }

  lemma HexSpelling(v: int)
    requires 0 <= v < 16
    ensures HexDigit(v) == "0123456789abcdef"[v] as int
  {
  }

  /** The host name of a Mac name, or of the rest of one. */
  function Escaped(m: seq<byte>, first: bool := true): (u: seq<byte>) {
    if m == [] then [] else Unit(m[0], first) + Escaped(m[1..], false)
  }

  function Unescaped(u: seq<byte>): (m: seq<byte>)
    ensures |m| <= |u|
  {
    if u == [] then []
    else if EscapeAt(u, 0) then [16 * HexVal(u[1]) + HexVal(u[2])] + Unescaped(u[3..])
    else [u[0]] + Unescaped(u[1..])
  }

  lemma EscapedNothing()
    ensures Escaped([]) == []
  {
  }

  lemma {:induction false} EscapedAppend(m: seq<byte>, c: byte, first: bool)
    ensures Escaped(m + [c], first) == Escaped(m, first) + Unit(c, first && m == [])
  {
    if m != [] {
      assert (m + [c])[1..] == m[1..] + [c];
      EscapedAppend(m[1..], c, false);
    } else {
      assert (m + [c])[1..] == [];
    }
  }

  /** An encoded name is one visible component of a host path: no slash, no control byte, no leading dot. */
  lemma {:induction false} EscapedIsHostName(m: seq<byte>, first: bool)
    ensures forall c :: c in Escaped(m, first) ==> 0x20 <= c <= 0x7e && c != 47
    ensures first && m != [] ==> Escaped(m, first) != [] && Escaped(m, first)[0] != 46
  {
    if m != [] {
      EscapedIsHostName(m[1..], false);
      assert forall c :: c in Unit(m[0], first) ==> IsPrint(c) && c != SLASH;
    }
  }

  lemma NoEscapeInRest(m: seq<byte>)
    requires m != [] && !SpellsEscape(m)
    ensures !SpellsEscape(m[1..])
  {
    if SpellsEscape(m[1..]) {
      var i :| 0 <= i < |m[1..]| && EscapeAt(m[1..], i);
      assert EscapeAt(m, i + 1);
    }
  }

  lemma ColonIsNoDigit()
    ensures HexVal(COLON) < 0 && forall c: byte, first: bool :: HexVal(c) >= 0 ==> !NeedsEscape(c, first)
  {
  }

  lemma UnitAtFront(m: seq<byte>)
    requires m != []
    ensures Escaped(m, false) != [] && Escaped(m, false)[0] == if NeedsEscape(m[0], false) then COLON else m[0]
  {
  }

  /** A byte that is left alone starts an escape in the host name only if it does in the Mac name. */
  lemma SameEscapeAtFront(m: seq<byte>, first: bool)
    requires m != [] && !NeedsEscape(m[0], first)
    ensures EscapeAt(Escaped(m, first), 0) <==> EscapeAt(m, 0)
  {
    hide HexVal, HexDigit;
    var rest := m[1..];
    assert Escaped(m, first) == [m[0]] + Escaped(rest, false);
    if m[0] == COLON && rest != [] {
      UnitAtFront(rest);
      if !NeedsEscape(rest[0], false) && |rest| > 1 {
        assert Escaped(rest, false) == [rest[0]] + Escaped(rest[1..], false);
        UnitAtFront(rest[1..]);
      }
      ColonIsNoDigit();
    }
  }

  lemma {:induction false} PlainNameRoundTrips(m: seq<byte>, first: bool)
    requires !SpellsEscape(m)
    ensures Unescaped(Escaped(m, first)) == m
  {
    if m != [] {
      NoEscapeInRest(m);
      PlainNameRoundTrips(m[1..], false);
      var u := Escaped(m, first);
      if NeedsEscape(m[0], first) {
        assert u[3..] == Escaped(m[1..], false) && EscapeAt(u, 0);
      } else {
        assert !EscapeAt(m, 0);
        SameEscapeAtFront(m, first);
        assert u[1..] == Escaped(m[1..], false);
      }
    }
  }

  lemma SpelledEscapeIsCopied(m: seq<byte>, first: bool)
    requires EscapeAt(m, 0)
    ensures |Escaped(m, first)| >= 3 && Escaped(m, first)[3..] == Escaped(m[3..], false)
  {
    assert m[1..][1..][1..] == m[3..];
    assert Escaped(m[1..], false) == [m[1]] + Escaped(m[1..][1..], false);
    assert Escaped(m[1..][1..], false) == [m[2]] + Escaped(m[1..][1..][1..], false);
    assert Escaped(m, first) == [m[0], m[1], m[2]] + Escaped(m[3..], false);
  }

  /** Decoding never makes a name longer, and an escape that the name spells makes it shorter. */
  lemma {:induction false} DecodedLength(m: seq<byte>, first: bool)
    ensures |Unescaped(Escaped(m, first))| <= |m|
    ensures SpellsEscape(m) ==> |Unescaped(Escaped(m, first))| < |m|
    decreases |m|
  {
    if m != [] {
      var u := Escaped(m, first);
      if NeedsEscape(m[0], first) {
        assert u[3..] == Escaped(m[1..], false) && EscapeAt(u, 0);
        EscapeIsLater(m);
        DecodedLength(m[1..], false);
      } else {
        SameEscapeAtFront(m, first);
        assert u[1..] == Escaped(m[1..], false);
        if EscapeAt(m, 0) {
          SpelledEscapeIsCopied(m, first);
          DecodedLength(m[3..], false);
        } else {
          EscapeIsLater(m);
          DecodedLength(m[1..], false);
        }
      }
    }
  }

  lemma EscapeIsLater(m: seq<byte>)
    requires m != [] && !EscapeAt(m, 0)
    ensures SpellsEscape(m) ==> SpellsEscape(m[1..])
  {
    if SpellsEscape(m) {
      var i :| 0 <= i < |m| && EscapeAt(m, i);
      assert EscapeAt(m[1..], i - 1);
    }
  }

  /** A Mac name comes back from its host name exactly if it spells no escape itself. */
  lemma RoundTrip(m: seq<byte>)
    requires NUL !in m
    ensures CString(Unescaped(Escaped(m))) == m <==> !SpellsEscape(m)
  {
    if SpellsEscape(m) {
      DecodedLength(m, true);
    } else {
      PlainNameRoundTrips(m, true);
      CStringWhole(m);
    }
  }

  /** A name that does: it shares its host name with another, which is the one that comes back. */
  lemma ColonNameIsLost()
    ensures Escaped([COLON, 0x32, 0x66]) == Escaped([SLASH])
    ensures Unescaped(Escaped([COLON, 0x32, 0x66])) == [SLASH]
  {
    var m := [COLON, 0x32, 0x66];
    assert m[1..] == [0x32, 0x66] && m[1..][1..] == [0x66] && m[1..][1..][1..] == [];
    assert Escaped([0x66], false) == [0x66];
    assert Escaped([0x32, 0x66], false) == [0x32, 0x66];
    assert Escaped(m) == m;
    PlainNameRoundTrips([SLASH], true);
  }

  /** mtoupathcap into its static buffer; a name that does not fit ends early. */
  method MtouPathCap(m: seq<byte>, buf: array<byte>) returns (n: nat, ghost k: nat)
    requires NUL !in m && buf.Length >= 4
    modifies buf
    ensures n < buf.Length && buf[n] == NUL && k <= |m| && buf[..n] == Escaped(m[..k])
    ensures k < |m| ==> n >= buf.Length - 4
    ensures forall j: nat :: j < k ==> |Escaped(m[..j])| < buf.Length - 4
  {
    hide Escaped;
    var i, umax := 0, buf.Length - 4;
    n := 0;
    EscapedNothing();
    while i < |m| && n < umax
      invariant i <= |m| && n <= umax + 2 && buf[..n] == Escaped(m[..i])
      invariant forall j: nat :: j < i ==> |Escaped(m[..j])| < umax
    {
      assert m[..i + 1] == m[..i] + [m[i]];
      EscapedAppend(m[..i], m[i], true);
      if !IsPrint(m[i]) || m[i] == SLASH || (i == 0 && m[i] == DOT) {
        buf[n], buf[n + 1], buf[n + 2] := COLON, HexDigit(m[i] / 16), HexDigit(m[i] % 16);
        n := n + 3;
      } else {
        buf[n] := m[i];
        n := n + 1;
      }
      i := i + 1;
    }
    buf[n] := NUL;
    k := i;
  }

  lemma UnescapedStep(u: seq<byte>, i: nat)
    requires i < |u|
    ensures Unescaped(u[i..]) == if EscapeAt(u, i)
                                 then [16 * HexVal(u[i + 1]) + HexVal(u[i + 2])] + Unescaped(u[i + 3..])
                                 else [u[i]] + Unescaped(u[i + 1..])
  {
    assert EscapeAt(u[i..], 0) == EscapeAt(u, i);
    assert u[i..][1..] == u[i + 1..];
    if EscapeAt(u, i) {
      assert u[i..][3..] == u[i + 3..];
    }
  }

  lemma UnescapedNothing()
    ensures Unescaped([]) == []
  {
  }

  /** utompathcap; the source's buffer has room for any path the system passes. */
  method UtomPathCap(u: seq<byte>, buf: array<byte>) returns (n: nat)
    requires NUL !in u && |u| < buf.Length
    modifies buf
    ensures n < buf.Length && buf[n] == NUL && buf[..n] == Unescaped(u)
  {
    hide Unescaped;
    var i := 0;
    n := 0;
    assert u[0..] == u;
    while i < |u|
      invariant i <= |u| && n <= i
      invariant Unescaped(u) == buf[..n] + Unescaped(u[i..])
    {
      UnescapedStep(u, i);
      ghost var before := buf[..n];
      if u[i] == COLON && i + 2 < |u| && HexVal(u[i + 1]) >= 0 && HexVal(u[i + 2]) >= 0 {
        buf[n] := 16 * HexVal(u[i + 1]) + HexVal(u[i + 2]);
        i := i + 2;
      } else {
        buf[n] := u[i];
      }
      i := i + 1;
      n := n + 1;
      assert buf[..n] == before + [buf[n - 1]];
    }
    buf[n] := NUL;
    assert u[i..] == [];
    UnescapedNothing();
  }

  /** Every part of the name still leaves room for the next byte. */
  ghost predicate FitsIn(m: seq<byte>, size: int) {
    forall j: nat :: j < |m| ==> |Escaped(m[..j])| < size - 4
  }

  /** Through both buffers: a name that fits comes back exactly if it spells no escape. */
  method BothWays(m: seq<byte>, size: nat) returns (r: seq<byte>)
    requires NUL !in m && size >= 4
    ensures FitsIn(m, size) ==> (r == m <==> !SpellsEscape(m))
  {
    hide Escaped, Unescaped;
    var host, mac := new byte[size], new byte[size];
    var n, k := MtouPathCap(m, host);
    EscapedIsHostName(m[..k], true);
    var u := host[..n];
    assert NUL !in u;
    var l := UtomPathCap(u, mac);
    r := CString(mac[..l]);
    if FitsIn(m, size) {
      assert k == |m| && m[..k] == m;
      RoundTrip(m);
    }
  }
}
