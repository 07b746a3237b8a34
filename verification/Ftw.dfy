/**
 The tree walker of bin/nad/ftw.c. It keeps at most `maxdir` directory streams open, in a ring.
 When the ring is full, the oldest stream gives up its descriptor, and the names it still had to
 deliver go into a list.
 */
module Ftw {
  import opened Bytes
  import opened FtwSpec

  /** struct dir_data: an open stream, or the list that replaced it. */
  class DirData {
    var stream: Option<seq<Entry>>  // what readdir has still to deliver
    var content: seq<byte>

    ghost var rest: seq<Entry>  // the entries behind the last one that was read or listed

    ghost predicate Open()
      reads this
    {
      stream == Some(rest) && content == []
    }

    ghost predicate Listed()
      reads this
    {
      stream == None && content == NameList(rest)
    }

    constructor ()
      ensures stream == None && content == []
    {
      stream, content, rest := None, [], [];
    }
  }

  class Walker {
    const cfg: Config
    const maxdir: nat
    var dirstreams: seq<DirData?>
    var actdir: nat
    var dirbuf: Path
    var level: int
    var base: nat
    var trace: seq<Event>

    ghost var stack: seq<DirData>  // the directories being walked, the start first
    ghost var nopen: nat           // how many of the innermost have an open stream
    ghost var lossy: bool          // some list could not hold all its names

    /** How many streams were opened after the one in this slot. */
    function Age(slot: nat): (age: nat)
      requires actdir < maxdir && slot < maxdir
      reads `actdir
      ensures age < maxdir
    {
      if slot < actdir then actdir - 1 - slot else actdir - 1 - slot + maxdir
    }

    /** The open streams are those of the innermost directories, and they fill the slots just before actdir. */
    ghost predicate Ring()
      reads `dirstreams, `actdir, `stack, `nopen
    {
      && |dirstreams| == maxdir && actdir < maxdir && nopen <= maxdir && nopen <= |stack|
      && forall i :: 0 <= i < maxdir ==>
           dirstreams[i] == if Age(i) < nopen then stack[|stack| - 1 - Age(i)] else null
    }

    ghost predicate Frames()
      requires nopen <= |stack|
      reads `stack, `nopen, stack
    {
      FramesAs(nopen)
    }

    /** The innermost `n` directories have a stream, and the others a list. */
    ghost predicate FramesAs(n: nat)
      requires n <= |stack|
      reads `stack, stack
    {
      && (forall i, j :: 0 <= i < j < |stack| ==> stack[i] != stack[j])
      && (forall k :: 0 <= k < |stack| - n ==> stack[k].Listed())
      && (forall k :: |stack| - n <= k < |stack| ==> stack[k].Open())
      && (forall k :: 0 <= k < |stack| ==> ValidNames(stack[k].rest))
    }

    ghost predicate Valid()
      reads `dirstreams, `actdir, `stack, `nopen, stack
    {
      Ring() && Frames()
    }

    /** The entries that each directory has still to deliver. */
    ghost function Rests(): (r: seq<seq<Entry>>)
      reads `stack, stack`rest
      ensures |r| == |stack|
    {
      RestsOf(stack)
    }

    /** Each open stream of the first `top` directories that a walk of this object would close has a list it fits. */
    ghost predicate Room(node: Node, top: nat)
      reads `stack, `nopen, stack`rest
    {
      HasRoom(Rests(), nopen, maxdir, node, top)
    }

    /** What keeps a walk of this object from losing names. */
    ghost predicate Safe(node: Node, top: nat)
      reads `stack, `nopen, stack`rest, `lossy
    {
      !lossy && ValidTree(node, maxdir) && Room(node, top)
    }

    /** The same for an entry of the innermost directory. */
    lemma RoomForEntry(node: Node, k: nat)
      requires node.Dir? && node.access.Readable? && ValidTree(node, maxdir) && k < |node.entries|
      requires stack != [] && Room(node, |stack| - 1) && !IsDots(node.entries[k].name)
      requires nopen > 0 ==> stack[|stack| - 1].rest == node.entries[k + 1..]
      ensures Room(node.entries[k].node, |stack|)
    {
      hide Fits;
      var e := node.entries[k];
      assert e in node.entries;
      forall j | 0 <= j < |stack| && |stack| - nopen <= j && Reaches(e.node, maxdir - |stack| + j + 1)
        ensures Fits(Rests()[j])
      {
        if j < |stack| - 1 {
          assert EntryReaches(node.entries, maxdir - |stack| + j + 1);
        } else {
          RestAt(stack, j);
        }
      }
    }

    lemma NoRoomNeeded(node: Node, top: nat)
      requires nopen == 0 && top <= |stack|
      ensures Room(node, top)
    {
    }

    constructor (cfg: Config, maxdir: nat, dirbuf: Path, base: nat)
      requires maxdir > 0
      ensures Valid() && this.cfg == cfg && this.maxdir == maxdir && this.dirbuf == dirbuf && this.base == base
      ensures level == 0 && trace == [] && stack == [] && !lossy
    {
      this.cfg, this.maxdir, this.dirbuf, this.base := cfg, maxdir, dirbuf, base;
      dirstreams, actdir := seq(maxdir, _ => null), 0;
      level, trace, stack, nopen, lossy := 0, [], [], 0, false;
    }

    /** The callback, and the answer it gives. */
    method Report(flag: Flag) returns (result: int)
      modifies `trace
      ensures FtwSpec.Report(cfg, Call(dirbuf, flag, level, base), old(trace)) == Outcome(result, trace)
    {
      trace := trace + [Call(dirbuf, flag, level, base)];
      result := cfg.answer(trace);
    }

    /**
     The spill loop of open_dir_stream: the remaining names of a stream as one list. It cuts names at 255
     bytes and drops names beyond 1 MiB, so the list is complete exactly when neither happens.
     */
    method ListRest(st: seq<Entry>) returns (buf: seq<byte>, ghost listed: seq<Entry>)
      requires ValidNames(st)
      ensures |buf| <= MAX_BUFFER_SIZE && buf == NameList(listed) && ValidNames(listed)
      ensures buf == NameList(st) <==> Fits(st)
      ensures Fits(st) ==> listed == st
    {
      hide ValidName;
      var bufsize := 1024;
      buf, listed := [], [];
      for i := 0 to |st|
        invariant |buf| + 1 <= bufsize && 1024 <= bufsize <= MAX_BUFFER_SIZE
        invariant buf == Names(listed) && ValidNames(listed)
        invariant Fits(st[..i]) ==> listed == st[..i]
        invariant !Fits(st[..i]) ==> |buf| < |Names(st[..i])|
      {
        NamesGrow(st, i);
        var thisLen := Min(|st[i].name|, MAX_FILENAME_LEN);
        if |buf| > bufsize - thisLen - 2 {
          var newBufsize := if bufsize > MAX_BUFFER_SIZE / 2 then MAX_BUFFER_SIZE
                            else bufsize + Min(Max(1024, 2 * thisLen), MAX_BUFFER_SIZE - bufsize);
          if |buf| > newBufsize - thisLen - 2 {
            continue;
          }
          bufsize := newBufsize;
        }
        buf := buf + st[i].name[..thisLen] + [NUL];
        ghost var e := st[i].(name := st[i].name[..thisLen]);
        OneMoreName(listed, e);
        CutName(st[i]);
        assert thisLen == |st[i].name| ==> st[i].name[..thisLen] == st[i].name;
        assert st[..i + 1] == st[..i] + [st[i]];
        listed := listed + [e];
      }
      assert st[..|st|] == st;
      buf := buf + [NUL];
    }

    /** The next slot holds a stream: it is the oldest one, and its names go into a list. */
    method CloseOldest()
      requires Valid() && dirstreams[actdir] != null
      modifies `dirstreams, `nopen, `lossy, stack
      ensures Valid() && nopen == old(nopen) - 1 && dirstreams[actdir] == null && old(nopen) <= |stack|
      ensures lossy <==> old(lossy) || !Fits(old(Rests())[|stack| - old(nopen)])
      ensures Kept(old(Rests()), old(nopen), Rests(), nopen, lossy, |stack|)
    {
      hide RestsOf, Fits, FramesAs;
      FullRing();
      var d := dirstreams[actdir];
      ghost var j := |stack| - nopen;
      assert d == stack[j] by {
        assert Age(actdir) == maxdir - 1;
      }
      Spill(d, j);
      dirstreams := dirstreams[actdir := null];
      nopen := nopen - 1;
    }

    /** The names of the stream go into a list; the directory is the first of those with a stream. */
    method Spill(d: DirData, ghost j: nat)
      requires nopen > 0 && nopen <= |stack| && j == |stack| - nopen && stack[j] == d && Frames()
      modifies `lossy, d
      ensures lossy <==> old(lossy) || !Fits(old(Rests())[j])
      ensures Kept(old(Rests()), nopen, Rests(), nopen - 1, lossy, |stack|)
      ensures FramesAs(nopen - 1)
    {
      hide RestsOf, Fits, ValidNames, DirData.Open, DirData.Listed;
      RestsAll(stack);
      lossy := lossy || !Fits(d.rest);
      TurnToList(d);
      RestsAll(stack);
    }

    method TurnToList(d: DirData)
      requires d.Open() && ValidNames(d.rest)
      modifies d
      ensures d.Listed() && ValidNames(d.rest) && (Fits(old(d.rest)) ==> d.rest == old(d.rest))
    {
      hide Fits, NameList, ValidNames;
      ghost var listed;
      d.content, listed := ListRest(d.stream.value);
      d.stream, d.rest := None, listed;
    }

    lemma FullRing()
      requires Valid() && dirstreams[actdir] != null
      ensures nopen == maxdir <= |stack|
    {
      assert Age(actdir) == maxdir - 1;
    }

    /** The first part of open_dir_stream: the next slot is free, at the cost of the oldest stream if need be. */
    method MakeSlot(node: Node, ghost safe: bool)
      requires Valid() && node.Dir? && (safe ==> !lossy && Room(node, |stack|))
      modifies `dirstreams, `nopen, `lossy, stack
      ensures Valid() && dirstreams[actdir] == null && (old(lossy) ==> lossy) && (safe ==> !lossy)
      ensures Kept(old(Rests()), old(nopen), Rests(), nopen, lossy, |stack|)
    {
      hide Fits, Frames;
      if dirstreams[actdir] != null {
        FullRing();
        assert Reaches(node, 1);
        CloseOldest();
      }
    }

    method OpenDirStream(node: Node, dirp: DirData, ghost safe: bool) returns (ok: bool)
      requires Valid() && node.Dir? && dirp !in stack && (node.access.Readable? ==> ValidNames(node.entries))
      requires safe ==> !lossy && Room(node, |stack|)
      modifies `dirstreams, `actdir, `stack, `nopen, `lossy, stack, dirp
      ensures Valid() && (old(lossy) ==> lossy) && (safe ==> !lossy)
      ensures ok <==> node.access.Readable?
      ensures stack == if ok then old(stack) + [dirp] else old(stack)
      ensures ok ==> nopen > 0 && dirp.rest == node.entries && (safe ==> Room(node, |stack| - 1))
      ensures var n := |old(stack)|;
              Kept(old(Rests()), old(nopen), Rests()[..n], if ok then nopen - 1 else nopen, lossy, n)
    {
      hide HasRoom, Frames, DirData.Open, Kept;
      ghost var was, wasOpen := Rests(), nopen;
      MakeSlot(node, safe);
      if !node.access.Readable? {
        assert Rests()[..|stack|] == Rests();
        return false;
      }
      ghost var now, nowOpen := Rests(), nopen;
      OpenStream(dirp, node.entries);
      PushSlot(dirp);
      assert Rests()[..|now|] == now;
      if safe {
        KeptEqual(was, wasOpen, now, nowOpen, |was|);
        RoomKept(was, wasOpen, Rests(), nopen, maxdir, node, |was|);
      }
      ok := true;
    }

    /** opendir: the stream delivers all entries. */
    method OpenStream(dirp: DirData, entries: seq<Entry>)
      requires Valid() && dirp !in stack
      modifies dirp
      ensures Valid() && dirp.Open() && dirp.rest == entries
    {
      hide Ring;
      dirp.stream, dirp.content, dirp.rest := Some(entries), [], entries;
    }

    /** The stream takes the free slot, and actdir moves on. */
    method PushSlot(dirp: DirData)
      requires Valid() && dirp !in stack && dirstreams[actdir] == null && dirp.Open() && ValidNames(dirp.rest)
      modifies `dirstreams, `actdir, `stack, `nopen
      ensures Valid() && stack == old(stack) + [dirp] && nopen == old(nopen) + 1
      ensures Rests() == old(Rests()) + [dirp.rest]
    {
      hide RestsOf, Fits, ValidNames, DirData.Open, DirData.Listed;
      assert Age(actdir) == maxdir - 1;
      assert nopen < maxdir;
      dirstreams := dirstreams[actdir := dirp];
      actdir := actdir + 1;
      if actdir == maxdir {
        actdir := 0;
      }
      RestsMore(stack, dirp);
      stack, nopen := stack + [dirp], nopen + 1;
      assert Ring();
    }

    /** The innermost stream closes, and actdir moves back to its slot. */
    method PopSlot()
      requires Valid() && nopen > 0
      modifies `dirstreams, `actdir, `stack, `nopen
      ensures Valid() && stack == old(stack)[..|old(stack)| - 1] && nopen == old(nopen) - 1
      ensures Rests() == old(Rests())[..|stack|]
    {
      hide RestsOf, Fits, ValidNames, DirData.Open, DirData.Listed;
      RestsFewer(stack);
      if actdir == 0 {
        actdir := maxdir - 1;
      } else {
        actdir := actdir - 1;
      }
      dirstreams := dirstreams[actdir := null];
      stack, nopen := stack[..|stack| - 1], nopen - 1;
      assert Ring();
    }

    // ---- The walk

    /** The walk buffer names an object below the directory whose entries start at `base`. */
    ghost predicate Inside()
      reads `dirbuf, `base
    {
      0 < base <= |dirbuf| && dirbuf[base - 1] == SLASH
    }

    method ProcessEntry(node: Node, name: Path, ghost k: nat, ghost safe: bool) returns (result: int)
      requires Valid() && Inside() && stack != []
      requires node.Dir? && node.access.Readable? && PlainTree(node) && ValidName(name)
      requires !lossy ==> k < |node.entries| && node.entries[k].name == name
      requires safe ==> Safe(node, |stack| - 1) && (nopen > 0 ==> stack[|stack| - 1].rest == node.entries[k + 1..])
      modifies this, stack
      ensures Valid() && stack == old(stack) && (old(lossy) ==> lossy) && (safe ==> !lossy)
      ensures Kept(old(Rests()), old(nopen), Rests(), nopen, lossy, |stack|)
      ensures Inside() && level == old(level) && base == old(base) && dirbuf[..base] == old(dirbuf[..base])
      ensures !lossy ==> WalkEntry(cfg, dirbuf[..base], level, node.entries[k], old(trace)) == Outcome(result, trace)
      decreases node, 0
    {
      hide Ring, Frames, WalkDir, ValidTree, PlainTree, Room, Rests, Index, Reaches, NameList;
      if IsDots(name) {
        return 0;
      }
      ghost var prefix := dirbuf[..base];
      dirbuf := dirbuf[..base] + name;
      assert dirbuf[..base] == prefix;
      var found := Index(node.entries, name);
      if !lossy {
        EntryIsPlain(node, k);
      }
      if found < 0 {
        result := Report(FTW_NS);
      } else {
        EntryIsPlain(node, found);
        var st := node.entries[found].node;
        match st {
          case Unreachable =>
            result := -1;
          case Dir(_, _) =>
            if safe {
              EntryIsValid(node, maxdir, k);
              RoomForEntry(node, k);
            }
            result := FtwDir(st, safe);
          case _ =>
            result := Report(FlagOf(st));
        }
      }
      if cfg.actionRetval && result == FTW_SKIP_SUBTREE {
        result := 0;
      }
    }

    /** One round of the first loop: the next entry leaves the stream and is processed. */
    method StreamStep(node: Node, dir: DirData, ghost k: nat, ghost safe: bool) returns (result: int)
      requires Valid() && Inside() && node.Dir? && node.access.Readable? && PlainTree(node)
      requires stack != [] && stack[|stack| - 1] == dir && dir.stream.Some? && dir.stream.value != []
      requires !lossy ==> k <= |node.entries| && dir.rest == node.entries[k..]
      requires safe ==> Safe(node, |stack| - 1)
      modifies this, stack
      ensures Valid() && stack == old(stack) && (old(lossy) ==> lossy) && (safe ==> Safe(node, |stack| - 1))
      ensures Kept(old(Rests()), old(nopen), Rests(), nopen, lossy, |stack| - 1)
      ensures Inside() && level == old(level) && base == old(base) && dirbuf[..base] == old(dirbuf[..base])
      ensures dir.stream.Some? ==> |dir.stream.value| < old(|dir.stream.value|)
      ensures !lossy ==> k < |node.entries| && dir.rest == node.entries[k + 1..]
      ensures !lossy ==>
                WalkEntries(cfg, dirbuf[..base], level, node.entries[k..], old(trace))
                == if result == 0 then WalkEntries(cfg, dirbuf[..base], level, node.entries[k + 1..], trace)
                   else Outcome(result, trace)
      decreases node, 1
    {
      hide Ring, Frames, HasRoom, RestsOf, Reaches, ValidTree, PlainTree, ValidName, WalkEntry, WalkEntries, NameList;
      InnermostState(dir);
      var d := dir.stream.value[0];
      assert d in dir.rest;
      ghost var was, wasOpen := Rests(), nopen;
      Advance(dir);
      ghost var mid, midOpen := Rests(), nopen;
      if !lossy {
        assert d == node.entries[k] && node.entries[k..][1..] == node.entries[k + 1..];
        EntriesStep(cfg, dirbuf[..base], level, node.entries, k, trace);
      }
      if safe {
        RoomKept(was, wasOpen, mid, midOpen, maxdir, node, |was| - 1);
      }
      RestAt(stack, |stack| - 1);
      result := ProcessEntry(node, d.name, k, safe);
      RestAt(stack, |stack| - 1);
      InnermostState(dir);
      if safe {
        KeptEqual(mid, midOpen, Rests(), nopen, |was| - 1);
        RoomKept(was, wasOpen, Rests(), nopen, maxdir, node, |was| - 1);
      }
    }

    /** The first loop of ftw_dir. It ends early when another directory takes the stream's slot. */
    method WalkStream(node: Node, dir: DirData, ghost safe: bool) returns (result: int, ghost k: nat)
      requires Valid() && Inside() && node.Dir? && node.access.Readable? && PlainTree(node)
      requires stack != [] && stack[|stack| - 1] == dir && nopen > 0 && dir.rest == node.entries
      requires safe ==> Safe(node, |stack| - 1)
      modifies this, stack
      ensures Valid() && stack == old(stack) && (old(lossy) ==> lossy) && (safe ==> !lossy)
      ensures Kept(old(Rests()), old(nopen), Rests(), nopen, lossy, |stack| - 1)
      ensures Inside() && level == old(level) && base == old(base) && dirbuf[..base] == old(dirbuf[..base])
      ensures !lossy ==> k <= |node.entries| && dir.rest == node.entries[k..]
      ensures result == 0 && nopen > 0 ==> dir.rest == []
      ensures !lossy ==>
                WalkEntries(cfg, dirbuf[..base], level, node.entries, old(trace))
                == if result == 0 then WalkEntries(cfg, dirbuf[..base], level, node.entries[k..], trace)
                   else Outcome(result, trace)
      decreases node, 2
    {
      hide Ring, Frames, Room, Rests, Kept, Reaches, ValidTree, ValidNames, PlainTree, WalkEntry, WalkEntries, NameList;
      k, result := 0, 0;
      assert node.entries[0..] == node.entries;
      ghost var goal := WalkEntries(cfg, dirbuf[..base], level, node.entries, trace);
      KeptSame(Rests(), nopen, lossy, |stack| - 1);
      while dir.stream.Some? && dir.stream.value != []
        invariant Valid() && stack == old(stack) && (old(lossy) ==> lossy) && (safe ==> Safe(node, |stack| - 1))
        invariant Kept(old(Rests()), old(nopen), Rests(), nopen, lossy, |stack| - 1)
        invariant Inside() && level == old(level) && base == old(base) && dirbuf[..base] == old(dirbuf[..base])
        invariant !lossy ==> k <= |node.entries| && dir.rest == node.entries[k..]
        invariant result == 0
        invariant !lossy ==> goal == WalkEntries(cfg, dirbuf[..base], level, node.entries[k..], trace)
        decreases if dir.stream.Some? then |dir.stream.value| + 1 else 0
      {
        ghost var mid, midOpen, midLossy := Rests(), nopen, lossy;
        result := StreamStep(node, dir, k, safe);
        KeptTrans(old(Rests()), old(nopen), mid, midOpen, midLossy, Rests(), nopen, lossy, |stack| - 1);
        k := k + 1;
        if result != 0 {
          break;
        }
      }
      InnermostState(dir);
    }

    /** One round of the second loop: the next name of the list is processed. */
    method ListStep(node: Node, dir: DirData, runp: nat, ghost m: nat, ghost k: nat, ghost safe: bool)
        returns (result: int, endp: nat)
      requires Valid() && Inside() && node.Dir? && node.access.Readable? && PlainTree(node)
      requires stack != [] && stack[|stack| - 1] == dir && nopen == 0
      requires m <= |dir.rest| && runp < |dir.content| && dir.content[runp] != NUL
      requires dir.content[runp..] == NameList(dir.rest[m..])
      requires !lossy ==> k <= |node.entries| && dir.rest[m..] == node.entries[k..]
      requires safe ==> !lossy && ValidTree(node, maxdir)
      modifies this, stack
      ensures Valid() && stack == old(stack) && nopen == 0 && Rests() == old(Rests())
      ensures (old(lossy) ==> lossy) && (safe ==> !lossy)
      ensures dir.content == old(dir.content) && dir.rest == old(dir.rest)
      ensures Inside() && level == old(level) && base == old(base) && dirbuf[..base] == old(dirbuf[..base])
      ensures m < |dir.rest| && runp <= endp && endp + 1 < |dir.content|
      ensures dir.content[endp + 1..] == NameList(dir.rest[m + 1..])
      ensures !lossy ==> k < |node.entries| && dir.rest[m + 1..] == node.entries[k + 1..]
      ensures !lossy ==>
                WalkEntries(cfg, dirbuf[..base], level, node.entries[k..], old(trace))
                == if result == 0 then WalkEntries(cfg, dirbuf[..base], level, node.entries[k + 1..], trace)
                   else Outcome(result, trace)
      decreases node, 1
    {
      hide Ring, Frames, Room, RestsOf, Reaches, ValidTree, PlainTree, ValidName, WalkEntry, WalkEntries, NameList;
      InnermostState(dir);
      RestAt(stack, |stack| - 1);
      endp := NextName(dir.content, runp, dir.rest, m);
      if !lossy {
        assert dir.rest[m] == dir.rest[m..][0] == node.entries[k];
        assert dir.rest[m..][1..] == dir.rest[m + 1..] && node.entries[k..][1..] == node.entries[k + 1..];
        EntriesStep(cfg, dirbuf[..base], level, node.entries, k, trace);
      }
      NoRoomNeeded(node, |stack| - 1);
      ghost var was := Rests();
      result := ProcessEntry(node, dir.content[runp..endp], k, safe);
      KeptListed(was, Rests(), lossy);
      InnermostState(dir);
      RestAt(stack, |stack| - 1);
    }

    /** The end of the next name in the list. */
    method NextName(content: seq<byte>, runp: nat, ghost names: seq<Entry>, ghost m: nat) returns (endp: nat)
      requires m <= |names| && ValidNames(names) && runp < |content| && content[runp] != NUL
      requires content[runp..] == NameList(names[m..])
      ensures m < |names| && runp <= endp && endp + 1 < |content|
      ensures content[runp..endp] == names[m].name && ValidName(names[m].name)
      ensures content[endp + 1..] == NameList(names[m + 1..])
    {
      hide NameList;
      ListFront(names, m);
      assert content[runp..][0] == content[runp];
      assert content[|content| - 1] == content[runp..][|content[runp..]| - 1];
      endp := FindNul(content, runp);
      assert names[m] in names;
      FirstNul(content, runp, endp, names[m].name, NameList(names[m + 1..]));
    }

    /** The second loop of ftw_dir, over the list of a directory that lost its stream. */
    method WalkList(node: Node, dir: DirData, ghost k0: nat, ghost safe: bool) returns (result: int)
      requires Valid() && Inside() && node.Dir? && node.access.Readable? && PlainTree(node)
      requires stack != [] && stack[|stack| - 1] == dir && nopen == 0
      requires !lossy ==> k0 <= |node.entries| && dir.rest == node.entries[k0..]
      requires safe ==> !lossy && ValidTree(node, maxdir)
      modifies this, stack
      ensures Valid() && stack == old(stack) && nopen == 0 && Rests() == old(Rests())
      ensures (old(lossy) ==> lossy) && (safe ==> !lossy)
      ensures Inside() && level == old(level) && base == old(base) && dirbuf[..base] == old(dirbuf[..base])
      ensures !lossy ==>
                WalkEntries(cfg, dirbuf[..base], level, node.entries[k0..], old(trace)) == Outcome(result, trace)
      decreases node, 2
    {
      hide Ring, Frames, Room, Rests, Reaches, ValidTree, PlainTree, ValidName, WalkEntry, WalkEntries, NameList;
      InnermostState(dir);
      result := 0;
      var runp := 0;
      ghost var k: nat, m: nat := k0, 0;
      ghost var goal := if lossy then Outcome(0, [])
                        else WalkEntries(cfg, dirbuf[..base], level, node.entries[k0..], trace);
      assert dir.content[0..] == dir.content && dir.rest[0..] == dir.rest;
      NameListFront(dir.rest);
      while result == 0 && dir.content[runp] != NUL
        invariant Valid() && stack == old(stack) && nopen == 0 && Rests() == old(Rests())
        invariant (old(lossy) ==> lossy) && (safe ==> !lossy) && dir.rest == old(dir.rest)
        invariant Inside() && level == old(level) && base == old(base) && dirbuf[..base] == old(dirbuf[..base])
        invariant m <= |dir.rest| && runp < |dir.content| && dir.content[runp..] == NameList(dir.rest[m..])
        invariant !lossy ==> k <= |node.entries| && dir.rest[m..] == node.entries[k..]
        invariant !lossy ==>
                    goal == if result == 0 then WalkEntries(cfg, dirbuf[..base], level, node.entries[k..], trace)
                            else Outcome(result, trace)
        decreases |dir.rest| - m
      {
        var endp;
        result, endp := ListStep(node, dir, runp, m, k, safe);
        runp := endp + 1;
        k, m := k + 1, m + 1;
      }
      if result == 0 && !lossy {
        InnermostState(dir);
        ListFront(dir.rest, m);
        assert dir.content[runp..][0] == dir.content[runp];
        EntriesStep(cfg, dirbuf[..base], level, node.entries, k, trace);
      }
    }

    method FindNul(content: seq<byte>, runp: nat) returns (endp: nat)
      requires runp < |content| && content[|content| - 1] == NUL
      ensures runp <= endp < |content| && content[endp] == NUL
      ensures forall i :: runp <= i < endp ==> content[i] != NUL
    {
      endp := runp;
      while content[endp] != NUL
        invariant runp <= endp < |content|
        invariant forall i :: runp <= i < endp ==> content[i] != NUL
        decreases |content| - endp
      {
        endp := endp + 1;
      }
    }

    method FtwDir(node: Node, ghost safe: bool) returns (result: int)
      requires Valid() && node.Dir? && PlainTree(node) && (safe ==> Safe(node, |stack|))
      requires base <= |dirbuf| && dirbuf != [] && dirbuf[|dirbuf| - 1] != SLASH
      modifies this, stack
      ensures Valid() && stack == old(stack) && (old(lossy) ==> lossy) && (safe ==> !lossy)
      ensures Kept(old(Rests()), old(nopen), Rests(), nopen, lossy, |stack|)
      ensures level == old(level) && base == old(base) && dirbuf == old(dirbuf)
      ensures !lossy ==> WalkDir(cfg, dirbuf, level, base, node, old(trace)) == Outcome(result, trace)
      decreases node, 4
    {
      hide Ring, Frames, Room, Rests, Kept, Reaches, WalkEntries, WalkEntry, ValidTree, PlainTree, FinishDir, NameList;
      NamesArePlain(node);
      var dir := new DirData();
      ghost var n, was, wasOpen := |stack|, Rests(), nopen;
      var ok := OpenDirStream(node, dir, safe);
      if !ok {
        assert Rests()[..n] == Rests();
        result := -1;
        if node.access.Denied? {
          result := Report(FTW_DNR);
        }
        return;
      }
      ghost var mid, midOpen, midLossy := Rests()[..n], nopen - 1, lossy;
      if !cfg.depth {
        result := Report(FTW_D);
        if result != 0 {
          PopSlot();
          return;
        }
      }
      result := Descend(node, dir, safe);
      KeptTrans(was, wasOpen, mid, midOpen, midLossy, Rests(), nopen, lossy, n);
    }

    /** The rest of ftw_dir, from the step into the directory to the return to its parent. */
    method Descend(node: Node, dir: DirData, ghost safe: bool) returns (result: int)
      requires Valid() && node.Dir? && node.access.Readable? && PlainTree(node)
      requires base <= |dirbuf| && dirbuf != [] && dirbuf[|dirbuf| - 1] != SLASH
      requires stack != [] && stack[|stack| - 1] == dir && nopen > 0 && dir.rest == node.entries
      requires safe ==> Safe(node, |stack| - 1)
      modifies this, stack
      ensures Valid() && stack == old(stack)[..|old(stack)| - 1] && (old(lossy) ==> lossy) && (safe ==> !lossy)
      ensures Kept(old(Rests())[..|stack|], old(nopen) - 1, Rests(), nopen, lossy, |stack|)
      ensures level == old(level) && base == old(base) && dirbuf == old(dirbuf)
      ensures !lossy ==>
                FinishDir(cfg, dirbuf, level, base,
                          WalkEntries(cfg, dirbuf + [SLASH], level + 1, node.entries, old(trace)))
                == Outcome(result, trace)
      decreases node, 3, 1
    {
      hide Ring, Frames, Room, Rests, Kept, Reaches, WalkEntries, WalkEntry, ValidTree, PlainTree, FinishDir, NameList;
      var previousBase := base;
      level := level + 1;
      dirbuf := dirbuf + [SLASH];
      base := |dirbuf|;
      result := WalkInside(node, dir, safe);
      assert dirbuf[base - 1] == dirbuf[..base][base - 1] == SLASH;
      assert dirbuf[..base - 1] == dirbuf[..base][..base - 1];
      result := Leave(result, previousBase);
    }

    /** The end of ftw_dir: back to the directory itself, which is reported last under FTW_DEPTH. */
    method Leave(inside: int, previousBase: nat) returns (result: int)
      requires Inside()
      modifies `dirbuf, `level, `base, `trace
      ensures dirbuf == old(dirbuf[..base - 1]) && level == old(level) - 1 && base == previousBase
      ensures FinishDir(cfg, dirbuf, level, base, Outcome(inside, old(trace))) == Outcome(result, trace)
    {
      result := inside;
      if cfg.actionRetval && result == FTW_SKIP_SIBLINGS {
        result := 0;
      }
      dirbuf := dirbuf[..base - 1];
      level := level - 1;
      trace := trace + [Up];
      base := previousBase;
      if result == 0 && cfg.depth {
        result := Report(FTW_DP);
      }
    }

    lemma InnermostState(dir: DirData)
      requires Valid() && stack != [] && stack[|stack| - 1] == dir
      ensures if nopen > 0 then dir.Open() else dir.Listed()
      ensures ValidNames(dir.rest)
    {
    }

    /** A directory without a stream has no slot to give back. */
    ghost method PopListed()
      requires Valid() && stack != [] && nopen == 0
      modifies `stack
      ensures Valid() && stack == old(stack)[..|old(stack)| - 1] && Rests() == old(Rests())[..|stack|]
    {
      hide RestsOf;
      RestsFewer(stack);
      stack := stack[..|stack| - 1];
    }

    /** Both loops of ftw_dir, and the close of the stream if the directory kept it. */
    method WalkInside(node: Node, dir: DirData, ghost safe: bool) returns (result: int)
      requires Valid() && Inside() && base == |dirbuf| && node.Dir? && node.access.Readable? && PlainTree(node)
      requires stack != [] && stack[|stack| - 1] == dir && nopen > 0 && dir.rest == node.entries
      requires safe ==> Safe(node, |stack| - 1)
      modifies this, stack
      ensures Valid() && stack == old(stack)[..|old(stack)| - 1] && (old(lossy) ==> lossy) && (safe ==> !lossy)
      ensures Kept(old(Rests())[..|stack|], old(nopen) - 1, Rests(), nopen, lossy, |stack|)
      ensures level == old(level) && base == old(base) <= |dirbuf| && dirbuf[..base] == old(dirbuf)
      ensures !lossy ==> WalkEntries(cfg, dirbuf[..base], level, node.entries, old(trace)) == Outcome(result, trace)
      decreases node, 3, 0
    {
      hide Ring, Frames, Room, Rests, Kept, Reaches, WalkEntry, WalkEntries, ValidTree, PlainTree, NameList;
      ghost var was, wasOpen := Rests(), nopen;
      ghost var k;
      result, k := WalkStream(node, dir, safe);
      InnermostState(dir);
      ghost var mid, midOpen, midLossy := Rests(), nopen, lossy;
      if dir.stream.Some? {
        if result == 0 && !lossy {
          assert k == |node.entries|;
          EntriesStep(cfg, dirbuf[..base], level, node.entries, k, trace);
        }
        PopSlot();
      } else {
        if result == 0 {
          result := WalkList(node, dir, k, safe);
        }
        PopListed();
      }
      KeptPop(was, wasOpen, mid, midOpen, midLossy, Rests(), nopen, lossy);
    }

    /** readdir on the innermost stream. */
    method Advance(dir: DirData)
      requires Valid() && stack != [] && stack[|stack| - 1] == dir && nopen > 0 && dir.rest != []
      modifies dir
      ensures Valid() && dir.rest == old(dir.rest)[1..]
      ensures Rests()[..|stack| - 1] == old(Rests())[..|stack| - 1]
    {
      dir.stream := Some(dir.stream.value[1..]);
      dir.rest := dir.rest[1..];
    }
  }

  ghost function RestsOf(dirs: seq<DirData>): (r: seq<seq<Entry>>)
    reads dirs`rest
    ensures |r| == |dirs|
  {
    if dirs == [] then [] else RestsOf(dirs[..|dirs| - 1]) + [dirs[|dirs| - 1].rest]
  }

  lemma {:induction false} RestAt(dirs: seq<DirData>, i: nat)
    requires i < |dirs|
    ensures RestsOf(dirs)[i] == dirs[i].rest
  {
    if i < |dirs| - 1 {
      RestAt(dirs[..|dirs| - 1], i);
    }
  }

  lemma RestsAll(dirs: seq<DirData>)
    ensures forall i :: 0 <= i < |dirs| ==> RestsOf(dirs)[i] == dirs[i].rest
  {
    forall i | 0 <= i < |dirs|
      ensures RestsOf(dirs)[i] == dirs[i].rest
    {
      RestAt(dirs, i);
    }
  }

  lemma RestsFewer(dirs: seq<DirData>)
    requires dirs != []
    ensures RestsOf(dirs[..|dirs| - 1]) == RestsOf(dirs)[..|dirs| - 1]
  {
  }

  lemma RestsMore(dirs: seq<DirData>, d: DirData)
    ensures RestsOf(dirs + [d]) == RestsOf(dirs) + [d.rest]
  {
    assert (dirs + [d])[..|dirs|] == dirs;
  }

  lemma NamesArePlain(node: Node)
    requires node.Dir? && PlainTree(node)
    ensures node.access.Readable? ==> ValidNames(node.entries)
  {
  }

  lemma EntryIsPlain(node: Node, k: nat)
    requires node.Dir? && node.access.Readable? && PlainTree(node) && k < |node.entries|
    ensures Index(node.entries, node.entries[k].name) == k && ValidName(node.entries[k].name)
    ensures IsDots(node.entries[k].name) || PlainTree(node.entries[k].node)
  {
    assert node.entries[k] in node.entries;
  }

  lemma EntryIsValid(node: Node, maxdir: nat, k: nat)
    requires node.Dir? && node.access.Readable? && ValidTree(node, maxdir) && k < |node.entries|
    ensures IsDots(node.entries[k].name) || ValidTree(node.entries[k].node, maxdir)
  {
    hide Reaches, Fits;
    assert node.entries[k] in node.entries;
  }

  /** `nopen` of these directories have an open stream, the last ones. */
  ghost predicate HasRoom(rests: seq<seq<Entry>>, nopen: nat, maxdir: nat, node: Node, top: nat) {
    forall j :: 0 <= j < |rests| && |rests| - nopen <= j < top && Reaches(node, maxdir - top + j + 1) ==> Fits(rests[j])
  }

  /** Streams that stay open keep what they need, and a further innermost directory changes nothing for the others. */
  lemma RoomKept(was: seq<seq<Entry>>, wasOpen: nat, rests: seq<seq<Entry>>, nopen: nat, maxdir: nat, node: Node,
                 top: nat)
    requires HasRoom(was, wasOpen, maxdir, node, top) && top <= |was| && top <= |rests|
    requires |rests| - nopen >= |was| - wasOpen && rests[..top] == was[..top]
    ensures HasRoom(rests, nopen, maxdir, node, top)
  {
    hide Fits, Reaches;
    assert forall i :: 0 <= i < top ==> rests[i] == rests[..top][i] == was[..top][i] == was[i];
  }

  /**
   What a part of the walk does to the first `top` directories: those without a stream keep their lists and those
   that keep their streams keep their entries. One that loses its stream keeps them too, unless names are lost.
   */
  ghost predicate Kept(was: seq<seq<Entry>>, wasOpen: nat, rests: seq<seq<Entry>>, nopen: nat, lossy: bool, top: nat) {
    && |rests| == |was| && nopen <= wasOpen
    && forall i :: 0 <= i < |was| && i < top && (!lossy || i < |was| - wasOpen || i >= |was| - nopen) ==>
         rests[i] == was[i]
  }

  lemma KeptSame(was: seq<seq<Entry>>, nopen: nat, lossy: bool, top: nat)
    ensures Kept(was, nopen, was, nopen, lossy, top)
  {
  }

  lemma KeptTrans(was: seq<seq<Entry>>, wasOpen: nat, mid: seq<seq<Entry>>, midOpen: nat, midLossy: bool,
                  rests: seq<seq<Entry>>, nopen: nat, lossy: bool, top: nat)
    requires Kept(was, wasOpen, mid, midOpen, midLossy, top) && Kept(mid, midOpen, rests, nopen, lossy, top)
    requires midLossy ==> lossy
    ensures Kept(was, wasOpen, rests, nopen, lossy, top)
  {
  }

  lemma KeptEqual(was: seq<seq<Entry>>, wasOpen: nat, rests: seq<seq<Entry>>, nopen: nat, top: nat)
    requires Kept(was, wasOpen, rests, nopen, false, top) && top <= |was|
    ensures rests[..top] == was[..top] && nopen <= wasOpen
  {
  }

  lemma KeptListed(was: seq<seq<Entry>>, rests: seq<seq<Entry>>, lossy: bool)
    requires Kept(was, 0, rests, 0, lossy, |was|)
    ensures rests == was
  {
  }

  lemma KeptPop(was: seq<seq<Entry>>, wasOpen: nat, mid: seq<seq<Entry>>, midOpen: nat, midLossy: bool,
                rests: seq<seq<Entry>>, nopen: nat, lossy: bool)
    requires was != [] && wasOpen > 0 && Kept(was, wasOpen, mid, midOpen, midLossy, |was| - 1) && (midLossy ==> lossy)
    requires rests == mid[..|was| - 1] && nopen == if midOpen > 0 then midOpen - 1 else 0
    ensures Kept(was[..|was| - 1], wasOpen - 1, rests, nopen, lossy, |was| - 1)
  {
  }

  lemma NameListFront(entries: seq<Entry>)
    ensures |NameList(entries)| > 0
  {
  }

  lemma OneMoreName(entries: seq<Entry>, e: Entry)
    ensures Names(entries + [e]) == Names(entries) + e.name + [NUL]
  {
    NamesAppend(entries, [e]);
    assert [e][1..] == [];
  }

  lemma CutName(e: Entry)
    requires ValidName(e.name)
    ensures ValidName(e.name[..Min(|e.name|, MAX_FILENAME_LEN)])
  {
  }

  /** A list starts with the next name and its NUL, or with the final NUL when no entry is left. */
  lemma ListFront(entries: seq<Entry>, k: nat)
    requires k <= |entries| && ValidNames(entries)
    ensures var c := NameList(entries[k..]);
            && c[|c| - 1] == NUL && (c[0] == NUL <==> k == |entries|)
            && (k < |entries| ==> c == entries[k].name + ([NUL] + NameList(entries[k + 1..])))
  {
    if k < |entries| {
      assert entries[k] in entries;
      assert entries[k..][0] == entries[k] && entries[k..][1..] == entries[k + 1..];
      var tail := [NUL] + NameList(entries[k + 1..]);
      assert NameList(entries[k..]) == entries[k].name + tail;
    }
  }

  /** The first NUL of such a list is the one behind the name. */
  lemma FirstNul(content: seq<byte>, runp: nat, endp: nat, name: Path, tail: seq<byte>)
    requires runp <= endp < |content| && content[runp..] == name + ([NUL] + tail) && NUL !in name
    requires content[endp] == NUL && forall i :: runp <= i < endp ==> content[i] != NUL
    ensures content[runp..endp] == name && content[endp + 1..] == tail
  {
    var c := content[runp..];
    assert forall i :: 0 <= i < |name| ==> content[runp + i] == c[i] == name[i];
    assert content[runp + |name|] == c[|name|] == NUL;
    assert endp == runp + |name|;
    assert content[runp..endp] == c[..|name|];
    assert content[endp + 1..] == c[|name| + 1..];
  }

  method StripPath(path: Path) returns (p: Path)
    ensures p == Stripped(path)
  {
    var cp := |path|;
    assert path[..cp] == path;
    while cp > 1 && path[cp - 1] == SLASH
      invariant 0 <= cp <= |path| && Stripped(path) == Stripped(path[..cp])
    {
      assert path[..cp][..cp - 1] == path[..cp - 1];
      cp := cp - 1;
    }
    p := path[..cp];
  }

  method FindBase(path: Path) returns (base: nat)
    ensures base == BaseOf(path)
  {
    base := |path|;
    assert path[..base] == path;
    while base > 0 && path[base - 1] != SLASH
      invariant 0 <= base <= |path| && BaseOf(path) == BaseOf(path[..base])
    {
      assert path[..base][..base - 1] == path[..base - 1];
      base := base - 1;
    }
  }

  lemma NamesGrow(st: seq<Entry>, i: nat)
    requires i < |st|
    ensures Names(st[..i + 1]) == Names(st[..i]) + st[i].name + [NUL]
    ensures Fits(st[..i + 1]) <==> Fits(st[..i]) && |st[i].name| <= MAX_FILENAME_LEN
                                   && |Names(st[..i])| + |st[i].name| + 2 <= MAX_BUFFER_SIZE
  {
    assert st[..i + 1] == st[..i] + [st[i]];
    NamesAppend(st[..i], [st[i]]);
    assert [st[i]][1..] == [];
    assert forall e :: e in st[..i + 1] <==> e in st[..i] || e == st[i];
  }
}
