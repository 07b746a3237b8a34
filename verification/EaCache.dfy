/** The cached extended attributes of an entry in etc/afpd/ad_cache.c: a packed buffer of values and a list of names. */
module EaCache {
  import opened Bytes

  const EA_CACHE_NAMES: nat := 1024
  const EA_CACHE_VALUES: nat := 2048

  datatype Record = Record(name: seq<byte>, value: seq<byte>)

  predicate ValidRecord(r: Record) {
    |r.name| <= 255 && |r.value| < 0x1_0000
  }

  /** A record: the length of the name, the length of the value in two bytes, the name and the value. */
  function Pack(r: Record): (bs: seq<byte>)
    requires ValidRecord(r)
    ensures |bs| == 3 + |r.name| + |r.value|
  {
    [|r.name|, |r.value| % 0x100, |r.value| / 0x100] + r.name + r.value
  }

  function PackAll(rs: seq<Record>): (bs: seq<byte>)
    requires forall r :: r in rs ==> ValidRecord(r)
  {
    if rs == [] then [] else Pack(rs[0]) + PackAll(rs[1..])
  }

  lemma {:induction false} PackAppend(rs: seq<Record>, r: Record)
    requires forall q :: q in rs + [r] ==> ValidRecord(q)
    ensures ValidRecord(r) && PackAll(rs + [r]) == PackAll(rs) + Pack(r)
  {
    assert r in rs + [r];
    if rs == [] {
      assert rs + [r] == [r] && [r][1..] == [];
    } else {
      assert (rs + [r])[1..] == rs[1..] + [r];
      PackAppend(rs[1..], r);
      assert Pack(rs[0]) + (PackAll(rs[1..]) + Pack(r)) == (Pack(rs[0]) + PackAll(rs[1..])) + Pack(r);
    }
  }

  /** The first record of a buffer, read back field by field. */
  lemma UnpackFirst(r: Record, tail: seq<byte>)
    requires ValidRecord(r)
    ensures var bs := Pack(r) + tail;
            && bs[0] == |r.name| && bs[1] + bs[2] as int * 0x100 == |r.value|
            && bs[3..3 + |r.name|] == r.name && bs[3 + |r.name|..3 + |r.name| + |r.value|] == r.value
            && bs[3 + |r.name| + |r.value|..] == tail
  {
  }

  /** The records as a map; a name stored twice would keep its first value. */
  function Lookup(rs: seq<Record>, name: seq<byte>): (v: Option<seq<byte>>) {
    if rs == [] then None else if rs[0].name == name then Some(rs[0].value) else Lookup(rs[1..], name)
  }

  lemma {:induction false} LookupAppend(rs: seq<Record>, r: Record, name: seq<byte>)
    ensures Lookup(rs + [r], name)
         == if Lookup(rs, name).Some? then Lookup(rs, name) else if name == r.name then Some(r.value) else None
  {
    if rs == [] {
      assert rs + [r] == [r] && [r][1..] == [];
    } else {
      assert (rs + [r])[1..] == rs[1..] + [r];
      LookupAppend(rs[1..], r, name);
    }
  }

  /** The names in a list as the backend delivers it. */
  function Listed(names: seq<byte>): (ns: seq<seq<byte>>)
    decreases |names|
  {
    if names == [] then []
    else var n := UpToNul(names); [names[..n]] + Listed(if n < |names| then names[n + 1..] else [])
  }

  /** Names one after the other, each with a NUL behind it. */
  function Terminated(ns: seq<seq<byte>>): (names: seq<byte>) {
    if ns == [] then [] else ns[0] + [0] + Terminated(ns[1..])
  }

  /** A list that ends with a NUL, or is empty, is read back as the names it was made of. */
  lemma {:induction false} ListedReadsBack(ns: seq<seq<byte>>)
    requires forall n :: n in ns ==> 0 !in n
    ensures Listed(Terminated(ns)) == ns
  {
    if ns != [] {
      var n, rest := ns[0], Terminated(ns[1..]);
      assert n in ns && Terminated(ns) == n + [0] + rest;
      hide *;
      FirstTerminated(n, rest);
      ListedReadsBack(ns[1..]);
      assert ns == [n] + ns[1..];
    }
  }

  lemma FirstTerminated(n: seq<byte>, rest: seq<byte>)
    requires 0 !in n
    ensures Listed(n + [0] + rest) == [n] + Listed(rest)
  {
    hide UpToNul;
    var names := n + [0] + rest;
    assert names[|n|] == 0;
    assert forall i :: 0 <= i < |n| ==> names[i] == n[i];
    assert UpToNul(names) == |n| && names[..|n|] == n && names[|n| + 1..] == rest;
  }

  function UpToNul(bs: seq<byte>): (n: nat)
    ensures n <= |bs| && (forall i :: 0 <= i < n ==> bs[i] != NUL) && (n < |bs| ==> bs[n] == NUL)
  {
    if bs == [] || bs[0] == NUL then 0 else 1 + UpToNul(bs[1..])
  }

  function Fold(b: byte): (r: byte) {
    if 65 <= b <= 90 then b + 32 else b
  }

  /** Two bytes fold to one exactly if they are equal or the two cases of an ASCII letter. */
  lemma FoldedPairs(a: byte, b: byte)
    ensures Fold(a) == Fold(b) <==>
              || a == b
              || ('A' as int <= a <= 'Z' as int && b == a - 'A' as int + 'a' as int)
              || ('A' as int <= b <= 'Z' as int && a == b - 'A' as int + 'a' as int)
  {
  }

  predicate SameIgnoringCase(a: seq<byte>, b: seq<byte>) {
    |a| == |b| && forall i :: 0 <= i < |a| ==> Fold(a[i]) == Fold(b[i])
  }

  class Attributes {
    var names: Option<seq<byte>>
    var vals: seq<byte>

    ghost var records: seq<Record>

    /** The buffer is whole records, within its limit, and no name comes twice. */
    ghost predicate Valid()
      reads this
    {
      && (forall r :: r in records ==> ValidRecord(r))
      && vals == PackAll(records) && |vals| <= 2048
      && forall i, j :: 0 <= i < j < |records| ==> records[i].name != records[j].name
    }

    constructor ()
      ensures Valid() && records == [] && names == None
    {
      names, vals, records := None, [], [];
    }

    /** ea_cache_value. */
    method Value(name: seq<byte>) returns (v: Option<seq<byte>>)
      requires Valid()
      ensures v == Lookup(records, name)
    {
      hide Pack, PackAll;
      var rec := 0;
      ghost var j := 0;
      assert vals[0..] == vals && records[0..] == records;
      while rec < |vals|
        invariant rec <= |vals| && j <= |records|
        invariant vals[rec..] == PackAll(records[j..])
        invariant Lookup(records, name) == Lookup(records[j..], name)
        decreases |vals| - rec
      {
        RecordAt(vals, rec, records, j);
        assert records[j..][1..] == records[j + 1..];
        var nameLen := vals[rec];
        var valLen := vals[rec + 1] + vals[rec + 2] as int * 0x100;
        var at := rec + 3;
        if nameLen == |name| && vals[at..at + nameLen] == name {
          return Some(vals[at + nameLen..at + nameLen + valLen]);
        }
        rec := at + nameLen + valLen;
        j := j + 1;
      }
      PackedEmpty(vals, rec, records, j);
      v := None;
    }

    /** ea_cache_store_value, which follows a miss. `memory` is whether realloc succeeds. */
    method StoreValue(name: seq<byte>, value: seq<byte>, memory: bool)
      requires Valid() && Lookup(records, name) == None
      modifies `vals, `records
      ensures Valid()
      ensures records == if |name| <= 255 && old(|vals|) + 3 + |name| + |value| <= 2048 && memory
                         then old(records) + [Record(name, value)] else old(records)
      ensures forall n :: n != name ==> Lookup(records, n) == old(Lookup(records, n))
      ensures Lookup(records, name) in {None, Some(value)}
    {
      hide Pack, PackAll, Lookup;
      var recLen := 3 + |name| + |value|;
      if |name| > 255 || |value| > EA_CACHE_VALUES || |vals| + recLen > EA_CACHE_VALUES {
        return;
      }
      if !memory {
        return;
      }
      ghost var r := Record(name, value);
      var valLen := |value|;
      assert Pack(r) == [|name|, valLen % 0x100, valLen / 0x100] + name + value by { PackIs(r); }
      vals := vals + ([|name|, valLen % 0x100, valLen / 0x100] + name + value);
      MissIsNew(records, name);
      forall n
        ensures Lookup(records + [r], n)
             == if Lookup(records, n).Some? then Lookup(records, n) else if n == name then Some(value) else None
      {
        LookupAppend(records, r, n);
      }
      assert forall q :: q in records + [r] ==> q in records || q == r;
      PackAppend(records, r);
      records := records + [r];
    }

    /** ea_cache_store_names. */
    method StoreNames(list: seq<byte>, memory: bool)
      modifies `names
      ensures names == if |list| <= 1024 && memory then Some(list) else old(names)
      ensures old(Valid()) ==> Valid()
    {
      if |list| > EA_CACHE_NAMES || !memory {
        return;
      }
      names := Some(list);
    }

    /** ea_cache_free. */
    method Free()
      modifies this
      ensures Valid() && names == None && records == []
    {
      names, vals, records := None, [], [];
    }

    /** ea_cache_absent: the cached list proves that the object has no such attribute. */
    method Absent(name: seq<byte>) returns (absent: bool)
      ensures absent <==> && names.Some?
                          && (forall i :: 0 <= i < |name| ==> name[i] < 0x80)
                          && (forall n :: n in Listed(names.value) ==> !SameIgnoringCase(n, name))
    {
      hide SameIgnoringCase, Lacks, UpToNul;
      if names == None {
        return false;
      }
      for i := 0 to |name|
        invariant forall k :: 0 <= k < i ==> name[k] < 0x80
      {
        if name[i] >= 0x80 {
          return false;
        }
      }
      var list := names.value;
      ListedMatch(list, name);
      var p := 0;
      assert list[0..] == list;
      while p < |list|
        invariant p <= |list|
        invariant Lacks(list, name) == Lacks(list[p..], name)
        decreases |list| - p
      {
        LacksStep(list, p, name);
        var rest := list[p..];
        var n := UpToNul(rest);
        if SameIgnoringCase(rest[..n], name) {
          return false;
        }
        p := if n < |rest| then p + n + 1 else |list|;
      }
      assert list[p..] == [];
      NothingLacks(name);
      absent := true;
    }
  }

  /** No name in the list equals the given one. */
  ghost predicate Lacks(list: seq<byte>, name: seq<byte>)
    decreases |list|
  {
    list != [] ==>
      var n := UpToNul(list);
      !SameIgnoringCase(list[..n], name) && Lacks(if n < |list| then list[n + 1..] else [], name)
  }

  lemma LacksStep(list: seq<byte>, p: nat, name: seq<byte>)
    requires p < |list|
    ensures var rest := list[p..];
            var n := UpToNul(rest);
            Lacks(rest, name) <==>
            !SameIgnoringCase(rest[..n], name) && Lacks(list[if n < |rest| then p + n + 1 else |list|..], name)
  {
    hide SameIgnoringCase, UpToNul;
    Tail(list, p, UpToNul(list[p..]));
  }

  lemma Tail(list: seq<byte>, p: nat, n: nat)
    requires p + n <= |list|
    ensures list[if n < |list| - p then p + n + 1 else |list|..] == if n < |list[p..]| then list[p..][n + 1..] else []
  {
  }

  lemma NothingLacks(name: seq<byte>)
    ensures Lacks([], name)
  {
  }

  predicate NoneMatches(ns: seq<seq<byte>>, name: seq<byte>) {
    forall n :: n in ns ==> !SameIgnoringCase(n, name)
  }

  lemma {:induction false} ListedMatch(list: seq<byte>, name: seq<byte>)
    ensures Lacks(list, name) <==> NoneMatches(Listed(list), name)
    decreases |list|
  {
    if list != [] {
      var n := UpToNul(list);
      var tail := if n < |list| then list[n + 1..] else [];
      FirstListed(list, name);
      hide *;
      ListedMatch(tail, name);
      NoneInFront(list[..n], Listed(tail), name);
    }
  }

  lemma FirstListed(list: seq<byte>, name: seq<byte>)
    requires list != []
    ensures var n := UpToNul(list);
            var tail := if n < |list| then list[n + 1..] else [];
            && Listed(list) == [list[..n]] + Listed(tail)
            && (Lacks(list, name) <==> !SameIgnoringCase(list[..n], name) && Lacks(tail, name))
  {
    hide SameIgnoringCase, UpToNul;
  }

  lemma NoneInFront(x: seq<byte>, s: seq<seq<byte>>, name: seq<byte>)
    ensures NoneMatches([x] + s, name) <==> !SameIgnoringCase(x, name) && NoneMatches(s, name)
  {
    hide SameIgnoringCase;
    assert x in [x] + s && forall n :: n in s ==> n in [x] + s;
  }

  lemma RecordAt(vals: seq<byte>, rec: nat, rs: seq<Record>, j: nat)
    requires rec < |vals| && j <= |rs| && (forall r :: r in rs ==> ValidRecord(r)) && vals[rec..] == PackAll(rs[j..])
    ensures j < |rs| && rec + 3 + |rs[j].name| + |rs[j].value| <= |vals|
    ensures vals[rec] == |rs[j].name| && vals[rec + 1] + vals[rec + 2] as int * 0x100 == |rs[j].value|
    ensures var at := rec + 3;
            var end := at + |rs[j].name|;
            && vals[at..end] == rs[j].name && vals[end..end + |rs[j].value|] == rs[j].value
            && vals[end + |rs[j].value|..] == PackAll(rs[j + 1..])
  {
    var bs := vals[rec..];
    assert j < |rs|;
    assert rs[j..][0] == rs[j] && rs[j..][1..] == rs[j + 1..];
    var r := rs[j];
    assert ValidRecord(r);
    hide Pack;
    assert bs == Pack(r) + PackAll(rs[j + 1..]);
    hide PackAll;
    UnpackFirst(r, PackAll(rs[j + 1..]));
    assert vals[rec] == bs[0] && vals[rec + 1] == bs[1] && vals[rec + 2] == bs[2];
    var n, v := |r.name|, |r.value|;
    assert vals[rec + 3..rec + 3 + n] == bs[3..3 + n];
    assert vals[rec + 3 + n..rec + 3 + n + v] == bs[3 + n..3 + n + v];
    assert vals[rec + 3 + n + v..] == bs[3 + n + v..];
  }

  lemma PackedEmpty(vals: seq<byte>, rec: nat, rs: seq<Record>, j: nat)
    requires rec == |vals| && j <= |rs| && (forall r :: r in rs ==> ValidRecord(r)) && vals[rec..] == PackAll(rs[j..])
    ensures rs[j..] == []
  {
  }

  lemma PackIs(r: Record)
    requires ValidRecord(r)
    ensures Pack(r) == [|r.name|, |r.value| % 0x100, |r.value| / 0x100] + r.name + r.value
  {
  }

  lemma {:induction false} MissIsNew(rs: seq<Record>, name: seq<byte>)
    requires Lookup(rs, name) == None
    ensures forall i :: 0 <= i < |rs| ==> rs[i].name != name
  {
    if rs != [] {
      MissIsNew(rs[1..], name);
      assert forall i :: 1 <= i < |rs| ==> rs[i] == rs[1..][i - 1];
    }
  }

  // ---- Histories

  /**
   The attributes of an object as the backend gives them, and the ctime that every change of them moves. The backend
   may or may not tell upper case from lower case, but what it finds under an ASCII name it also lists.
   */
  datatype Disk = Disk(list: seq<byte>, get: seq<byte> -> Option<seq<byte>>, stamp: int)

  predicate Ascii(name: seq<byte>) {
    forall i :: 0 <= i < |name| ==> name[i] < 0x80
  }

  ghost predicate ListsAll(disk: Disk) {
    forall name :: disk.get(name).Some? && Ascii(name) ==>
      exists n :: n in Listed(disk.list) && SameIgnoringCase(n, name)
  }

  /** A change of the attributes, a read of one of them, or a read of their names. */
  datatype Op = Change(disk: Disk) | Get(name: seq<byte>, memory: bool) | List(memory: bool)

  datatype Answer = Done | Value(value: Option<seq<byte>>) | Names(list: seq<byte>)

  ghost predicate History(ops: seq<Op>, seen: set<int>) {
    ops == [] ||
    if ops[0].Change?
    then ListsAll(ops[0].disk) && ops[0].disk.stamp !in seen && History(ops[1..], seen + {ops[0].disk.stamp})
    else History(ops[1..], seen)
  }

  function DiskAt(start: Disk, ops: seq<Op>, i: nat): (disk: Disk)
    requires i <= |ops|
  {
    if i == 0 then start else if ops[i - 1].Change? then ops[i - 1].disk else DiskAt(start, ops, i - 1)
  }

  /** What an uncached read would answer. */
  function Uncached(op: Op, disk: Disk): (a: Answer) {
    match op
    case Change(_) => Done
    case Get(name, _) => Value(disk.get(name))
    case List(_) => Names(disk.list)
  }

  /** A cache with the present ctime holds nothing that the disk does not. */
  ghost predicate Agrees(a: Attributes, stamp: int, disk: Disk)
    reads a
  {
    stamp == disk.stamp ==>
      && (a.names.Some? ==> a.names.value == disk.list)
      && forall name :: Lookup(a.records, name).Some? ==> Lookup(a.records, name) == disk.get(name)
  }

  /** ea_cache_entry: a ctime that the cache was not filled under empties it. */
  method Entry(a: Attributes, stamp: int, disk: Disk) returns (now: int)
    requires a.Valid() && Agrees(a, stamp, disk)
    modifies a
    ensures a.Valid() && now == disk.stamp && Agrees(a, now, disk)
  {
    now := disk.stamp;
    if stamp != now {
      a.Free();
    }
  }

  /** The lookup of afp_getextattr: the cached value, the cached absence, or the disk. */
  method GetValue(a: Attributes, disk: Disk, name: seq<byte>, memory: bool) returns (v: Option<seq<byte>>)
    requires a.Valid() && Agrees(a, disk.stamp, disk) && ListsAll(disk)
    modifies a
    ensures a.Valid() && Agrees(a, disk.stamp, disk) && v == disk.get(name)
  {
    hide Attributes.Valid, SameIgnoringCase;
    v := a.Value(name);
    if v.Some? {
      return;
    }
    var absent := a.Absent(name);
    if absent {
      assert Ascii(name);
      return None;
    }
    v := disk.get(name);
    if v.Some? {
      a.StoreValue(name, v.value, memory);
    }
  }

  /** Over every history, all answers are those of the disk. */
  method Run(start: Disk, ops: seq<Op>) returns (answers: seq<Answer>)
    requires ListsAll(start) && History(ops, {start.stamp})
    ensures |answers| == |ops|
    ensures forall i :: 0 <= i < |ops| ==> answers[i] == Uncached(ops[i], DiskAt(start, ops, i))
  {
    hide Attributes.Valid, ListsAll;
    var a := new Attributes();
    answers := [];
    var stamp, disk := start.stamp, start;
    ghost var seen := {start.stamp};
    assert ops[0..] == ops;
    for i := 0 to |ops|
      invariant fresh(a) && a.Valid() && disk == DiskAt(start, ops, i) && ListsAll(disk) && Agrees(a, stamp, disk)
      invariant stamp in seen && disk.stamp in seen && History(ops[i..], seen)
      invariant |answers| == i && forall k :: 0 <= k < i ==> answers[k] == Uncached(ops[k], DiskAt(start, ops, k))
    {
      assert ops[i..][0] == ops[i] && ops[i..][1..] == ops[i + 1..];
      var answer := Done;
      match ops[i] {
        case Change(d) =>
          disk := d;
          seen := seen + {d.stamp};
        case Get(name, memory) =>
          stamp := Entry(a, stamp, disk);
          var v := GetValue(a, disk, name, memory);
          answer := Value(v);
        case List(memory) =>
          stamp := Entry(a, stamp, disk);
          if a.names.Some? {
            answer := Names(a.names.value);
          } else {
            answer := Names(disk.list);
            a.StoreNames(disk.list, memory);
          }
      }
      answers := answers + [answer];
    }
  }
}
