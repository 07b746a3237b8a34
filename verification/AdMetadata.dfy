/**
 The cache of AppleDouble metadata in etc/afpd/ad_cache.c, on top of the fork cache it shares its
 entries with.
 */
module AdMetadata {
  import opened Bytes
  import opened ForkCache

  /**
   What the disk holds under a name: its metadata, if it has any, and the length of its resource fork, which may be
   there without metadata. Two versions of an object never share an inode and a ctime.
   */
  datatype Disk = Gone | Object(isDir: bool, ino: int, ctime: int, mtime: int, meta: Option<Meta>, fork: nat)

  datatype Meta = Meta(finderinfo: seq<byte>, mdate: uint32, afpfilei: seq<byte>, rlen: nat)

  datatype Stat = Stat(ino: int, ctime: int, mtime: int)

  function StatOf(disk: Disk): (st: Stat)
    requires disk.Object?
  {
    Stat(disk.ino, disk.ctime, disk.mtime)
  }

  /** ad_metadata: the metadata, or ENOENT. */
  function Uncached(disk: Disk): (r: Option<Meta>) {
    if disk.Object? then disk.meta else None
  }

  /** ad_reso_size: the length of the resource fork, or zero if the call gets no certain answer. */
  function ResoSize(disk: Disk, sure: bool): (n: nat) {
    if sure && disk.Object? then disk.fork else 0
  }

  // ---- Dates: 32-bit seconds from 2000 on one side, Unix seconds on the other

  const AD_DATE_DELTA: int := 946684800

  function ToUnix(d: uint32): (t: int) {
    (d + AD_DATE_DELTA) % 0x1_0000_0000
  }

  function FromUnix(t: int): (d: uint32) {
    (t - AD_DATE_DELTA) % 0x1_0000_0000
  }

  /** The modification date that a client sees: the later of the AppleDouble date and the stat date. */
  function Later(mdate: uint32, mtime: int): (d: uint32) {
    if mtime > ToUnix(mdate) then FromUnix(mtime) else mdate
  }

  /** What a caller makes of the metadata, given the stat of the object. */
  function Served(r: Option<Meta>, mtime: int): (s: Option<Meta>) {
    if r.Some? then Some(r.value.(mdate := Later(r.value.mdate, mtime))) else None
  }

  /** Taking the later date twice changes nothing, even for dates that do not fit 32 bits. */
  lemma LaterTwice(mdate: uint32, mtime: int)
    ensures Later(Later(mdate, mtime), mtime) == Later(mdate, mtime)
  {
    if mtime > ToUnix(mdate) {
      var t := FromUnix(mtime);
      assert (mtime - AD_DATE_DELTA) % 0x1_0000_0000 == t;
    }
  }

  /**
   The later date is one of the two dates and before neither: it is their maximum in Unix seconds, exactly for the
   modification times that fit 32 bits. An AppleDouble date counts from 2000.
   */
  lemma LaterIsMax(mdate: uint32, mtime: int)
    ensures Later(mdate, mtime) == mdate || Later(mdate, mtime) == FromUnix(mtime)
    ensures ToUnix(Later(mdate, mtime)) == Max(ToUnix(mdate), mtime) <==> mtime < 0x1_0000_0000
    ensures mdate as int + 946684800 < 0x1_0000_0000 ==> ToUnix(mdate) == mdate as int + 946684800
  {
    if ToUnix(mdate) < mtime {
      var t: int := FromUnix(mtime);
      var k := (mtime - AD_DATE_DELTA - t) / 0x1_0000_0000;
      assert t + AD_DATE_DELTA == mtime - k * 0x1_0000_0000;
    }
  }

  // ---- Entries

  predicate Differs(d: Dir, st: Stat)
    reads d`ino, d`ctime
  {
    d.ino != st.ino || d.ctime != st.ctime
  }

  predicate MetaAbsent(rlen: int) {
    rlen == RLEN_NO_AD || rlen == RLEN_RFORK_ONLY
  }

  /** An entry that shows the object's present inode and ctime holds what the disk holds. */
  ghost predicate Faithful(d: Dir, disk: Disk)
    reads d`ino, d`ctime, d`mtime, d`rlen, d`finderinfo, d`mdate, d`afpfilei
  {
    disk.Object? && !Differs(d, StatOf(disk)) ==>
      && d.mtime == disk.mtime
      && (d.rlen >= 0 ==> && disk.meta.Some? && d.rlen == disk.meta.value.rlen
                          && d.finderinfo == disk.meta.value.finderinfo && d.afpfilei == disk.meta.value.afpfilei
                          && d.mdate == Later(disk.meta.value.mdate, disk.mtime))
      && (d.rlen == RLEN_NO_AD ==> disk.meta.None? && disk.fork == 0)
      && (d.rlen == RLEN_RFORK_ONLY ==> disk.meta.None? && disk.fork > 0)
  }

  /** ad_store_to_cache. */
  method StoreToCache(c: Cache, m: Meta, d: Dir)
    requires c.Valid() && d in c.dirs && d.buf == None
    modifies d
    ensures c.Valid() && d.buf == None && d.ino == old(d.ino) && d.ctime == old(d.ctime) && d.mtime == old(d.mtime)
    ensures d.finderinfo == m.finderinfo && d.afpfilei == m.afpfilei && d.rlen == m.rlen
    ensures d.mdate == Later(m.mdate, d.mtime)
  {
    hide Cache.Valid, Cache.Linked, Cache.Owned, Cache.Held, Cache.Accounted;
    d.finderinfo := m.finderinfo;
    d.mdate := m.mdate;
    d.afpfilei := m.afpfilei;
    c.SetRlen(d, m.rlen);
    if d.mtime > ToUnix(d.mdate) {
      d.mdate := FromUnix(d.mtime);
    }
  }

  /** ad_rebuild_from_cache: what the disk holds, with the date that a store took. */
  method RebuildFromCache(d: Dir, ghost disk: Disk) returns (m: Meta)
    requires d.rlen >= 0 && Faithful(d, disk)
    ensures disk.Object? && !Differs(d, StatOf(disk)) ==>
              disk.meta.Some? && m == disk.meta.value.(mdate := Later(disk.meta.value.mdate, disk.mtime))
  {
    m := Meta(d.finderinfo, d.mdate, d.afpfilei, d.rlen);
  }

  /**
   A real object has an inode number and a ctime, metadata comes with the length of the fork, and a directory has no
   fork.
   */
  predicate Real(disk: Disk) {
    disk.Object? ==> && disk.ino != 0 && disk.ctime != 0 && (disk.isDir ==> disk.fork == 0)
                     && (disk.meta.Some? ==> disk.meta.value.rlen == disk.fork)
  }

  /** What becomes of an entry: it takes the stat, it takes it under another DID or goes, or it was gone before. */
  datatype Taken = Kept | Lost(takes: bool) | Untouched

  /** What dir_takes_stat promises: another inode or ctime drops the metadata and the fork buffer. */
  method DirTakesStat(c: Cache, d: Dir, st: Stat, taken: Taken)
    requires c.Valid() && d in c.dirs && d.ino != 0 && d.ctime != 0 && Differs(d, st)
    modifies c`used, c`count, c`order, c`ring, c.ring, d
    ensures c.Valid() && forall i :: 0 <= i < |c.ring| ==> c.ring[i] in old(c.ring)
    ensures taken.Untouched? ==> d.buf == old(d.buf) && d.rlen == old(d.rlen) && d.finderinfo == old(d.finderinfo)
                                 && d.mdate == old(d.mdate) && d.afpfilei == old(d.afpfilei)
    ensures !taken.Untouched? ==> d.buf == None && d.rlen == RLEN_UNKNOWN
    ensures if taken.Kept? || (taken.Lost? && taken.takes)
            then d.ino == st.ino && d.ctime == st.ctime && d.mtime == st.mtime
            else d.ino == old(d.ino) && d.ctime == old(d.ctime) && d.mtime == old(d.mtime)
  {
    hide Cache.Valid, Cache.Linked, Cache.Owned, Cache.Held, Cache.Accounted;
    if taken.Untouched? {
      return;
    }
    if (d.ino != 0 && d.ino != st.ino) || (d.ctime != 0 && d.ctime != st.ctime) {
      if d.buf.Some? {
        ghost var i := c.Free(d);
      }
      c.SetRlen(d, RLEN_UNKNOWN);
    }
    if taken.Kept? || taken.takes {
      d.ino, d.ctime, d.mtime := st.ino, st.ctime, st.mtime;
    }
  }

  /** The part of ad_metadata_cached from the label disk_read on; `sure` is whether the size of the fork is certain. */
  method DiskRead(c: Cache, d: Dir?, isDir: bool, sure: bool, disk: Disk) returns (r: Option<Meta>)
    requires c.Valid() && (d != null ==> d in c.dirs) && Real(disk) && (disk.Object? ==> isDir == disk.isDir)
    requires d != null && disk.Object? && disk.meta.Some? ==> d.buf == None
    requires d != null ==> Faithful(d, disk)
    modifies c`used, c`count, c`order, c`ring, c.ring, d
    ensures c.Valid() && r == Uncached(disk)
    ensures forall i :: 0 <= i < |c.ring| ==> c.ring[i] in old(c.ring)
    ensures d != null ==> Faithful(d, disk) && d.ino == old(d.ino) && d.ctime == old(d.ctime)
    ensures d != null && disk.Object? && disk.meta.None? && (sure || isDir) ==>
              d.rlen == if disk.fork > 0 then RLEN_RFORK_ONLY else RLEN_NO_AD
    ensures d != null && disk.Object? && disk.meta.None? && !sure && !isDir ==> d.rlen == old(d.rlen)
  {
    hide Cache.Valid, Cache.Linked, Cache.Owned, Cache.Held, Cache.Accounted;
    r := Uncached(disk);
    if r.Some? {
      if d != null {
        StoreToCache(c, r.value, d);
      }
    } else if d != null {
      if d.buf.Some? {
        ghost var i := c.Free(d);
      }
      if isDir {
        c.SetRlen(d, RLEN_NO_AD);
      } else if ResoSize(disk, sure) > 0 {
        c.SetRlen(d, RLEN_RFORK_ONLY);
      } else if sure {
        c.SetRlen(d, RLEN_NO_AD);
      }
    }
  }

  /**
   ad_metadata_cached. `taken` is what dir_takes_stat makes of the entry, and `recent` a fresh stat if the caller
   has one. A call that is strict or given a stat answers as a disk read would.
   */
  method MetadataCached(c: Cache, entry: Dir?, isDir: bool, strict: bool, recent: Option<Stat>,
                        taken: Taken, sure: bool, disk: Disk) returns (r: Option<Meta>)
    requires c.Valid() && Real(disk) && (disk.Object? ==> isDir == disk.isDir)
    requires entry != null ==> entry in c.dirs && Faithful(entry, disk) && entry.ino != 0 && entry.ctime != 0
    requires recent.Some? ==> disk.Object? && recent.value == StatOf(disk)
    modifies c`used, c`count, c`order, c`ring, c.ring, entry
    ensures forall i :: 0 <= i < |c.ring| ==> c.ring[i] in old(c.ring)
    ensures c.Valid() && (entry != null ==> Faithful(entry, disk))
    ensures entry != null ==> (entry.ino == old(entry.ino) && entry.ctime == old(entry.ctime))
                              || (disk.Object? && !Differs(entry, StatOf(disk)))
    ensures entry != null && (strict || recent.Some?) && disk.Object? && !taken.Untouched? ==>
              !Differs(entry, StatOf(disk)) || entry.rlen == RLEN_UNKNOWN
    ensures strict || recent.Some? || entry == null ==>
              if disk.Object? then Served(r, disk.mtime) == Served(Uncached(disk), disk.mtime) else r == None
  {
    hide Cache.Valid, Cache.Linked, Cache.Owned, Cache.Held, Cache.Accounted, Later;
    if entry == null {
      r := DiskRead(c, null, isDir, sure, disk);
      return;
    }
    var st := recent;
    if strict && recent.None? {
      if disk.Gone? {
        r := DiskRead(c, entry, isDir, sure, disk);
        return;
      }
      st := Some(StatOf(disk));
    }
    if st.Some? && Differs(entry, st.value) {
      DirTakesStat(c, entry, st.value, taken);
      r := DiskRead(c, if taken.Kept? then entry else null, isDir, sure, disk);
      return;
    }
    if entry.rlen >= 0 {
      var m := RebuildFromCache(entry, disk);
      if disk.Object? && disk.meta.Some? {
        LaterTwice(disk.meta.value.mdate, disk.mtime);
      }
      return Some(m);
    }
    if MetaAbsent(entry.rlen) {
      return None;
    }
    c.NoBuffer(entry);
    r := DiskRead(c, entry, isDir, sure, disk);
  }

  const MAX_LENGTH: nat := 0xffff_ffff

  /**
   The length of the resource fork that a client is told. `r` is what ad_metadata_cached answered, and `found` the
   entry, if it is still in the cache.
   */
  method ForkLength(found: Dir?, r: Option<Meta>, sure: bool, disk: Disk) returns (n: nat)
    requires found != null ==> Faithful(found, disk)
    ensures sure && disk.Object? && (r.Some? ==> r.value.rlen == disk.fork)
            && (found != null ==> !Differs(found, StatOf(disk)) || found.rlen == RLEN_UNKNOWN) ==>
              n == Min(disk.fork, 0xffff_ffff)
    ensures disk.Gone? && r == None ==> n == 0
  {
    if r.Some? {
      n := Min(r.value.rlen, MAX_LENGTH);
    } else if found != null && found.rlen == RLEN_NO_AD {
      n := 0;
    } else {
      n := Min(ResoSize(disk, sure), MAX_LENGTH);
    }
  }

  // ---- Histories

  /**
   A change of object k from outside, an entry for it that the cache takes up or gives up, a read of its metadata, a
   store or a release of its resource fork, or an eviction from the whole cache.
   */
  datatype Step =
    | Change(k: nat, disk: Disk)
    | Enter(k: nat)
    | Leave(k: nat)
    | Query(k: nat, strict: bool, statted: bool, taken: Taken, sure: bool)
    | StoreFork(k: nat, readable: bool, memory: bool, data: seq<byte>)
    | FreeFork(k: nat)
    | Evict(needed: nat)

  /** Steps of `n` objects, in which every change brings an inode and a ctime that the object did not have before. */
  predicate History(steps: seq<Step>, seen: seq<set<(int, int)>>) {
    steps == [] ||
    match steps[0]
    case Change(k, Object(_, ino, ctime, _, _, _)) =>
      k < |seen| && Real(steps[0].disk) && (ino, ctime) !in seen[k]
      && History(steps[1..], seen[k := seen[k] + {(ino, ctime)}])
    case Evict(_) => History(steps[1..], seen)
    case step => step.k < |seen| && History(steps[1..], seen)
  }

  function Changed(disks: seq<Disk>, step: Step): (r: seq<Disk>)
    ensures |r| == |disks|
  {
    if step.Change? && step.k < |disks| then disks[step.k := step.disk] else disks
  }

  /** The disk when step i comes. */
  function DisksAt(disks: seq<Disk>, steps: seq<Step>, i: nat): (r: seq<Disk>)
    requires i <= |steps|
    ensures |r| == |disks|
  {
    if i == 0 then disks else Changed(DisksAt(disks, steps, i - 1), steps[i - 1])
  }

  /** What a client gets: the metadata, if there is any, and the length of the resource fork. */
  datatype Answer = Answer(meta: Option<Meta>, length: nat)

  /**
   A strict read, or one with a fresh stat, is answered as an uncached read would be, and the length is that of the
   fork on the disk, with or without metadata.
   */
  ghost predicate RightFor(step: Step, disk: Disk, answer: Answer)
    requires step.Query?
  {
    step.strict || (step.statted && disk.Object?) ==>
      if disk.Object? then
        && Served(answer.meta, disk.mtime) == Served(Uncached(disk), disk.mtime)
        && (step.sure ==> answer.length == Min(disk.fork, 0xffff_ffff))
      else answer == Answer(None, 0)
  }

  ghost predicate RightAnswer(step: Step, disks: seq<Disk>, answer: Answer) {
    step.Query? && step.k < |disks| ==> RightFor(step, disks[step.k], answer)
  }

  function Recent(statted: bool, disk: Disk): (st: Option<Stat>) {
    if statted && disk.Object? then Some(StatOf(disk)) else None
  }

  predicate Distinct(entries: seq<Dir?>) {
    forall i, j :: 0 <= i < j < |entries| && entries[i] != null ==> entries[i] != entries[j]
  }

  /** All entries agree with their objects, and show a stamp that their object has had. */
  ghost predicate AllFaithful(entries: seq<Dir?>, disks: seq<Disk>, seen: seq<set<(int, int)>>)
    requires |entries| == |disks| == |seen|
    reads entries`ino, entries`ctime, entries`mtime, entries`rlen, entries`finderinfo, entries`mdate, entries`afpfilei
  {
    forall j :: 0 <= j < |entries| ==> EntryAgrees(entries[j], disks[j], seen[j])
  }

  ghost predicate EntryAgrees(d: Dir?, disk: Disk, seen: set<(int, int)>)
    reads {d}`ino, {d}`ctime, {d}`mtime, {d}`rlen, {d}`finderinfo, {d}`mdate, {d}`afpfilei
  {
    && Real(disk) && (disk.Object? ==> (disk.ino, disk.ctime) in seen)
    && (d != null ==> Faithful(d, disk) && d.ino != 0 && d.ctime != 0 && (d.ino, d.ctime) in seen)
  }

  lemma SameLength(r: Option<Meta>, s: Option<Meta>, mtime: int)
    requires Served(r, mtime) == Served(s, mtime)
    ensures r.Some? == s.Some? && (r.Some? ==> r.value.rlen == s.value.rlen)
  {
    hide Later;
  }

  /** A read of one entry's metadata keeps it in agreement. */
  method QueryStep(c: Cache, d: Dir?, step: Step, disk: Disk, ghost seen: set<(int, int)>)
      returns (answer: Answer)
    requires c.Valid() && (d != null ==> d in c.dirs) && EntryAgrees(d, disk, seen) && step.Query?
    modifies c`used, c`count, c`order, c`ring, c.ring, d
    ensures c.Valid() && EntryAgrees(d, disk, seen) && RightFor(step, disk, answer)
    ensures forall i :: 0 <= i < |c.ring| ==> c.ring[i] in old(c.ring)
  {
    hide Cache.Valid, Cache.Linked, Cache.Owned, Cache.Held, Cache.Accounted, Later, Served, Faithful;
    var isDir := disk.Object? && disk.isDir;
    var meta := MetadataCached(c, d, isDir, step.strict, Recent(step.statted, disk), step.taken, step.sure, disk);
    if disk.Object? && Served(meta, disk.mtime) == Served(Uncached(disk), disk.mtime) {
      SameLength(meta, Uncached(disk), disk.mtime);
    }
    var length := ForkLength(if step.taken.Untouched? then null else d, meta, step.sure, disk);
    answer := Answer(meta, length);
  }

  /** A store of one entry's fork keeps it in agreement, and takes at most buffers from the others. */
  method StoreStep(c: Cache, d: Dir, step: Step, ghost disk: Disk, ghost seen: set<(int, int)>)
    requires c.Valid() && d in c.dirs && EntryAgrees(d, disk, seen) && step.StoreFork?
    modifies c`used, c`count, c`order, c`ring, c.ring, c.dirs`buf, c.dirs`node
    modifies d`rlen, d`finderinfo, d`mdate, d`afpfilei
    ensures c.Valid() && EntryAgrees(d, disk, seen)
    ensures forall i :: 0 <= i < |c.ring| ==> c.ring[i] in old(c.ring) || fresh(c.ring[i])
  {
    hide Cache.Valid, Cache.Linked, Cache.Owned, Cache.Held, Cache.Accounted, Later;
    var ok := c.StoreFromFd(d, step.readable, step.memory, step.data);
  }

  /** One step of a history that leaves the set of entries as it is. */
  method RunStep(c: Cache, entries: seq<Dir?>, step: Step, disks: seq<Disk>, ghost seen: seq<set<(int, int)>>)
      returns (answer: Answer)
    requires c.Valid() && (forall d: Dir :: d in entries ==> d in c.dirs) && Distinct(entries)
    requires |entries| == |disks| == |seen| && AllFaithful(entries, disks, seen)
    requires !step.Change? && !step.Enter? && !step.Leave? && (step.Evict? || step.k < |entries|)
    modifies c`used, c`count, c`order, c`ring, c.ring, c.dirs
    ensures c.Valid() && AllFaithful(entries, disks, seen) && RightAnswer(step, disks, answer)
    ensures forall i :: 0 <= i < |c.ring| ==> c.ring[i] in old(c.ring) || fresh(c.ring[i])
  {
    hide Cache.Valid, Cache.Linked, Cache.Owned, Cache.Held, Cache.Accounted, RightFor, EntryAgrees;
    answer := Answer(None, 0);
    match step {
      case Query(k, _, _, _, _) =>
        answer := QueryStep(c, entries[k], step, disks[k], seen[k]);
      case StoreFork(k, _, _, _) =>
        if entries[k] != null {
          StoreStep(c, entries[k], step, disks[k], seen[k]);
        }
      case FreeFork(k) =>
        if entries[k] != null {
          ghost var i := c.Free(entries[k]);
        }
      case Evict(needed) =>
        ghost var k := c.EvictToBudget(needed);
    }
  }

  /** The cache takes up an object with an entry made from a stat of it, unless it is gone or has one. */
  method EnterStep(c: Cache, entries: seq<Dir?>, k: nat, disks: seq<Disk>, ghost seen: seq<set<(int, int)>>)
      returns (now: seq<Dir?>)
    requires c.Valid() && (forall d: Dir :: d in entries ==> d in c.dirs) && Distinct(entries)
    requires |entries| == |disks| == |seen| && AllFaithful(entries, disks, seen) && k < |entries|
    modifies c`dirs
    ensures c.Valid() && |now| == |entries| && (forall d: Dir :: d in now ==> d in c.dirs) && Distinct(now)
    ensures AllFaithful(now, disks, seen) && forall d :: d in c.dirs ==> d in old(c.dirs) || fresh(d)
  {
    hide Cache.Valid, Cache.Linked, Cache.Owned, Cache.Held, Cache.Accounted;
    now := entries;
    assert EntryAgrees(entries[k], disks[k], seen[k]);
    if disks[k].Object? && entries[k] == null {
      var d := new Dir(disks[k].ino, disks[k].ctime, disks[k].mtime);
      c.AddEntry(d);
      now := entries[k := d];
    }
  }

  /** The cache gives up the entry of an object. */
  method LeaveStep(c: Cache, entries: seq<Dir?>, k: nat, disks: seq<Disk>, ghost seen: seq<set<(int, int)>>)
      returns (now: seq<Dir?>)
    requires c.Valid() && (forall d: Dir :: d in entries ==> d in c.dirs) && Distinct(entries)
    requires |entries| == |disks| == |seen| && AllFaithful(entries, disks, seen) && k < |entries|
    modifies c`used, c`count, c`order, c`ring, c`dirs, c.ring, c.dirs`buf, c.dirs`node
    ensures c.Valid() && |now| == |entries| && (forall d: Dir :: d in now ==> d in c.dirs) && Distinct(now)
    ensures AllFaithful(now, disks, seen) && now[k] == null && c.dirs <= old(c.dirs)
    ensures forall i :: 0 <= i < |c.ring| ==> c.ring[i] in old(c.ring)
  {
    hide Cache.Valid, Cache.Linked, Cache.Owned, Cache.Held, Cache.Accounted, Faithful;
    now := entries;
    assert EntryAgrees(entries[k], disks[k], seen[k]);
    if entries[k] != null {
      c.RemoveEntry(entries[k]);
      now := entries[k := null];
    }
  }

  /**
   Over every history of any number of objects, from an empty cache, the accounting holds, all entries agree with
   the disk, and every strict or fresh read is answered as the disk would.
   */
  method Run(budget: nat, maxEntrySize: nat, start: seq<Disk>, steps: seq<Step>)
      returns (c: Cache, entries: seq<Dir?>, answers: seq<Answer>)
    requires forall k :: 0 <= k < |start| ==> Real(start[k])
    requires History(steps, Stamps(start))
    ensures fresh(c) && c.Valid() && c.budget == budget && |entries| == |start|
    ensures forall k :: 0 <= k < |start| && entries[k] != null ==>
              entries[k] in c.dirs && Faithful(entries[k], DisksAt(start, steps, |steps|)[k])
    ensures |answers| == |steps|
    ensures forall i :: 0 <= i < |steps| ==> RightAnswer(steps[i], DisksAt(start, steps, i), answers[i])
  {
    hide Cache.Valid, Cache.Linked, Cache.Owned, Cache.Held, Cache.Accounted;
    hide RightAnswer, AllFaithful, History, DisksAt, Changed, Seen, Stamps;
    entries := seq(|start|, _ => null);
    c := new Cache(budget, maxEntrySize, {});
    answers := [];
    var disks := start;
    ghost var seen := Stamps(start);
    assert steps[0..] == steps;
    NoSteps(start, steps);
    NoEntries(entries, start);
    for i := 0 to |steps|
      invariant c.Valid() && |disks| == |start| == |seen| == |entries| && disks == DisksAt(start, steps, i)
      invariant (forall d: Dir :: d in entries ==> d in c.dirs) && Distinct(entries)
      invariant AllFaithful(entries, disks, seen) && History(steps[i..], seen)
      invariant (forall k :: 0 <= k < |c.ring| ==> fresh(c.ring[k])) && forall d :: d in c.dirs ==> fresh(d)
      invariant |answers| == i
      invariant forall k :: 0 <= k < i ==> RightAnswer(steps[k], DisksAt(start, steps, k), answers[k])
    {
      HistoryStep(steps, i, seen);
      DisksStep(start, steps, i);
      var answer := Answer(None, 0);
      NoAnswerNeeded(steps[i], disks, answer);
      match steps[i] {
        case Change(_, _) =>
          ChangeKeeps(entries, disks, seen, steps[i]);
          seen := Seen(seen, steps[i]);
          disks := Changed(disks, steps[i]);
        case Enter(k) =>
          entries := EnterStep(c, entries, k, disks, seen);
        case Leave(k) =>
          entries := LeaveStep(c, entries, k, disks, seen);
        case _ =>
          answer := RunStep(c, entries, steps[i], disks, seen);
      }
      answers := answers + [answer];
    }
    Agreement(entries, disks, seen);
  }

  lemma NoEntries(entries: seq<Dir?>, disks: seq<Disk>)
    requires |entries| == |disks| && forall k :: 0 <= k < |disks| ==> entries[k] == null && Real(disks[k])
    ensures Distinct(entries) && AllFaithful(entries, disks, Stamps(disks))
  {
  }

  lemma NoAnswerNeeded(step: Step, disks: seq<Disk>, answer: Answer)
    ensures !step.Query? ==> RightAnswer(step, disks, answer)
  {
  }

  lemma NoSteps(start: seq<Disk>, steps: seq<Step>)
    ensures DisksAt(start, steps, 0) == start
  {
  }

  lemma DisksStep(start: seq<Disk>, steps: seq<Step>, i: nat)
    requires i < |steps|
    ensures DisksAt(start, steps, i + 1) == Changed(DisksAt(start, steps, i), steps[i])
    ensures !steps[i].Change? ==> DisksAt(start, steps, i + 1) == DisksAt(start, steps, i)
  {
  }

  lemma HistoryStep(steps: seq<Step>, i: nat, seen: seq<set<(int, int)>>)
    requires i < |steps| && History(steps[i..], seen)
    ensures History(steps[i + 1..], Seen(seen, steps[i])) && (steps[i].Evict? || steps[i].k < |seen|)
    ensures !steps[i].Change? ==> Seen(seen, steps[i]) == seen
    ensures steps[i].Change? ==> NewStamp(steps[i], seen)
  {
    assert steps[i..][0] == steps[i] && steps[i..][1..] == steps[i + 1..];
  }

  predicate NewStamp(step: Step, seen: seq<set<(int, int)>>)
    requires step.Change?
  {
    step.k < |seen| && (step.disk.Object? ==> Real(step.disk) && (step.disk.ino, step.disk.ctime) !in seen[step.k])
  }

  /** An object with a stamp of its own makes its entry stale, which is agreement too. */
  lemma ChangeKeeps(entries: seq<Dir?>, disks: seq<Disk>, seen: seq<set<(int, int)>>, step: Step)
    requires |entries| == |disks| == |seen| && AllFaithful(entries, disks, seen) && step.Change? && NewStamp(step, seen)
    ensures AllFaithful(entries, Changed(disks, step), Seen(seen, step))
  {
    forall j | 0 <= j < |entries|
      ensures EntryAgrees(entries[j], Changed(disks, step)[j], Seen(seen, step)[j])
    {
      assert EntryAgrees(entries[j], disks[j], seen[j]);
    }
  }

  lemma Agreement(entries: seq<Dir?>, disks: seq<Disk>, seen: seq<set<(int, int)>>)
    requires |entries| == |disks| == |seen| && AllFaithful(entries, disks, seen)
    ensures forall k :: 0 <= k < |entries| && entries[k] != null ==> Faithful(entries[k], disks[k])
  {
    hide Faithful;
    forall k | 0 <= k < |entries| && entries[k] != null
      ensures Faithful(entries[k], disks[k])
    {
      assert EntryAgrees(entries[k], disks[k], seen[k]);
    }
  }

  /** The stamps that each object has had. */
  function Stamps(disks: seq<Disk>): (r: seq<set<(int, int)>>)
    ensures |r| == |disks|
  {
    seq(|disks|, k requires 0 <= k < |disks| => if disks[k].Object? then {(disks[k].ino, disks[k].ctime)} else {})
  }

  function Seen(seen: seq<set<(int, int)>>, step: Step): (r: seq<set<(int, int)>>)
    ensures |r| == |seen|
  {
    if step.Change? && step.k < |seen| && step.disk.Object?
    then seen[step.k := seen[step.k] + {(step.disk.ino, step.disk.ctime)}] else seen
  }
}
