/**
 The install protocol of bin/afppasswd/afppasswd_migrate.c: a directory takes the name of the legacy
 SRP file, which stays under a backup name. Any call may fail, and the machine may stop at any point.
 */
module Migration {
  import opened Bytes

  type Name = string
  type Inode = int

  /** An update of one directory entry; None takes the name away. */
  datatype Write = Write(name: Name, value: Option<Inode>)

  /** A directory: what is on the disk for certain, and the updates since the last sync. */
  datatype State = State(durable: map<Name, Inode>, unsynced: seq<Write>)

  function Get(m: map<Name, Inode>, n: Name): (v: Option<Inode>) {
    if n in m then Some(m[n]) else None
  }

  function Put(m: map<Name, Inode>, w: Write): (r: map<Name, Inode>)
    ensures forall n :: Get(r, n) == if n == w.name then w.value else Get(m, n)
  {
    if w.value.Some? then m[w.name := w.value.value] else map n | n in m && n != w.name :: m[n]
  }

  function Replay(m: map<Name, Inode>, ws: seq<Write>): (r: map<Name, Inode>) {
    if ws == [] then m else Put(Replay(m, ws[..|ws| - 1]), ws[|ws| - 1])
  }

  /** The directory as the running system sees it. */
  function Live(s: State): (m: map<Name, Inode>) {
    Replay(s.durable, s.unsynced)
  }

  /** What a crash may leave: each entry keeps its durable value or that of any unsynced update of it. */
  ghost predicate CrashOutcome(s: State, m: map<Name, Inode>) {
    forall n :: Get(m, n) == Get(s.durable, n)
                || exists i :: 0 <= i < |s.unsynced| && s.unsynced[i].name == n && s.unsynced[i].value == Get(m, n)
  }

  /** Updates lost, kept and reordered at will are among these outcomes. */
  lemma {:induction false} AnyReplayIsOutcome(s: State, ws: seq<Write>)
    requires forall w :: w in ws ==> w in s.unsynced
    ensures CrashOutcome(s, Replay(s.durable, ws))
  {
    if ws != [] {
      var k := |ws| - 1;
      AnyReplayIsOutcome(s, ws[..k]);
      var w := ws[k];
      assert w in s.unsynced;
      var i :| 0 <= i < |s.unsynced| && s.unsynced[i] == w;
      var m, before := Replay(s.durable, ws), Replay(s.durable, ws[..k]);
      forall n
        ensures Get(m, n) == Get(s.durable, n)
                || exists i :: 0 <= i < |s.unsynced| && s.unsynced[i].name == n && s.unsynced[i].value == Get(m, n)
      {
        if n == w.name {
          assert s.unsynced[i].name == n && s.unsynced[i].value == Get(m, n);
        } else {
          assert Get(m, n) == Get(before, n);
        }
      }
    }
  }

  /** A crash cannot take this inode from this name. */
  predicate Certain(s: State, n: Name, ino: Inode) {
    Get(s.durable, n) == Some(ino)
    && forall i :: 0 <= i < |s.unsynced| && s.unsynced[i].name == n ==> s.unsynced[i].value == Some(ino)
  }

  predicate CrashSafe(s: State, base: Name, backup: Name, ino: Inode) {
    Certain(s, base, ino) || Certain(s, backup, ino)
  }

  /** A state is crash safe exactly when every outcome of a crash still has the inode under one of the two names. */
  lemma CrashSafety(s: State, base: Name, backup: Name, ino: Inode)
    requires base != backup
    ensures CrashSafe(s, base, backup, ino)
       <==> forall m :: CrashOutcome(s, m) ==> Get(m, base) == Some(ino) || Get(m, backup) == Some(ino)
  {
    forall m | CrashOutcome(s, m) && CrashSafe(s, base, backup, ino)
      ensures Get(m, base) == Some(ino) || Get(m, backup) == Some(ino)
    {
      var n := if Certain(s, base, ino) then base else backup;
      assert Get(m, n) == Some(ino);
    }
    if !CrashSafe(s, base, backup, ino) {
      var v := Loss(s, base, ino);
      var w := Loss(s, backup, ino);
      var m := Put(Put(s.durable, Write(base, v)), Write(backup, w));
      assert Get(m, base) == v && Get(m, backup) == w;
      assert CrashOutcome(s, m);
    }
  }

  /** A value that a crash may leave under a name that is not certain. */
  lemma Loss(s: State, n: Name, ino: Inode) returns (v: Option<Inode>)
    requires !Certain(s, n, ino)
    ensures v != Some(ino)
    ensures v == Get(s.durable, n)
            || exists i :: 0 <= i < |s.unsynced| && s.unsynced[i].name == n && s.unsynced[i].value == v
  {
    if Get(s.durable, n) != Some(ino) {
      v := Get(s.durable, n);
    } else {
      var i :| 0 <= i < |s.unsynced| && s.unsynced[i].name == n && s.unsynced[i].value != Some(ino);
      v := s.unsynced[i].value;
    }
  }

  lemma LiveStep(s: State, w: Write)
    ensures Live(s.(unsynced := s.unsynced + [w])) == Put(Live(s), w)
  {
    assert (s.unsynced + [w])[..|s.unsynced|] == s.unsynced;
  }

  /** A name that is certain is also there now. */
  lemma {:induction false} CertainIsLive(s: State, n: Name, ino: Inode)
    requires Certain(s, n, ino)
    ensures Get(Live(s), n) == Some(ino)
    decreases |s.unsynced|
  {
    if s.unsynced != [] {
      var k := |s.unsynced| - 1;
      CertainIsLive(s.(unsynced := s.unsynced[..k]), n, ino);
    }
  }

  // ---- Names

  function BackupName(base: Name, attempt: nat): (n: Name) {
    base + (if attempt == 0 then ".legacy" else ".legacy." + Decimal(attempt))
  }

  function StagingName(base: Name, pid: nat): (n: Name) {
    "." + base + ".migrate." + Decimal(pid)
  }

  lemma NamesDiffer(base: Name, attempt: nat, pid: nat)
    ensures BackupName(base, attempt) != base && StagingName(base, pid) != base
    ensures BackupName(base, attempt) != StagingName(base, pid)
  {
    var b, t := BackupName(base, attempt), StagingName(base, pid);
    assert b[|base| + 1] == 'l';
    assert t[|base| + 1] == '.';
  }

  /** A name of the series that link_backup tries. */
  ghost predicate IsBackupOf(base: Name, name: Name) {
    name == base + ".legacy" || exists k :: 1 <= k < 10000 && name == base + ".legacy." + Decimal(k)
  }

  lemma BackupSpelling(base: Name, attempt: nat)
    requires attempt < 10000
    ensures IsBackupOf(base, BackupName(base, attempt))
  {
    hide Decimal;
    assert base + (".legacy." + Decimal(attempt)) == base + ".legacy." + Decimal(attempt);
  }

  lemma StagingSpelling(base: Name, pid: nat)
    ensures StagingName(base, pid) == "." + base + ".migrate." + Decimal(pid)
  {
  }

  const MIGRATE_ATTEMPTS: nat := 10000

  /** One of the names that link_backup tries is free. */
  ghost predicate HasFreeBackup(s: State, base: Name) {
    exists k :: 0 <= k < 10000 && BackupName(base, k) !in Live(s)
  }

  datatype LinkResult = Linked | Exists | LinkFailed

  datatype RestoreResult = RestoreFailed | RestoreCleanupIncomplete | RestoreComplete

  class Directory {
    const fails: nat -> bool  // whether the n-th call fails for a reason of its own
    var calls: nat
    var state: State
    ghost var history: seq<State>  // the states between the calls

    constructor (state: State, fails: nat -> bool)
      ensures this.state == state && history == [state] && this.fails == fails
    {
      this.state, this.fails, calls, history := state, fails, 0, [state];
    }

    /** Every state so far, and the present one. */
    ghost predicate Always(base: Name, backup: Name, ino: Inode)
      reads this
    {
      && history != [] && history[|history| - 1] == state
      && forall i :: 0 <= i < |history| ==> CrashSafe(history[i], base, backup, ino)
    }

    /** The original name was certain all the time. */
    ghost predicate Untouched(base: Name, ino: Inode)
      reads this
    {
      && history != [] && history[|history| - 1] == state
      && forall i :: 0 <= i < |history| ==> Certain(history[i], base, ino)
    }

    lemma UntouchedIsSafe(base: Name, backup: Name, ino: Inode)
      requires Untouched(base, ino)
      ensures Always(base, backup, ino)
    {
    }

    /** No call fails for a reason of its own. */
    ghost predicate Reliable() {
      forall n :: !fails(n)
    }

    /** Of the calls from this one on, at most one fails for a reason of its own. */
    ghost predicate AtMostOneFails(from: nat) {
      forall i, j :: from <= i && from <= j && fails(i) && fails(j) ==> i == j
    }

    method Failed() returns (failed: bool)
      modifies `calls
      ensures failed == fails(old(calls)) && calls == old(calls) + 1
    {
      failed := fails(calls);
      calls := calls + 1;
    }

    method Update(w: Write)
      modifies `state, `history
      ensures state == old(state).(unsynced := old(state).unsynced + [w])
      ensures history == old(history) + [state]
    {
      state := state.(unsynced := state.unsynced + [w]);
      history := history + [state];
    }

    method LinkAt(from: Name, to: Name) returns (r: LinkResult)
      modifies this
      ensures r.Linked? ==> && from in Live(old(state)) && to !in Live(old(state))
                            && state == old(state).(unsynced := old(state).unsynced
                                                                + [Write(to, Some(Live(old(state))[from]))])
                            && history == old(history) + [state]
      ensures !r.Linked? ==> state == old(state) && history == old(history)
      ensures r.LinkFailed? <==> fails(old(calls)) || from !in Live(old(state))
      ensures r.Exists? ==> to in Live(state)
      ensures calls == old(calls) + 1
    {
      var failed := Failed();
      if failed || from !in Live(state) {
        return LinkFailed;
      }
      if to in Live(state) {
        return Exists;
      }
      Update(Write(to, Some(Live(state)[from])));
      r := Linked;
    }

    /** mkdirat: a new directory, with an inode of its own. */
    method MkdirAt(name: Name, dir: Inode) returns (ok: bool)
      modifies this
      ensures ok ==> && name !in Live(old(state)) && history == old(history) + [state]
                     && state == old(state).(unsynced := old(state).unsynced + [Write(name, Some(dir))])
      ensures !ok ==> state == old(state) && history == old(history)
      ensures ok <==> !fails(old(calls)) && name !in Live(old(state))
      ensures calls == old(calls) + 1
    {
      var failed := Failed();
      ok := !failed && name !in Live(state);
      if ok {
        Update(Write(name, Some(dir)));
      }
    }

    method UnlinkAt(name: Name) returns (ok: bool)
      modifies this
      ensures ok ==> && name in Live(old(state)) && history == old(history) + [state]
                     && state == old(state).(unsynced := old(state).unsynced + [Write(name, None)])
      ensures !ok ==> state == old(state) && history == old(history)
      ensures ok <==> !fails(old(calls)) && name in Live(old(state))
      ensures calls == old(calls) + 1
    {
      var failed := Failed();
      if failed || name !in Live(state) {
        return false;
      }
      Update(Write(name, None));
      ok := true;
    }

    /** A rename of a directory to a free name: two entries change, and a crash may keep either change alone. */
    method RenameAt(from: Name, to: Name) returns (ok: bool)
      modifies this
      ensures ok ==> && from in Live(old(state)) && to !in Live(old(state)) && history == old(history) + [state]
                     && state == old(state).(unsynced := old(state).unsynced
                                                         + [Write(from, None), Write(to, Some(Live(old(state))[from]))])
      ensures !ok ==> state == old(state) && history == old(history)
      ensures ok <==> !fails(old(calls)) && from in Live(old(state)) && to !in Live(old(state))
      ensures calls == old(calls) + 1
    {
      var failed := Failed();
      if failed || from !in Live(state) || to in Live(state) {
        return false;
      }
      state := state.(unsynced := state.unsynced + [Write(from, None), Write(to, Some(Live(state)[from]))]);
      history := history + [state];
      ok := true;
    }

    method Fsync() returns (ok: bool)
      modifies this
      ensures ok ==> state == State(Live(old(state)), []) && history == old(history) + [state]
      ensures !ok ==> state == old(state) && history == old(history)
      ensures ok <==> !fails(old(calls))
      ensures calls == old(calls) + 1
    {
      var failed := Failed();
      if failed {
        return false;
      }
      state := State(Live(state), []);
      history := history + [state];
      ok := true;
    }

    /** link_backup: the first free name of the series. */
    method LinkBackup(base: Name, ghost ino: Inode) returns (backup: Option<Name>, ghost attempt: nat)
      requires Certain(state, base, ino)
      modifies this
      ensures backup.None? ==> state == old(state) && history == old(history)
      ensures calls >= old(calls) && attempt < 10000
      ensures HasFreeBackup(old(state), base) && backup.None? ==> calls > old(calls) && fails(calls - 1)
      ensures backup.Some? ==> && backup.value == BackupName(base, attempt)
                               && backup.value !in Live(old(state))
                               && (forall k :: 0 <= k < attempt ==> BackupName(base, k) in Live(old(state)))
                               && state == old(state).(unsynced := old(state).unsynced
                                                                   + [Write(backup.value, Some(ino))])
                               && history == old(history) + [state]
    {
      hide BackupName;
      CertainIsLive(state, base, ino);
      attempt := 0;
      for i := 0 to MIGRATE_ATTEMPTS
        invariant state == old(state) && history == old(history) && calls == old(calls) + i
        invariant forall k :: 0 <= k < i ==> BackupName(base, k) in Live(old(state))
      {
        var name := BackupName(base, i);
        var r := LinkAt(base, name);
        if r.Linked? {
          return Some(name), i;
        }
        if !r.Exists? {
          return None, 0;
        }
      }
      backup := None;
    }

    /** restore_source: the original name comes back before the backup goes. */
    method RestoreSource(base: Name, backup: Name, ghost ino: Inode) returns (r: RestoreResult)
      requires base != backup && Always(base, backup, ino) && Certain(state, backup, ino)
      modifies this
      ensures Always(base, backup, ino)
      ensures r.RestoreFailed? <==> base in Live(old(state)) || fails(old(calls)) || fails(old(calls) + 1)
      ensures r.RestoreFailed? ==> Certain(state, backup, ino)
      ensures !r.RestoreFailed? ==> Certain(state, base, ino)
      ensures r.RestoreComplete? <==> !r.RestoreFailed? && !fails(old(calls) + 2) && !fails(old(calls) + 3)
      ensures r.RestoreComplete? ==> && state.unsynced == [] && Get(state.durable, base) == Some(ino)
                                     && backup !in state.durable
      ensures forall n :: n != base && n != backup ==> Get(Live(state), n) == Get(Live(old(state)), n)
      ensures calls >= old(calls)
    {
      hide Replay, Live;
      CertainIsLive(state, backup, ino);
      var linked := LinkAt(backup, base);
      if !linked.Linked? {
        return RestoreFailed;
      }
      LiveStep(old(state), Write(base, Some(ino)));
      var synced := Fsync();
      if !synced {
        return RestoreFailed;
      }
      LiveSynced(state.durable);
      label Restored:
      var unlinked := UnlinkAt(backup);
      if !unlinked {
        return RestoreCleanupIncomplete;
      }
      LiveStep(old@Restored(state), Write(backup, None));
      synced := Fsync();
      if !synced {
        return RestoreCleanupIncomplete;
      }
      LiveSynced(state.durable);
      r := RestoreComplete;
    }

    /** The backup could not be made durable or the source not removed: only the backup is taken back. */
    method DropBackup(base: Name, backup: Name, ghost ino: Inode)
      requires base != backup && Always(base, backup, ino) && Certain(state, base, ino)
      modifies this
      ensures Always(base, backup, ino) && Certain(state, base, ino)
      ensures !fails(old(calls)) ==> backup !in Live(state)
      ensures !fails(old(calls) + 1) ==> state.unsynced == []
      ensures forall n :: n != base && n != backup ==> Get(Live(state), n) == Get(Live(old(state)), n)
      ensures calls >= old(calls)
    {
      hide Replay, Live;
      CertainIsLive(state, base, ino);
      var unlinked := UnlinkAt(backup);
      if unlinked {
        LiveStep(old(state), Write(backup, None));
      }
      var synced := Fsync();
      LiveSynced(state.durable);
    }

    /** remove_staging, as far as it touches the directory of the legacy file. */
    method RemoveStaging(staging: Name, ghost base: Name, ghost backup: Name, ghost ino: Inode)
      requires staging != base && staging != backup && Always(base, backup, ino)
      modifies this
      ensures Always(base, backup, ino)
      ensures forall n :: n == base || n == backup ==> (Certain(state, n, ino) <==> Certain(old(state), n, ino))
      ensures !fails(old(calls)) ==> staging !in Live(state)
      ensures forall n :: n != staging ==> Get(Live(state), n) == Get(Live(old(state)), n)
    {
      hide Replay, Live;
      var ok := UnlinkAt(staging);
      if ok {
        LiveStep(old(state), Write(staging, None));
        CertainElsewhere(old(state), Write(staging, None), base, ino);
        CertainElsewhere(old(state), Write(staging, None), backup, ino);
      }
    }

    /**
     afppasswd_migrate_srp from the backup link on. Whatever fails, and wherever the machine stops, the legacy
     inode keeps its name or its backup name.
     */
    method Install(base: Name, pid: nat, ghost ino: Inode, ghost dir: Inode)
      returns (ok: bool, backup: Option<Name>, sourceUnlinked: bool, ghost kept: Name)
      requires Untouched(base, ino) && Get(Live(state), StagingName(base, pid)) == Some(dir)
      modifies this
      ensures kept != base && Always(base, kept, ino)
      ensures IsBackupOf(base, kept)
      ensures ok ==> && backup == Some(kept) && state.unsynced == []
                     && Get(state.durable, base) == Some(dir) && Get(state.durable, kept) == Some(ino)
      ensures !ok && !sourceUnlinked ==> Certain(state, base, ino)
      ensures !ok && sourceUnlinked ==> backup == Some(kept) && Certain(state, kept, ino)
      ensures Reliable() && HasFreeBackup(old(state), base) ==> ok
      ensures AtMostOneFails(old(calls)) && !ok ==>
                && !sourceUnlinked && backup == None
                && (Reliable() || HasFreeBackup(old(state), base) ==> StagingName(base, pid) !in Live(state))
                && forall n :: n != StagingName(base, pid) ==> Get(Live(state), n) == Get(Live(old(state)), n)
    {
      hide Replay, Live, BackupName, StagingName, IsBackupOf;
      var staging := StagingName(base, pid);
      var installed;
      ok, installed, backup, sourceUnlinked, kept := Swap(base, staging, pid, ino, dir);
      if !ok && !installed {
        RemoveStaging(staging, base, kept, ino);
      }
    }

    method Swap(base: Name, staging: Name, ghost pid: nat, ghost ino: Inode, ghost dir: Inode)
      returns (ok: bool, installed: bool, backup: Option<Name>, sourceUnlinked: bool, ghost kept: Name)
      requires staging == StagingName(base, pid)
      requires Untouched(base, ino) && Get(Live(state), staging) == Some(dir)
      modifies this
      ensures kept != base && kept != staging && staging != base && Always(base, kept, ino)
      ensures IsBackupOf(base, kept)
      ensures ok ==> && backup == Some(kept) && state.unsynced == [] && installed
                     && Get(state.durable, base) == Some(dir) && Get(state.durable, kept) == Some(ino)
      ensures !ok && !sourceUnlinked ==> Certain(state, base, ino)
      ensures !ok && sourceUnlinked ==> backup == Some(kept) && Certain(state, kept, ino)
      ensures Reliable() && HasFreeBackup(old(state), base) ==> ok
      ensures AtMostOneFails(old(calls)) && !ok ==>
                && !installed && !sourceUnlinked && backup == None
                && forall n :: n != staging ==> Get(Live(state), n) == Get(Live(old(state)), n)
      ensures calls >= old(calls)
      ensures HasFreeBackup(old(state), base) && !ok ==> exists k :: old(calls) <= k < calls && fails(k)
    {
      hide Replay, Live, BackupName, StagingName, IsBackupOf;
      ok, installed, sourceUnlinked := false, false, false;
      ghost var attempt;
      backup, attempt := LinkBackup(base, ino);
      NamesDiffer(base, attempt, pid);
      BackupSpelling(base, attempt);
      kept := BackupName(base, attempt);
      if backup == None {
        return;
      }
      var name := backup.value;
      LiveStep(old(state), Write(name, Some(ino)));
      CertainIsLive(old(state), base, ino);
      var synced := Fsync();
      if !synced {
        DropBackup(base, name, ino);
        CertainIsLive(state, base, ino);
        backup := None;
        return;
      }
      LiveSynced(state.durable);
      label Backed:
      var unlinked := UnlinkAt(base);
      if !unlinked {
        DropBackup(base, name, ino);
        CertainIsLive(state, base, ino);
        backup := None;
        return;
      }
      sourceUnlinked := true;
      LiveStep(old@Backed(state), Write(base, None));
      ok, installed, sourceUnlinked, backup := Replace(base, name, staging, ino, dir);
      LiveSynced(state.durable);
    }

    /** From the removal of the original name to the last sync, with both rollbacks. */
    method Replace(base: Name, name: Name, staging: Name, ghost ino: Inode, ghost dir: Inode)
      returns (ok: bool, installed: bool, sourceUnlinked: bool, backup: Option<Name>)
      requires base != name && base != staging && name != staging
      requires Always(base, name, ino) && Certain(state, name, ino) && Get(Live(state), staging) == Some(dir)
      modifies this
      ensures Always(base, name, ino)
      ensures ok ==> && backup == Some(name) && state.unsynced == [] && installed
                     && Get(state.durable, base) == Some(dir) && Get(state.durable, name) == Some(ino)
      ensures !ok && !sourceUnlinked ==> Certain(state, base, ino)
      ensures !ok && sourceUnlinked ==> backup == Some(name) && Certain(state, name, ino)
      ensures Reliable() && base !in Live(old(state)) ==> ok
      ensures AtMostOneFails(old(calls)) && base !in Live(old(state)) && !ok ==>
                && !installed && !sourceUnlinked && backup == None
                && state.unsynced == [] && Get(state.durable, base) == Some(ino) && name !in state.durable
                && forall n :: n != base && n != name && n != staging ==>
                                 Get(Live(state), n) == Get(Live(old(state)), n)
      ensures calls >= old(calls)
      ensures base !in Live(old(state)) && !ok ==> exists k :: old(calls) <= k < calls && fails(k)
    {
      hide Replay, Live;
      ok, installed, sourceUnlinked, backup := false, false, true, Some(name);
      CertainIsLive(state, name, ino);
      var renamed := Fsync();
      LiveSynced(state.durable);
      label Synced:
      if renamed {
        renamed := RenameAt(staging, base);
      }
      if !renamed {
        sourceUnlinked, backup := RollBack(base, name, ino);
        return;
      }
      installed := true;
      LiveTwoSteps(old@Synced(state), Write(staging, None), Write(base, Some(dir)));
      var synced := Fsync();
      if !synced {
        label Installed:
        var back := RenameAt(base, staging);
        if back {
          installed := false;
          LiveTwoSteps(old@Installed(state), Write(base, None), Write(staging, Some(dir)));
          sourceUnlinked, backup := RollBack(base, name, ino);
        }
        return;
      }
      ok := true;
    }

    method RollBack(base: Name, name: Name, ghost ino: Inode) returns (sourceUnlinked: bool, backup: Option<Name>)
      requires base != name && Always(base, name, ino) && Certain(state, name, ino)
      modifies this
      ensures Always(base, name, ino)
      ensures sourceUnlinked <==> base in Live(old(state)) || fails(old(calls)) || fails(old(calls) + 1)
      ensures backup == None <==> !sourceUnlinked && !fails(old(calls) + 2) && !fails(old(calls) + 3)
      ensures backup == None ==> state.unsynced == [] && Get(state.durable, base) == Some(ino) && name !in state.durable
      ensures forall n :: n != base && n != name ==> Get(Live(state), n) == Get(Live(old(state)), n)
      ensures calls >= old(calls)
      ensures if sourceUnlinked then backup == Some(name) && Certain(state, name, ino) else Certain(state, base, ino)
    {
      var r := RestoreSource(base, name, ino);
      sourceUnlinked := r == RestoreFailed;
      backup := if r == RestoreComplete then None else Some(name);
    }
  }

  lemma CertainElsewhere(s: State, w: Write, n: Name, ino: Inode)
    requires w.name != n
    ensures Certain(s.(unsynced := s.unsynced + [w]), n, ino) <==> Certain(s, n, ino)
  {
    var t := s.(unsynced := s.unsynced + [w]);
    assert forall i :: 0 <= i < |s.unsynced| ==> t.unsynced[i] == s.unsynced[i];
  }

  lemma LiveSynced(m: map<Name, Inode>)
    ensures Live(State(m, [])) == m
  {
  }

  lemma LiveTwoSteps(s: State, v: Write, w: Write)
    ensures Live(s.(unsynced := s.unsynced + [v, w])) == Put(Put(Live(s), v), w)
  {
    LiveStep(s, v);
    LiveStep(s.(unsynced := s.unsynced + [v]), w);
    assert s.unsynced + [v, w] == (s.unsynced + [v]) + [w];
  }
}
