/** The whole migration of bin/afppasswd/afppasswd_migrate.c: the records and the install protocol together. */
module MigrationRun {
  import opened Bytes
  import opened Migration
  import opened MigrationRecords

  /**
   What the file system answers besides the calls on the directory: the source as it is read first and later,
   whether an earlier run left a staging directory, whether the new one can be prepared and synced, and which
   verifier file fails.
   */
  datatype Source = Source(content: seq<byte>, readError: bool, later: seq<seq<byte>>, laterError: bool, stale: bool,
                           prepared: bool, synced: bool, stillThere: bool, fileFails: nat -> bool)

  /** A file of good lines that stays as it is, and files that can be written. */
  ghost predicate Sound(env: Env, source: Source) {
    && GoodLines(env, Lines(source.content)) && !source.readError && !source.laterError
    && !source.stale && source.prepared && source.synced && source.stillThere
    && Concat(source.later) == source.content && forall i :: !source.fileFails(i)
  }

  lemma BackupStaysFree(before: State, base: Name, pid: nat, dir: Inode)
    ensures HasFreeBackup(before, base) ==>
              HasFreeBackup(before.(unsynced := before.unsynced + [Write(StagingName(base, pid), Some(dir))]), base)
  {
    hide Live, BackupName, StagingName;
    if !HasFreeBackup(before, base) {
      return;
    }
    var k :| 0 <= k < 10000 && BackupName(base, k) !in Live(before);
    NamesDiffer(base, k, pid);
    LiveStep(before, Write(StagingName(base, pid), Some(dir)));
    assert Get(Live(before), BackupName(base, k)) == None;
    var after := before.(unsynced := before.unsynced + [Write(StagingName(base, pid), Some(dir))]);
    assert BackupName(base, k) !in Live(after);
  }

  lemma StagedIsUntouched(before: State, base: Name, staging: Name, ino: Inode, dir: Inode)
    requires base != staging && Certain(before, base, ino)
    ensures var s := before.(unsynced := before.unsynced + [Write(staging, Some(dir))]);
            Certain(s, base, ino) && Get(Live(s), staging) == Some(dir)
  {
    hide Live;
    var w := Write(staging, Some(dir));
    CertainElsewhere(before, w, base, ino);
    LiveStep(before, w);
  }

  /**
   afppasswd_migrate_srp. Whatever fails, the legacy file keeps one of its two names through any crash. On success
   the original name durably names a directory with one verifier file for each line of the legacy file.
   */
  method Migrate(fs: Directory, env: Env, source: Source, admin: uint32, base: Name, pid: nat, dir: Inode,
                 ghost ino: Inode)
      returns (ok: bool, contents: map<Inode, map<string, Verifier>>, ghost kept: Name)
    requires fs.Untouched(base, ino)
    modifies fs
    ensures kept != base && IsBackupOf(base, kept) && fs.Always(base, kept, ino)
    ensures ok ==> && fs.state.unsynced == [] && Get(fs.state.durable, kept) == Some(ino)
                   && Get(fs.state.durable, base) == Some(dir)
                   && dir in contents && Migrated(env, source.content, admin, contents[dir])
                   && Concat(source.later) == source.content
    ensures fs.Reliable() && Sound(env, source) ==>
              HasFreeBackup(old(fs.state), base) && StagingName(base, pid) !in Live(old(fs.state)) ==> ok
    ensures fs.AtMostOneFails(old(fs.calls)) && !ok ==>
              && Certain(fs.state, base, ino)
              && forall n :: n != "." + base + ".migrate." + Decimal(pid) ==>
                               Get(Live(fs.state), n) == Get(Live(old(fs.state)), n)
    ensures fs.Reliable() && !ok && StagingName(base, pid) !in Live(old(fs.state)) ==>
              forall n :: Get(Live(fs.state), n) == Get(Live(old(fs.state)), n)
  {
    hide Live, HasFreeBackup, Migrated, BackupName, StagingName, GoodLines, RecordsOf, Certain, IsBackupOf;
    ok, contents, kept := false, map[], BackupName(base, 0);
    NamesDiffer(base, 0, pid);
    BackupSpelling(base, 0);
    fs.UntouchedIsSafe(base, kept, ino);
    var records := ReadRecords(env, source.content, source.readError);
    if records == None || source.stale {
      return;
    }
    var staging := StagingName(base, pid);
    StagingSpelling(base, pid);
    var made := fs.MkdirAt(staging, dir);
    if !made {
      return;
    }
    StagedIsUntouched(old(fs.state), base, staging, ino, dir);
    LiveStep(old(fs.state), Write(staging, Some(dir)));
    BackupStaysFree(old(fs.state), base, pid, dir);
    fs.UntouchedIsSafe(base, kept, ino);
    if !source.prepared {
      fs.RemoveStaging(staging, base, kept, ino);
      return;
    }
    var staged, files := Stage(env, source.content, records.value, source.later, source.laterError, admin,
                               source.fileFails);
    contents := contents[dir := files];
    if !staged || !source.synced || !source.stillThere {
      fs.RemoveStaging(staging, base, kept, ino);
      return;
    }
    var backup, unlinked;
    ok, backup, unlinked, kept := fs.Install(base, pid, ino, dir);
  }
}
