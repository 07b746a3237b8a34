/** The records that bin/afppasswd/afppasswd_migrate.c reads from the legacy file and writes as one file per user. */
module MigrationRecords {
  import opened Bytes

  const STAR: byte := 42
  const MAX_LINE: nat := 255 + 419  // SRP_USERNAME_MAX_LEN + SRP_FORMAT_LEN

  /** The checks of SRP fields and the user database, which this model takes as given. */
  datatype Env = Env(validUsername: seq<byte> -> bool, validFields: seq<byte> -> bool,
                     lookupUid: seq<byte> -> Option<uint32>)

  datatype Record = Record(line: seq<byte>, sourceLength: nat, username: seq<byte>, uid: uint32)

  // ---- Lines

  function Find(bs: seq<byte>, b: byte): (n: nat)
    ensures n <= |bs| && (n < |bs| ==> bs[n] == b) && forall i :: 0 <= i < n ==> bs[i] != b
  {
    if bs == [] || bs[0] == b then 0 else 1 + Find(bs[1..], b)
  }

  /** The end of the line that starts at `pos`, as getline finds it. */
  function LineEnd(content: seq<byte>, pos: nat): (end: nat)
    requires pos < |content|
    ensures pos < end <= |content| && NEWLINE !in content[pos..end - 1]
    ensures end < |content| ==> content[end - 1] == NEWLINE
  {
    var n := Find(content[pos..], NEWLINE);
    if pos + n < |content| then pos + n + 1 else |content|
  }

  function LinesFrom(content: seq<byte>, pos: nat): (ls: seq<seq<byte>>)
    requires pos <= |content|
    ensures forall i :: 0 <= i < |ls| ==> ls[i] != [] && NEWLINE !in ls[i][..|ls[i]| - 1]
    ensures forall i :: 0 <= i < |ls| - 1 ==> ls[i][|ls[i]| - 1] == NEWLINE
    decreases |content| - pos
  {
    if pos == |content| then []
    else var end := LineEnd(content, pos); [content[pos..end]] + LinesFrom(content, end)
  }

  /** The lines of a file with their newlines; only the last may lack one. */
  function Lines(content: seq<byte>): (ls: seq<seq<byte>>) {
    LinesFrom(content, 0)
  }

  lemma {:induction false} LinesJoin(content: seq<byte>, pos: nat)
    requires pos <= |content|
    ensures Concat(LinesFrom(content, pos)) == content[pos..]
    decreases |content| - pos
  {
    if pos < |content| {
      var end := LineEnd(content, pos);
      LinesJoin(content, end);
      var ls := LinesFrom(content, pos);
      assert ls[1..] == LinesFrom(content, end);
      assert content[pos..] == content[pos..end] + content[end..];
    }
  }

  // ---- Records

  /** A last line without a newline gets one. */
  function Full(line: seq<byte>): (l: seq<byte>)
    requires line != []
    ensures line <= l
  {
    if line[|line| - 1] == NEWLINE then line else line + [NEWLINE]
  }

  predicate GoodLine(env: Env, line: seq<byte>) {
    && line != [] && |line| <= 674
    && var l := Full(line);
       var colon := Find(l, COLON);
       && colon < |l| && NUL !in l
       && env.validUsername(l[..colon]) && env.validFields(l[colon + 1..])
       && env.lookupUid(l[..colon]).Some?
  }

  function RecordOf(env: Env, line: seq<byte>): (r: Record)
    requires GoodLine(env, line)
  {
    var l := Full(line);
    var user := l[..Find(l, COLON)];
    Record(l, |line|, user, env.lookupUid(user).value)
  }

  /** Every line is a record, and no two of them belong to the same user ID. */
  ghost predicate GoodLines(env: Env, ls: seq<seq<byte>>) {
    && (forall i :: 0 <= i < |ls| ==> GoodLine(env, ls[i]))
    && forall i, j :: 0 <= i < j < |ls| ==> RecordOf(env, ls[i]).uid != RecordOf(env, ls[j]).uid
  }

  ghost predicate RecordsOf(env: Env, ls: seq<seq<byte>>, rs: seq<Record>) {
    |rs| == |ls| && forall i :: 0 <= i < |ls| ==> GoodLine(env, ls[i]) && rs[i] == RecordOf(env, ls[i])
  }

  /** add_record: the checks in their order, and the record at the end of the array. */
  method AddRecord(env: Env, records: seq<Record>, line: seq<byte>) returns (r: Option<seq<Record>>)
    requires line != [] && |line| <= MAX_LINE
    requires forall k :: 0 <= k < |records| ==> env.lookupUid(records[k].username) == Some(records[k].uid)
    ensures r.Some? <==> && GoodLine(env, line)
                         && forall k :: 0 <= k < |records| ==> records[k].uid != RecordOf(env, line).uid
    ensures r.Some? ==> r.value == records + [RecordOf(env, line)]
  {
    hide Find;
    var l := Full(line);
    var colon := Find(l, COLON);
    if colon == |l| || NUL in l {
      return None;
    }
    var user := l[..colon];
    if !env.validUsername(user) || !env.validFields(l[colon + 1..]) {
      return None;
    }
    var uid := env.lookupUid(user);
    if uid == None {
      return None;
    }
    for i := 0 to |records|
      invariant forall k :: 0 <= k < i ==> records[k].username != user && records[k].uid != uid.value
    {
      if records[i].username == user {
        assert records[i].uid == uid.value;
        return None;
      }
      if records[i].uid == uid.value {
        return None;
      }
    }
    r := Some(records + [Record(l, |line|, user, uid.value)]);
  }

  /** read_records; `error` is a read that fails behind the content. */
  method ReadRecords(env: Env, content: seq<byte>, error: bool) returns (r: Option<seq<Record>>)
    ensures r.Some? <==> !error && GoodLines(env, Lines(content))
    ensures r.Some? ==> RecordsOf(env, Lines(content), r.value)
  {
    hide LineEnd, GoodLine, RecordOf;
    ghost var all := Lines(content);
    ghost var k := 0;
    var records: seq<Record> := [];
    var pos := 0;
    assert all[0..] == all;
    while pos < |content|
      invariant pos <= |content| && k <= |all| && all[k..] == LinesFrom(content, pos)
      invariant GoodLines(env, all[..k]) && RecordsOf(env, all[..k], records)
      decreases |content| - pos
    {
      var end := LineEnd(content, pos);
      var line := content[pos..end];
      assert line == all[k..][0] == all[k] && all[k..][1..] == all[k + 1..];
      assert all[..k + 1] == all[..k] + [line];
      if |line| > MAX_LINE {
        LongLine(env, line);
        return None;
      }
      KnownUsers(env, all[..k], records);
      var added := AddRecord(env, records, line);
      MoreLines(env, all, k, records);
      if added == None {
        return None;
      }
      records := added.value;
      pos, k := end, k + 1;
    }
    assert all[..k] == all;
    r := if error then None else Some(records);
  }

  lemma LongLine(env: Env, line: seq<byte>)
    requires |line| > MAX_LINE
    ensures !GoodLine(env, line)
  {
  }

  lemma KnownUsers(env: Env, ls: seq<seq<byte>>, rs: seq<Record>)
    requires RecordsOf(env, ls, rs)
    ensures forall k :: 0 <= k < |rs| ==> env.lookupUid(rs[k].username) == Some(rs[k].uid)
  {
    hide Find;
  }

  /** One more line is good when it is a record of its own user ID. */
  lemma MoreLines(env: Env, ls: seq<seq<byte>>, k: nat, rs: seq<Record>)
    requires k < |ls| && GoodLines(env, ls[..k]) && RecordsOf(env, ls[..k], rs)
    ensures GoodLines(env, ls[..k + 1]) <==> && GoodLine(env, ls[k])
                                             && forall i :: 0 <= i < k ==> rs[i].uid != RecordOf(env, ls[k]).uid
    ensures GoodLines(env, ls) ==> GoodLines(env, ls[..k + 1])
    ensures GoodLine(env, ls[k]) ==> RecordsOf(env, ls[..k + 1], rs + [RecordOf(env, ls[k])])
  {
    hide GoodLine, RecordOf;
    assert forall i :: 0 <= i < k ==> ls[..k][i] == ls[i] && ls[..k + 1][i] == ls[i];
    assert ls[..k + 1][k] == ls[k];
  }

  // ---- The second look at the source

  /** What the records say the file held. */
  function SourceBytes(rs: seq<Record>): (bs: seq<byte>)
    requires Sourced(rs)
  {
    if rs == [] then [] else rs[0].line[..rs[0].sourceLength] + SourceBytes(rs[1..])
  }

  predicate Sourced(rs: seq<Record>) {
    forall i :: 0 <= i < |rs| ==> 0 < rs[i].sourceLength <= |rs[i].line|
  }

  /** The bytes that a comparison at this record and offset has still to see. */
  function Ahead(rs: seq<Record>, record: nat, offset: nat): (bs: seq<byte>)
    requires Sourced(rs) && At(rs, record, offset)
  {
    SourceBytes(rs[record..])[offset..]
  }

  lemma AheadStep(rs: seq<Record>, record: nat, offset: nat)
    requires Sourced(rs) && record < |rs| && offset < rs[record].sourceLength
    ensures Ahead(rs, record, offset)
         == [rs[record].line[offset]] + if offset + 1 == rs[record].sourceLength then Ahead(rs, record + 1, 0)
                                        else Ahead(rs, record, offset + 1)
  {
    var r := rs[record];
    assert rs[record..][0] == r && rs[record..][1..] == rs[record + 1..];
    var all := SourceBytes(rs[record..]);
    assert all == r.line[..r.sourceLength] + SourceBytes(rs[record + 1..]);
    assert all[offset] == r.line[offset];
    assert all[offset..] == [all[offset]] + all[offset + 1..];
    if offset + 1 == r.sourceLength {
      assert all[offset + 1..] == SourceBytes(rs[record + 1..]);
    }
  }

  predicate At(rs: seq<Record>, record: nat, offset: nat) {
    record <= |rs| && if record < |rs| then offset < rs[record].sourceLength else offset == 0
  }

  /** The inner loop of source_unchanged: one buffer against the records. */
  method CompareBuffer(buffer: seq<byte>, rs: seq<Record>, record0: nat, offset0: nat)
    returns (ok: bool, record: nat, offset: nat)
    requires Sourced(rs) && At(rs, record0, offset0)
    ensures At(rs, record, offset)
    ensures ok <==> buffer <= Ahead(rs, record0, offset0)
    ensures ok ==> Ahead(rs, record0, offset0) == buffer + Ahead(rs, record, offset)
  {
    hide Ahead;
    record, offset := record0, offset0;
    ghost var all := Ahead(rs, record0, offset0);
    for i := 0 to |buffer|
      invariant At(rs, record, offset) && all == buffer[..i] + Ahead(rs, record, offset)
    {
      assert buffer[..i + 1] == buffer[..i] + [buffer[i]];
      if record >= |rs| {
        NothingAhead(rs);
        return false, record, offset;
      }
      AheadStep(rs, record, offset);
      if buffer[i] != rs[record].line[offset] {
        assert all[i] == rs[record].line[offset];
        return false, record, offset;
      }
      offset := offset + 1;
      if offset == rs[record].sourceLength {
        record, offset := record + 1, 0;
      }
    }
    assert buffer[..|buffer|] == buffer;
    ok := true;
  }

  /** source_unchanged, for every way the reads may split the file; `error` is a read that fails at the end. */
  method SourceUnchanged(chunks: seq<seq<byte>>, error: bool, rs: seq<Record>) returns (same: bool)
    requires Sourced(rs)
    ensures same <==> !error && Concat(chunks) == SourceBytes(rs)
  {
    hide SourceBytes, Ahead, Concat;
    var record: nat, offset: nat := 0, 0;
    WholeAhead(rs);
    ConcatNone(chunks);
    for c := 0 to |chunks|
      invariant At(rs, record, offset) && SourceBytes(rs) == Concat(chunks[..c]) + Ahead(rs, record, offset)
    {
      ghost var seen, ahead := Concat(chunks[..c]), Ahead(rs, record, offset);
      assert chunks[..c + 1] == chunks[..c] + [chunks[c]];
      ConcatAppend(chunks[..c], chunks[c]);
      ConcatPrefix(chunks, c + 1);
      var ok;
      ok, record, offset := CompareBuffer(chunks[c], rs, record, offset);
      if !ok {
        PrefixCancels(seen, chunks[c], ahead);
        return false;
      }
      assert seen + (chunks[c] + Ahead(rs, record, offset)) == (seen + chunks[c]) + Ahead(rs, record, offset);
    }
    assert chunks[..|chunks|] == chunks;
    NothingAhead(rs);
    if record < |rs| {
      AheadStep(rs, record, offset);
    }
    same := !error && record == |rs| && offset == 0;
  }

  lemma PrefixCancels(seen: seq<byte>, buffer: seq<byte>, ahead: seq<byte>)
    ensures seen + buffer <= seen + ahead ==> buffer <= ahead
  {
    if seen + buffer <= seen + ahead {
      assert forall i :: 0 <= i < |buffer| ==> buffer[i] == (seen + buffer)[|seen| + i] == (seen + ahead)[|seen| + i];
    }
  }

  lemma WholeAhead(rs: seq<Record>)
    requires Sourced(rs)
    ensures At(rs, 0, 0) && Ahead(rs, 0, 0) == SourceBytes(rs)
  {
    assert rs[0..] == rs;
  }

  lemma ConcatNone(chunks: seq<seq<byte>>)
    ensures Concat(chunks[..0]) == []
  {
  }

  lemma NothingAhead(rs: seq<Record>)
    requires Sourced(rs)
    ensures Ahead(rs, |rs|, 0) == []
  {
  }

  lemma {:induction false} ConcatPrefix(chunks: seq<seq<byte>>, i: nat)
    requires i <= |chunks|
    ensures Concat(chunks[..i]) <= Concat(chunks)
  {
    if i > 0 {
      ConcatPrefix(chunks[1..], i - 1);
      assert chunks[..i][1..] == chunks[1..][..i - 1];
    }
  }

  lemma {:induction false} RecordsKeepSource(env: Env, ls: seq<seq<byte>>, rs: seq<Record>)
    requires RecordsOf(env, ls, rs)
    ensures Sourced(rs) && SourceBytes(rs) == Concat(ls)
  {
    hide Find;
    if ls != [] {
      var l := Full(ls[0]);
      assert rs[0].line[..rs[0].sourceLength] == ls[0];
      RecordsKeepSource(env, ls[1..], rs[1..]);
    }
  }

  // ---- Verifier files

  datatype Verifier = Verifier(content: seq<byte>, owner: uint32)

  /** A disabled record stays with the administrator. */
  function OwnerOf(r: Record, admin: uint32): (owner: uint32) {
    var colon := Find(r.line, COLON);
    if colon + 1 < |r.line| && r.line[colon + 1] == STAR then admin else r.uid
  }

  ghost predicate HasAll(dir: map<string, Verifier>, rs: seq<Record>, admin: uint32) {
    forall r :: r in rs ==> Decimal(r.uid) in dir && dir[Decimal(r.uid)] == Verifier(r.line, OwnerOf(r, admin))
  }

  ghost predicate HasOnly(dir: map<string, Verifier>, rs: seq<Record>) {
    forall n :: n in dir ==> exists r :: r in rs && Decimal(r.uid) == n
  }

  /** The directory holds one file for each record and nothing else. */
  ghost predicate Holds(dir: map<string, Verifier>, rs: seq<Record>, admin: uint32) {
    HasAll(dir, rs, admin) && HasOnly(dir, rs) && |dir| == |rs|
  }

  /**
   create_verifiers in an empty directory. `fails` says for which record a call fails; the exclusive creation
   itself never meets a file of the same run.
   */
  method CreateVerifiers(rs: seq<Record>, admin: uint32, fails: nat -> bool)
      returns (ok: bool, dir: map<string, Verifier>)
    requires forall i, j :: 0 <= i < j < |rs| ==> rs[i].uid != rs[j].uid
    ensures ok <==> forall i :: 0 <= i < |rs| ==> !fails(i)
    ensures ok ==> Holds(dir, rs, admin)
  {
    hide Decimal, OwnerOf, HasAll, HasOnly;
    dir := map[];
    HoldsNothing(admin);
    for i := 0 to |rs|
      invariant forall k :: 0 <= k < i ==> !fails(k)
      invariant Holds(dir, rs[..i], admin)
    {
      var name := Decimal(rs[i].uid);
      NewName(dir, rs[..i], rs[i].uid);
      assert name !in dir;
      if fails(i) {
        return false, dir;
      }
      HoldsMore(dir, rs[..i], rs[i], admin);
      dir := dir[name := Verifier(rs[i].line, OwnerOf(rs[i], admin))];
      assert rs[..i + 1] == rs[..i] + [rs[i]];
    }
    assert rs[..|rs|] == rs;
    ok := true;
  }

  lemma HoldsNothing(admin: uint32)
    ensures Holds(map[], [], admin)
  {
  }

  /** A user ID of its own gives a name of its own. */
  lemma NewName(dir: map<string, Verifier>, rs: seq<Record>, uid: uint32)
    requires HasOnly(dir, rs) && forall r :: r in rs ==> r.uid != uid
    ensures Decimal(uid) !in dir
  {
    hide Decimal;
    if Decimal(uid) in dir {
      var r :| r in rs && Decimal(r.uid) == Decimal(uid);
      DecimalInjective(r.uid, uid);
    }
  }

  lemma HoldsMore(dir: map<string, Verifier>, rs: seq<Record>, r: Record, admin: uint32)
    requires Holds(dir, rs, admin) && Decimal(r.uid) !in dir
    ensures Holds(dir[Decimal(r.uid) := Verifier(r.line, OwnerOf(r, admin))], rs + [r], admin)
  {
    hide Decimal, OwnerOf;
    var more := dir[Decimal(r.uid) := Verifier(r.line, OwnerOf(r, admin))];
    forall q | q in rs + [r]
      ensures Decimal(q.uid) in more && more[Decimal(q.uid)] == Verifier(q.line, OwnerOf(q, admin))
    {
      assert q in rs || q == r;
    }
    forall n | n in more
      ensures exists q :: q in rs + [r] && Decimal(q.uid) == n
    {
      if n in dir {
        var q :| q in rs && Decimal(q.uid) == n;
        assert q in rs + [r];
      } else {
        assert r in rs + [r];
      }
    }
  }

  /** What a migration of this file is to leave in the new directory: one file per line, and no other. */
  ghost predicate Migrated(env: Env, content: seq<byte>, admin: uint32, dir: map<string, Verifier>) {
    GoodLines(env, Lines(content))
    && exists rs :: RecordsOf(env, Lines(content), rs) && Holds(dir, rs, admin)
  }

  /** The files of the staging directory, and the second look at the source after them. */
  method Stage(env: Env, ghost content: seq<byte>, rs: seq<Record>, later: seq<seq<byte>>, error: bool, admin: uint32,
               fails: nat -> bool)
      returns (ok: bool, dir: map<string, Verifier>)
    requires GoodLines(env, Lines(content)) && RecordsOf(env, Lines(content), rs)
    ensures ok <==> (forall i :: 0 <= i < |rs| ==> !fails(i)) && !error && Concat(later) == content
    ensures ok ==> Migrated(env, content, admin, dir)
  {
    hide Holds, Lines, GoodLine, RecordOf, SourceBytes;
    ok, dir := CreateVerifiers(rs, admin, fails);
    if !ok {
      return;
    }
    RecordsKeepSource(env, Lines(content), rs);
    WholeFile(content);
    ok := SourceUnchanged(later, error, rs);
  }

  lemma WholeFile(content: seq<byte>)
    ensures Concat(Lines(content)) == content
  {
    LinesJoin(content, 0);
    assert content[0..] == content;
  }

  /**
   What a finished migration holds for one line, a name in front of its first colon and fields behind it: a file
   under the number of the user, with the line and its newline, which a last line may lack. A star in front of the
   fields gives it to the administrator.
   */
  lemma FileOfLine(env: Env, content: seq<byte>, admin: uint32, dir: map<string, Verifier>,
                   i: nat, user: seq<byte>, fields: seq<byte>)
    requires Migrated(env, content, admin, dir) && i < |Lines(content)| && 58 !in user && 10 !in fields
    requires Lines(content)[i] in {user + [58] + fields, user + [58] + fields + [10]}
    ensures env.lookupUid(user).Some?
    ensures var uid := env.lookupUid(user).value;
            var owner := if fields != [] && fields[0] == 42 then admin else uid;
            Decimal(uid) in dir && dir[Decimal(uid)] == Verifier(user + [58] + fields + [10], owner)
  {
    hide Find, Decimal, Lines, OwnerOf, Full, GoodLines;
    var line, l := Lines(content)[i], user + [58] + fields + [10];
    WholeLine(line, user + [58] + fields);
    LineParts(l, user, fields);
    var rs :| RecordsOf(env, Lines(content), rs) && Holds(dir, rs, admin);
    assert rs[i] in rs && rs[i] == RecordOf(env, line);
    OwnerOfParts(rs[i], user, fields, admin);
  }

  lemma WholeLine(line: seq<byte>, start: seq<byte>)
    requires line in {start, start + [10]} && start != [] && start[|start| - 1] != 10
    ensures line != [] && Full(line) == start + [10]
  {
  }

  lemma LineParts(l: seq<byte>, user: seq<byte>, fields: seq<byte>)
    requires 58 !in user && l == user + [58] + fields + [10]
    ensures Find(l, COLON) == |user| && l[..|user|] == user
    ensures l[|user| + 1] == if fields == [] then 10 else fields[0]
  {
    hide Find;
    assert l[|user|] == 58;
    assert forall i :: 0 <= i < |user| ==> l[i] == user[i];
  }

  lemma OwnerOfParts(r: Record, user: seq<byte>, fields: seq<byte>, admin: uint32)
    requires 58 !in user && r.line == user + [58] + fields + [10]
    ensures OwnerOf(r, admin) == if fields != [] && fields[0] == 42 then admin else r.uid
  {
    hide Find;
    LineParts(r.line, user, fields);
  }
}
