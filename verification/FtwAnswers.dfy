/** What the answers of a callback do to the rest of a walk, for every callback. */
module FtwAnswers {
  import opened Bytes
  import opened FtwSpec
  import opened FtwCover

  /**
   Where an answer other than 0 ends the reports. With FTW_ACTIONRETVAL, 2 closes what lies below the object and 3
   the rest of its directory. Every other answer ends the walk.
   */
  function Region(cfg: Config, e: Event, answer: int): (prefix: Path) {
    if !cfg.actionRetval || e.Up? || !(0 <= e.base <= |e.path|) then []
    else if answer == 2 then e.path + [47]
    else if answer == 3 then e.path[..e.base]
    else []
  }

  /** The answer to the report at position `i`. */
  function AnswerAt(cfg: Config, trace: seq<Event>, i: nat): (a: int)
    requires i < |trace|
  {
    cfg.answer(trace[..i + 1])
  }

  predicate Objects(cfg: Config, trace: seq<Event>, i: nat)
    requires i < |trace|
  {
    trace[i].Call? && AnswerAt(cfg, trace, i) != 0
  }

  function RegionAt(cfg: Config, trace: seq<Event>, i: nat): (prefix: Path)
    requires i < |trace|
  {
    Region(cfg, trace[i], AnswerAt(cfg, trace, i))
  }

  /** No report from position `n` on lies where an answer from there on has ended the reports. */
  ghost predicate Obeyed(cfg: Config, n: nat, trace: seq<Event>) {
    forall i, j :: n <= i < j < |trace| && Objects(cfg, trace, i) && trace[j].Call? ==>
                     !(RegionAt(cfg, trace, i) <= trace[j].path)
  }

  /** The answers from position `n` on close only regions below this path. */
  ghost predicate Confined(cfg: Config, n: nat, trace: seq<Event>, path: Path) {
    forall i :: n <= i < |trace| && Objects(cfg, trace, i) ==> path <= RegionAt(cfg, trace, i)
  }

  /** An answer that ends the walk. */
  predicate Stops(cfg: Config, answer: int) {
    answer != 0 && !(cfg.actionRetval && answer in {2, 3})
  }

  /** An answer that ends the walk is its result. */
  ghost predicate Returned(cfg: Config, n: nat, trace: seq<Event>, result: int) {
    forall i :: n <= i < |trace| && trace[i].Call? && Stops(cfg, AnswerAt(cfg, trace, i)) ==>
                  result == AnswerAt(cfg, trace, i)
  }

  /** The path itself, or one that goes on from it behind a slash. */
  predicate Continues(path: Path, longer: Path) {
    path <= longer && (|longer| == |path| || longer[|path|] == 47)
  }

  ghost predicate Inside(n: nat, trace: seq<Event>, path: Path) {
    forall j :: n <= j < |trace| && trace[j].Call? ==> Continues(path, trace[j].path)
  }

  ghost predicate InEntries(n: nat, trace: seq<Event>, path: Path, entries: seq<Entry>, k: nat) {
    forall j :: n <= j < |trace| && trace[j].Call? ==>
                  exists m :: k <= m < |entries| && Continues(path + [47] + entries[m].name, trace[j].path)
  }

  // ---- Traces that grow

  lemma SameAnswers(cfg: Config, trace: seq<Event>, more: seq<Event>, i: nat)
    requires trace <= more && i < |trace|
    ensures AnswerAt(cfg, more, i) == AnswerAt(cfg, trace, i)
    ensures Objects(cfg, more, i) == Objects(cfg, trace, i) && RegionAt(cfg, more, i) == RegionAt(cfg, trace, i)
  {
    assert more[..i + 1] == trace[..i + 1];
  }

  /** Events after a result that goes on: the answer of the last becomes the result. */
  lemma ReturnedNext(cfg: Config, n: nat, trace: seq<Event>, result: int, e: Event)
    requires n <= |trace| && Returned(cfg, n, trace, result)
    ensures !Stops(cfg, result) ==>
              Returned(cfg, n, trace + [e], if e.Call? then cfg.answer(trace + [e]) else result)
    ensures e.Up? ==> Returned(cfg, n, trace + [e], result)
  {
    var more := trace + [e];
    forall i | 0 <= i < |trace|
      ensures AnswerAt(cfg, more, i) == AnswerAt(cfg, trace, i)
    {
      SameAnswers(cfg, trace, more, i);
    }
    assert more[..|trace| + 1] == more;
  }

  lemma ReturnedLater(cfg: Config, n: nat, trace: seq<Event>, result: int, more: seq<Event>, later: int)
    requires n <= |trace| && trace <= more && Returned(cfg, n, trace, result) && !Stops(cfg, result)
    requires Returned(cfg, |trace|, more, later)
    ensures Returned(cfg, n, more, later)
  {
    forall i | 0 <= i < |trace|
      ensures AnswerAt(cfg, more, i) == AnswerAt(cfg, trace, i)
    {
      SameAnswers(cfg, trace, more, i);
    }
  }

  /** A skip is not a stop, so a result may be taken for another that goes on. */
  lemma ReturnedSkip(cfg: Config, n: nat, trace: seq<Event>, result: int, instead: int)
    requires Returned(cfg, n, trace, result) && !Stops(cfg, result)
    ensures Returned(cfg, n, trace, instead)
  {
  }

  /** A further report that lies in none of the closed regions. */
  lemma OneMoreCall(cfg: Config, n: nat, trace: seq<Event>, e: Event, closed: Path, bound: Path)
    requires n <= |trace| && Obeyed(cfg, n, trace) && Confined(cfg, n, trace, closed)
    requires e.Call? && !(closed <= e.path) && bound <= closed
    requires var a := cfg.answer(trace + [e]); a == 0 || bound <= Region(cfg, e, a)
    ensures Obeyed(cfg, n, trace + [e]) && Confined(cfg, n, trace + [e], bound)
  {
    hide Region;
    var more := trace + [e];
    assert more[..|trace| + 1] == more;
    forall i | n <= i < |trace|
      ensures Objects(cfg, more, i) == Objects(cfg, trace, i) && RegionAt(cfg, more, i) == RegionAt(cfg, trace, i)
    {
      SameAnswers(cfg, trace, more, i);
    }
    hide Objects, RegionAt;
    assert Objects(cfg, more, |trace|) ==> bound <= RegionAt(cfg, more, |trace|) by {
      LastAnswer(cfg, trace, e);
    }
  }

  lemma LastAnswer(cfg: Config, trace: seq<Event>, e: Event)
    requires e.Call?
    ensures var more, a := trace + [e], cfg.answer(trace + [e]);
            && Objects(cfg, more, |trace|) == (a != 0)
            && RegionAt(cfg, more, |trace|) == Region(cfg, e, a)
  {
    assert (trace + [e])[..|trace| + 1] == trace + [e];
  }

  lemma OneMoreUp(cfg: Config, n: nat, trace: seq<Event>, bound: Path)
    requires n <= |trace|
    ensures Obeyed(cfg, n, trace) ==> Obeyed(cfg, n, trace + [Up])
    ensures Confined(cfg, n, trace, bound) ==> Confined(cfg, n, trace + [Up], bound)
  {
    var more := trace + [Up];
    forall i | n <= i < |trace|
      ensures Objects(cfg, more, i) == Objects(cfg, trace, i) && RegionAt(cfg, more, i) == RegionAt(cfg, trace, i)
    {
      SameAnswers(cfg, trace, more, i);
    }
  }

  /** Two parts of a walk, the second of which stays out of the regions that the first has closed. */
  lemma TwoParts(cfg: Config, n: nat, trace: seq<Event>, more: seq<Event>, closed: Path, bound: Path)
    requires n <= |trace| && trace <= more && Obeyed(cfg, n, trace) && Obeyed(cfg, |trace|, more)
    requires Confined(cfg, n, trace, closed) && bound <= closed
    requires forall j :: |trace| <= j < |more| && more[j].Call? ==> !(closed <= more[j].path)
    ensures Obeyed(cfg, n, more)
    ensures Confined(cfg, |trace|, more, bound) ==> Confined(cfg, n, more, bound)
  {
    forall i | n <= i < |trace|
      ensures Objects(cfg, more, i) == Objects(cfg, trace, i) && RegionAt(cfg, more, i) == RegionAt(cfg, trace, i)
    {
      SameAnswers(cfg, trace, more, i);
    }
  }

  lemma OneReport(cfg: Config, trace: seq<Event>, e: Event, bound: Path)
    requires e.Call?
    ensures Obeyed(cfg, |trace|, trace + [e])
    ensures var a := cfg.answer(trace + [e]); a == 0 || bound <= Region(cfg, e, a) ==>
              Confined(cfg, |trace|, trace + [e], bound)
  {
    hide Region, RegionAt, Objects;
    LastAnswer(cfg, trace, e);
  }

  // ---- The walk

  /** What the walk of one object leaves behind. `prefix` is the path of its directory with a slash. */
  ghost predicate ObjectClosed(cfg: Config, trace: seq<Event>, o: Outcome, path: Path, prefix: Path) {
    && trace <= o.trace && Obeyed(cfg, |trace|, o.trace) && Inside(|trace|, o.trace, path)
    && Returned(cfg, |trace|, o.trace, o.result)
    && (o.result == 0 || (cfg.actionRetval && o.result == 2) ==> Confined(cfg, |trace|, o.trace, path + [47]))
    && (cfg.actionRetval && o.result == 3 ==> Confined(cfg, |trace|, o.trace, prefix))
  }

  lemma ReportCloses(cfg: Config, e: Event, trace: seq<Event>)
    requires e.Call? && 0 <= e.base <= |e.path|
    ensures ObjectClosed(cfg, trace, Report(cfg, e, trace), e.path, e.path[..e.base])
  {
    hide Obeyed, Confined;
    OneReport(cfg, trace, e, e.path + [47]);
    OneReport(cfg, trace, e, e.path[..e.base]);
    assert Returned(cfg, |trace|, trace, 0);
    ReturnedNext(cfg, |trace|, trace, 0, e);
  }

  /** What the walk of the entries from `k` on leaves behind. */
  ghost predicate EntriesClosed(cfg: Config, trace: seq<Event>, o: Outcome, path: Path, entries: seq<Entry>, k: nat) {
    && trace <= o.trace && Obeyed(cfg, |trace|, o.trace) && InEntries(|trace|, o.trace, path, entries, k)
    && Returned(cfg, |trace|, o.trace, o.result)
    && (o.result == 0 || (cfg.actionRetval && o.result == 3) ==> Confined(cfg, |trace|, o.trace, path + [47]))
    && (cfg.actionRetval ==> o.result != 2)
  }

  lemma {:induction false} DirCloses(cfg: Config, path: Path, level: int, base: int, node: Node, trace: seq<Event>)
    requires node.Dir? && PlainTree(node) && 0 <= base <= |path|
    ensures ObjectClosed(cfg, trace, WalkDir(cfg, path, level, base, node, trace), path, path[..base])
    decreases node, 1
  {
    hide PlainTree, ObjectClosed, EntriesClosed, WalkEntries;
    var o := WalkDir(cfg, path, level, base, node, trace);
    ReportCloses(cfg, Call(path, FTW_DNR, level, base), trace);
    ReportCloses(cfg, Call(path, FTW_D, level, base), trace);
    QuietCloses(cfg, trace, path, path[..base]);
    var before := if cfg.depth then trace else trace + [Call(path, FTW_D, level, base)];
    if node.access.Readable? && (cfg.depth || cfg.answer(before) == 0) {
      var inside := WalkEntries(cfg, path + [SLASH], level + 1, node.entries, before);
      EntriesClose(cfg, path, level, node, 0, before);
      assert node.entries[0..] == node.entries;
      if cfg.depth {
        FinishCloses(cfg, path, level, base, node.entries, trace, inside);
      } else {
        FirstPart(cfg, path, level, base, node.entries, trace, inside);
      }
    }
  }

  lemma EntriesAreInside(n: nat, trace: seq<Event>, path: Path, entries: seq<Entry>, k: nat)
    requires InEntries(n, trace, path, entries, k)
    ensures Inside(n, trace, path) && forall j :: n <= j < |trace| && trace[j].Call? ==> trace[j].path != path
  {
  }

  /** With FTW_DEPTH the entries come first, and then the directory. */
  lemma FinishCloses(cfg: Config, path: Path, level: int, base: int, entries: seq<Entry>, trace: seq<Event>,
                     inside: Outcome)
    requires cfg.depth && EntriesClosed(cfg, trace, inside, path, entries, 0) && 0 <= base <= |path|
    ensures ObjectClosed(cfg, trace, FinishDir(cfg, path, level, base, inside), path, path[..base])
  {
    hide Obeyed, Confined, Inside, InEntries, Region, Returned;
    var n := |trace|;
    var up, e := inside.trace + [Up], Call(path, FTW_DP, level, base);
    EntriesAreInside(n, inside.trace, path, entries, 0);
    OneMoreUp(cfg, n, inside.trace, path + [47]);
    InsideMore(n, inside.trace, Up, path);
    InsideMore(n, up, e, path);
    var r := if cfg.actionRetval && inside.result == FTW_SKIP_SIBLINGS then 0 else inside.result;
    ReturnedNext(cfg, n, inside.trace, inside.result, Up);
    if r != inside.result {
      ReturnedSkip(cfg, n, up, inside.result, r);
    }
    if r == 0 {
      ReturnedNext(cfg, n, up, r, e);
      var a := cfg.answer(up + [e]);
      RegionOf(cfg, e, a);
      if a == 0 || (cfg.actionRetval && a == 2) {
        OneMoreCall(cfg, n, up, e, path + [47], path + [47]);
      } else if cfg.actionRetval && a == 3 {
        OneMoreCall(cfg, n, up, e, path + [47], path[..base]);
      } else {
        OneMoreCall(cfg, n, up, e, path + [47], []);
      }
    }
  }

  lemma RegionOf(cfg: Config, e: Event, a: int)
    requires e.Call? && 0 <= e.base <= |e.path|
    ensures [] <= Region(cfg, e, a)
    ensures cfg.actionRetval && a == 2 ==> Region(cfg, e, a) == e.path + [47]
    ensures cfg.actionRetval && a == 3 ==> Region(cfg, e, a) == e.path[..e.base]
  {
  }

  lemma InsideMore(n: nat, trace: seq<Event>, e: Event, path: Path)
    requires Inside(n, trace, path) && (e.Call? ==> Continues(path, e.path))
    ensures Inside(n, trace + [e], path)
  {
  }

  /** Without FTW_DEPTH the directory comes first, and its answer was 0. */
  lemma FirstPart(cfg: Config, path: Path, level: int, base: int, entries: seq<Entry>, trace: seq<Event>,
                  inside: Outcome)
    requires !cfg.depth && 0 <= base <= |path|
    requires var before := trace + [Call(path, FTW_D, level, base)];
             cfg.answer(before) == 0 && EntriesClosed(cfg, before, inside, path, entries, 0)
    ensures ObjectClosed(cfg, trace, FinishDir(cfg, path, level, base, inside), path, path[..base])
  {
    hide Obeyed, Confined, Inside, InEntries, Region, Returned;
    var n, e := |trace|, Call(path, FTW_D, level, base);
    var before := trace + [e];
    NoneReturned(cfg, trace);
    ReturnedNext(cfg, n, trace, 0, e);
    ReturnedLater(cfg, n, before, 0, inside.trace, inside.result);
    ReturnedNext(cfg, n, inside.trace, inside.result, Up);
    if cfg.actionRetval && inside.result == FTW_SKIP_SIBLINGS {
      ReturnedSkip(cfg, n, inside.trace + [Up], inside.result, 0);
    }
    EntriesAreInside(n + 1, inside.trace, path, entries, 0);
    FirstCounts(cfg, trace, e, inside.trace, path + [47]);
    OneMoreUp(cfg, n, inside.trace, path + [47]);
    InsideMore(n, inside.trace, Up, path);
  }

  lemma NoneReturned(cfg: Config, trace: seq<Event>)
    ensures Returned(cfg, |trace|, trace, 0)
  {
  }

  lemma FirstCounts(cfg: Config, trace: seq<Event>, e: Event, more: seq<Event>, bound: Path)
    requires e.Call? && trace + [e] <= more && cfg.answer(trace + [e]) == 0 && Inside(|trace| + 1, more, e.path)
    requires Obeyed(cfg, |trace| + 1, more)
    ensures Obeyed(cfg, |trace|, more) && Inside(|trace|, more, e.path)
    ensures Confined(cfg, |trace| + 1, more, bound) ==> Confined(cfg, |trace|, more, bound)
  {
    hide RegionAt;
    var n := |trace|;
    SameAnswers(cfg, trace + [e], more, n);
    LastAnswer(cfg, trace, e);
    assert more[n] == e;
  }

  lemma PlainEntry(node: Node, k: nat)
    requires node.Dir? && node.access.Readable? && k < |node.entries| && PlainTree(node)
    ensures IsDots(node.entries[k].name) || PlainTree(node.entries[k].node)
    ensures forall m :: k < m < |node.entries| ==>
                          node.entries[m].name != node.entries[k].name && 47 !in node.entries[m].name
    ensures 47 !in node.entries[k].name
  {
    hide IsDots;
    assert node.entries[k] in node.entries;
    forall m | k < m < |node.entries|
      ensures node.entries[m].name != node.entries[k].name && 47 !in node.entries[m].name
    {
      assert node.entries[m] in node.entries;
    }
  }

  lemma {:induction false} EntriesClose(cfg: Config, path: Path, level: int, node: Node, k: nat, trace: seq<Event>)
    requires node.Dir? && node.access.Readable? && PlainTree(node) && k <= |node.entries|
    ensures EntriesClosed(cfg, trace, WalkEntries(cfg, path + [SLASH], level + 1, node.entries[k..], trace),
                          path, node.entries, k)
    decreases node, 0, |node.entries| - k
  {
    hide PlainTree, ObjectClosed, EntriesClosed, WalkEntry;
    var prefix := path + [SLASH];
    EntriesStep(cfg, prefix, level + 1, node.entries, k, trace);
    if k == |node.entries| {
      NoEntriesClose(cfg, trace, path, node.entries, k);
    } else {
      var entry := node.entries[k];
      var first := WalkEntry(cfg, prefix, level + 1, entry, trace);
      EntryCloses(cfg, path, level, node, k, trace);
      PlainEntry(node, k);
      if first.result != 0 {
        OneEntryCloses(cfg, trace, first, path, node.entries, k);
      } else {
        EntriesClose(cfg, path, level, node, k + 1, first.trace);
        MoreEntriesClose(cfg, trace, first, WalkEntries(cfg, prefix, level + 1, node.entries[k + 1..], first.trace),
                         path, node.entries, k);
      }
    }
  }

  lemma NoEntriesClose(cfg: Config, trace: seq<Event>, path: Path, entries: seq<Entry>, k: nat)
    ensures EntriesClosed(cfg, trace, Outcome(0, trace), path, entries, k)
  {
  }

  lemma OneEntryCloses(cfg: Config, trace: seq<Event>, o: Outcome, path: Path, entries: seq<Entry>, k: nat)
    requires k < |entries| && ObjectClosed(cfg, trace, o, path + [47] + entries[k].name, path + [47])
    requires o.result != 0 && (cfg.actionRetval ==> o.result != 2)
    ensures EntriesClosed(cfg, trace, o, path, entries, k)
  {
    hide Obeyed, Confined;
  }

  lemma MoreEntriesClose(cfg: Config, trace: seq<Event>, first: Outcome, o: Outcome, path: Path,
                         entries: seq<Entry>, k: nat)
    requires k < |entries| && first.result == 0
    requires ObjectClosed(cfg, trace, first, path + [47] + entries[k].name, path + [47])
    requires EntriesClosed(cfg, first.trace, o, path, entries, k + 1)
    requires 47 !in entries[k].name
    requires forall m :: k < m < |entries| ==> entries[m].name != entries[k].name && 47 !in entries[m].name
    ensures EntriesClosed(cfg, trace, o, path, entries, k)
  {
    hide Obeyed, Confined;
    var closed := path + [47] + entries[k].name + [47];
    forall j | |first.trace| <= j < |o.trace| && o.trace[j].Call?
      ensures !(closed <= o.trace[j].path)
    {
      var m :| k + 1 <= m < |entries| && Continues(path + [47] + entries[m].name, o.trace[j].path);
      if closed <= o.trace[j].path {
        SameName(path + [47], entries[k].name, entries[m].name, o.trace[j].path);
      }
    }
    assert path + [47] <= closed;
    TwoParts(cfg, |trace|, first.trace, o.trace, closed, path + [47]);
    ReturnedLater(cfg, |trace|, first.trace, 0, o.trace, o.result);
    WithFirst(trace, first.trace, o.trace, path, entries, k);
  }

  lemma WithFirst(trace: seq<Event>, first: seq<Event>, more: seq<Event>, path: Path, entries: seq<Entry>, k: nat)
    requires k < |entries| && trace <= first <= more && Inside(|trace|, first, path + [47] + entries[k].name)
    requires InEntries(|first|, more, path, entries, k + 1)
    ensures InEntries(|trace|, more, path, entries, k)
  {
    forall j | |trace| <= j < |more| && more[j].Call?
      ensures exists m :: k <= m < |entries| && Continues(path + [47] + entries[m].name, more[j].path)
    {
      if j < |first| {
        assert first[j] == more[j];
        assert Continues(path + [47] + entries[k].name, more[j].path);
      } else {
        var m :| k + 1 <= m < |entries| && Continues(path + [47] + entries[m].name, more[j].path);
      }
    }
  }

  lemma {:induction false} EntryCloses(cfg: Config, path: Path, level: int, node: Node, k: nat, trace: seq<Event>)
    requires node.Dir? && node.access.Readable? && PlainTree(node) && k < |node.entries|
    ensures var o := WalkEntry(cfg, path + [SLASH], level + 1, node.entries[k], trace);
            && ObjectClosed(cfg, trace, o, path + [47] + node.entries[k].name, path + [47])
            && (cfg.actionRetval ==> o.result != 2)
    decreases node, 0, 0
  {
    hide PlainTree, WalkDir, Obeyed, Confined;
    var entry, prefix := node.entries[k], path + [SLASH];
    var p := prefix + entry.name;
    assert p[..|prefix|] == prefix;
    PlainEntry(node, k);
    QuietCloses(cfg, trace, p, prefix);
    if !IsDots(entry.name) {
      if entry.node.Dir? {
        DirCloses(cfg, p, level + 1, |prefix|, entry.node, trace);
      } else {
        ReportCloses(cfg, Call(p, FlagOf(entry.node), level + 1, |prefix|), trace);
      }
      SkipReturns(cfg, |trace|, WalkEntry(cfg, prefix, level + 1, entry, trace).trace);
    }
  }

  lemma QuietCloses(cfg: Config, trace: seq<Event>, path: Path, prefix: Path)
    ensures ObjectClosed(cfg, trace, Outcome(0, trace), path, prefix)
    ensures ObjectClosed(cfg, trace, Outcome(-1, trace), path, prefix)
  {
  }

  lemma SkipReturns(cfg: Config, n: nat, trace: seq<Event>)
    ensures cfg.actionRetval && Returned(cfg, n, trace, 2) ==> Returned(cfg, n, trace, 0)
  {
  }

  /** The first answer that ends a walk is what the walk returns. */
  lemma StopIsReturned(cfg: Config, path: Path, root: Node, i: nat)
    requires PlainTree(root)
    requires var trace := Walk(cfg, path, root).trace;
             i < |trace| && trace[i].Call? && Stops(cfg, AnswerAt(cfg, trace, i))
    ensures var o := Walk(cfg, path, root); o.result == AnswerAt(cfg, o.trace, i)
  {
    hide PlainTree, WalkDir;
    var p := Stripped(path);
    if root.Dir? {
      DirCloses(cfg, p, 0, BaseOf(p), root, []);
    } else {
      assert Walk(cfg, path, root).trace[..i + 1] == Walk(cfg, path, root).trace;
    }
  }

  /**
   Over the walk of any tree and for any callback: after an answer other than 0 nothing more is reported in the
   region that it closes. With FTW_ACTIONRETVAL that is what lies below the object for 2, and the rest of its
   directory for 3. It is everything for any other answer, and for any answer without the flag.
   */
  lemma AnswersAreObeyed(cfg: Config, path: Path, root: Node, i: nat, j: nat)
    requires PlainTree(root)
    requires var trace := Walk(cfg, path, root).trace;
             && i < j < |trace| && trace[i].Call? && trace[j].Call? && AnswerAt(cfg, trace, i) != 0
    ensures var trace := Walk(cfg, path, root).trace;
            var answer, e := AnswerAt(cfg, trace, i), trace[i];
            && cfg.actionRetval && answer in {2, 3} && 0 <= e.base <= |e.path|
            && (answer == 2 ==> !(e.path + [47] <= trace[j].path))
            && (answer == 3 ==> !(e.path[..e.base] <= trace[j].path))
  {
    hide PlainTree, WalkDir;
    var p, trace := Stripped(path), Walk(cfg, path, root).trace;
    if root.Dir? {
      DirCloses(cfg, p, 0, BaseOf(p), root, []);
      assert Objects(cfg, trace, i);
      assert RegionAt(cfg, trace, i) != [];
    }
  }
}
