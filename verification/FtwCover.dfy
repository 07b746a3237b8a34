/** What a whole walk reports, said by the names that lead to each object and not by the recursion of the walk. */
module FtwCover {
  import opened Bytes
  import opened FtwSpec

  /** The names lead through readable directories to the object; "." and ".." are not followed. */
  ghost predicate At(node: Node, names: seq<Path>, target: Node)
    decreases |names|
  {
    if names == [] then target == node
    else
      && node.Dir? && node.access.Readable? && names[0] != [46] && names[0] != [46, 46]
      && exists e :: e in node.entries && e.name == names[0] && At(e.node, names[1..], target)
  }

  /** The path with the names behind it. */
  function Join(path: Path, names: seq<Path>): (p: Path)
    decreases |names|
  {
    if names == [] then path else Join(path + [47] + names[0], names[1..])
  }

  function FlagFor(node: Node, depth: bool): (f: Flag) {
    match node
    case File => FTW_F
    case Symlink => FTW_SL
    case Unstatable => FTW_NS
    case Unreachable => FTW_F
    case Dir(access, _) => if access.Denied? then FTW_DNR else if depth then FTW_DP else FTW_D
  }

  /** The report of an object: its path, its kind, its depth and where its last name starts. */
  function ReportOf(path: Path, level: int, base: int, depth: bool, names: seq<Path>, target: Node): (e: Event) {
    var p := Join(path, names);
    Call(p, FlagFor(target, depth), level + |names|, if names == [] then base else |p| - |names[|names| - 1]|)
  }

  ghost predicate Reported(path: Path, level: int, base: int, depth: bool, node: Node, e: Event) {
    exists names, target :: At(node, names, target) && e == ReportOf(path, level, base, depth, names, target)
  }

  // ---- Paths

  /** A path is followed by its end or by a slash. */
  lemma {:induction false} JoinExtends(path: Path, names: seq<Path>)
    ensures path <= Join(path, names)
    ensures |Join(path, names)| == |path| <==> names == []
    ensures names != [] ==> |Join(path, names)| > |path| && Join(path, names)[|path|] == 47
    decreases |names|
  {
    if names != [] {
      JoinExtends(path + [47] + names[0], names[1..]);
    }
  }

  /** Two names without slashes that a longer path goes on with are one. */
  lemma SameName(path: Path, a: Path, b: Path, p: Path)
    requires 47 !in a && 47 !in b
    requires path + a <= p && (|p| == |path + a| || p[|path + a|] == 47)
    requires path + b <= p && (|p| == |path + b| || p[|path + b|] == 47)
    ensures a == b
  {
    assert forall i :: 0 <= i < |a| ==> p[|path| + i] == a[i];
    assert forall i :: 0 <= i < |b| ==> p[|path| + i] == b[i];
  }

  // ---- Entries

  ghost predicate EntryReported(path: Path, level: int, depth: bool, entry: Entry, e: Event) {
    !IsDots(entry.name) && Reported(path + [47] + entry.name, level + 1, |path| + 1, depth, entry.node, e)
  }

  lemma ReportStep(path: Path, level: int, base: int, depth: bool, names: seq<Path>, target: Node)
    requires names != []
    ensures ReportOf(path, level, base, depth, names, target)
         == ReportOf(path + [47] + names[0], level + 1, |path| + 1, depth, names[1..], target)
  {
  }

  /** The reports of a directory are its own and those of its entries. */
  lemma ReportedParts(path: Path, level: int, base: int, depth: bool, node: Node, e: Event)
    ensures Reported(path, level, base, depth, node, e) <==>
              || e == Call(path, FlagFor(node, depth), level, base)
              || (&& node.Dir? && node.access.Readable?
                  && exists j :: 0 <= j < |node.entries| && EntryReported(path, level, depth, node.entries[j], e))
  {
    hide ReportOf;
    if Reported(path, level, base, depth, node, e) {
      var names, target :| At(node, names, target) && e == ReportOf(path, level, base, depth, names, target);
      if names == [] {
        OwnReport(path, level, base, depth, node);
      } else {
        var entry :| entry in node.entries && entry.name == names[0] && At(entry.node, names[1..], target);
        ReportStep(path, level, base, depth, names, target);
        assert EntryReported(path, level, depth, entry, e);
      }
    }
    if e == Call(path, FlagFor(node, depth), level, base) {
      OwnReport(path, level, base, depth, node);
      assert At(node, [], node);
    } else if node.Dir? && node.access.Readable? {
      if j :| 0 <= j < |node.entries| && EntryReported(path, level, depth, node.entries[j], e) {
        EntryIsReported(path, level, base, depth, node, j, e);
      }
    }
  }

  lemma OwnReport(path: Path, level: int, base: int, depth: bool, node: Node)
    ensures ReportOf(path, level, base, depth, [], node) == Call(path, FlagFor(node, depth), level, base)
  {
  }

  lemma EntryIsReported(path: Path, level: int, base: int, depth: bool, node: Node, j: nat, e: Event)
    requires node.Dir? && node.access.Readable? && j < |node.entries|
    requires EntryReported(path, level, depth, node.entries[j], e)
    ensures Reported(path, level, base, depth, node, e)
  {
    hide ReportOf;
    var entry := node.entries[j];
    var p := path + [47] + entry.name;
    var names, target :|
      At(entry.node, names, target) && e == ReportOf(p, level + 1, |path| + 1, depth, names, target);
    var longer := [entry.name] + names;
    assert longer[1..] == names;
    assert At(node, longer, target);
    ReportStep(path, level, base, depth, longer, target);
  }

  /** No report belongs to a directory and to one of its entries, or to two entries. */
  lemma ReportsDiffer(path: Path, level: int, depth: bool, entries: seq<Entry>, i: nat, e: Event)
    requires i < |entries| && EntryReported(path, level, depth, entries[i], e)
    requires Distinct(entries) && forall x :: x in entries ==> ValidName(x.name)
    ensures e.Call? && e.path != path
    ensures forall j :: 0 <= j < |entries| && EntryReported(path, level, depth, entries[j], e) ==> i == j
  {
    hide EntryReported;
    ReportedPath(path, level, depth, entries[i], e);
    forall j | 0 <= j < |entries| && EntryReported(path, level, depth, entries[j], e)
      ensures i == j
    {
      ReportedPath(path, level, depth, entries[j], e);
      assert entries[i] in entries && entries[j] in entries;
      SameName(path + [47], entries[i].name, entries[j].name, e.path);
    }
  }

  lemma ReportedPath(path: Path, level: int, depth: bool, entry: Entry, e: Event)
    requires EntryReported(path, level, depth, entry, e)
    ensures e.Call? && var p := path + [47] + entry.name; p <= e.path && (|e.path| == |p| || e.path[|p|] == 47)
  {
    var p := path + [47] + entry.name;
    var names, target :|
      At(entry.node, names, target) && e == ReportOf(p, level + 1, |path| + 1, depth, names, target);
    JoinExtends(p, names);
  }

  // ---- Counting reports

  /** A callback that never stops the walk. */
  ghost predicate Quiet(cfg: Config) {
    forall t :: cfg.answer(t) == 0
  }

  function Count(trace: seq<Event>, e: Event): (n: nat) {
    multiset(trace)[e]
  }

  lemma CountMore(trace: seq<Event>, last: Event, e: Event)
    ensures Count(trace + [last], e) == Count(trace, e) + if last == e then 1 else 0
  {
  }

  /** A tree in which a walk meets no error, with names that can be told apart. */
  predicate Clean(node: Node) {
    Sound(node) && PlainTree(node) && !node.Unreachable? && !(node.Dir? && node.access.Failing?)
  }

  lemma CleanEntry(node: Node, k: nat)
    requires node.Dir? && node.access.Readable? && k < |node.entries| && Clean(node)
    ensures IsDots(node.entries[k].name) || Clean(node.entries[k].node)
    ensures Distinct(node.entries) && forall x :: x in node.entries ==> ValidName(x.name)
  {
    hide Distinct, ValidName;
    assert node.entries[k] in node.entries;
  }

  lemma CleanDir(node: Node)
    requires node.Dir? && node.access.Readable? && Clean(node)
    ensures Distinct(node.entries) && forall x :: x in node.entries ==> ValidName(x.name)
  {
    hide Distinct, ValidName;
  }

  lemma {:induction false} DirCounts(cfg: Config, path: Path, level: int, base: int, node: Node, trace: seq<Event>,
                                     e: Event)
    requires Quiet(cfg) && node.Dir? && Clean(node) && e.Call?
    ensures var o := WalkDir(cfg, path, level, base, node, trace);
            && o.result == 0
            && Count(o.trace, e) == Count(trace, e) + if Reported(path, level, base, cfg.depth, node, e) then 1 else 0
    decreases node, 1
  {
    hide Clean, Reported, EntryReported, Count, WalkEntries, Distinct, ValidName;
    NotFailing(node);
    ReportedParts(path, level, base, cfg.depth, node, e);
    var own := Call(path, FlagFor(node, cfg.depth), level, base);
    CountMore(trace, own, e);
    if node.access.Readable? {
      CleanDir(node);
      var before := if cfg.depth then trace else trace + [own];
      EntriesCount(cfg, path, level, node, 0, before, e);
      assert node.entries[0..] == node.entries;
      var inside := WalkEntries(cfg, path + [SLASH], level + 1, node.entries, before);
      CountMore(inside.trace, Up, e);
      CountMore(inside.trace + [Up], own, e);
      if j :| 0 <= j < |node.entries| && EntryReported(path, level, cfg.depth, node.entries[j], e) {
        ReportsDiffer(path, level, cfg.depth, node.entries, j, e);
      }
    }
  }

  lemma NotFailing(node: Node)
    requires Clean(node)
    ensures node.Dir? ==> !node.access.Failing?
    ensures !node.Unreachable?
  {
  }

  lemma {:induction false} EntriesCount(cfg: Config, path: Path, level: int, node: Node, k: nat, trace: seq<Event>,
                                        e: Event)
    requires Quiet(cfg) && node.Dir? && node.access.Readable? && Clean(node) && k <= |node.entries| && e.Call?
    ensures var o := WalkEntries(cfg, path + [SLASH], level + 1, node.entries[k..], trace);
            && o.result == 0
            && Count(o.trace, e) == Count(trace, e)
               + if exists j :: k <= j < |node.entries| && EntryReported(path, level, cfg.depth, node.entries[j], e)
                 then 1 else 0
    decreases node, 0, |node.entries| - k
  {
    hide Clean, Reported, EntryReported, Count, WalkEntry, Distinct, ValidName;
    EntriesStep(cfg, path + [SLASH], level + 1, node.entries, k, trace);
    if k < |node.entries| {
      var first := WalkEntry(cfg, path + [SLASH], level + 1, node.entries[k], trace);
      EntryCounts(cfg, path, level, node, k, trace, e);
      EntriesCount(cfg, path, level, node, k + 1, first.trace, e);
      CleanDir(node);
      if EntryReported(path, level, cfg.depth, node.entries[k], e) {
        ReportsDiffer(path, level, cfg.depth, node.entries, k, e);
      }
    }
  }

  lemma {:induction false} EntryCounts(cfg: Config, path: Path, level: int, node: Node, k: nat, trace: seq<Event>,
                                       e: Event)
    requires Quiet(cfg) && node.Dir? && node.access.Readable? && Clean(node) && k < |node.entries| && e.Call?
    ensures var o := WalkEntry(cfg, path + [SLASH], level + 1, node.entries[k], trace);
            && o.result == 0
            && Count(o.trace, e) == Count(trace, e)
               + if EntryReported(path, level, cfg.depth, node.entries[k], e) then 1 else 0
    decreases node, 0, 0
  {
    hide Clean, Reported, Count, WalkDir, Distinct, ValidName;
    var entry := node.entries[k];
    CleanEntry(node, k);
    if !IsDots(entry.name) {
      var p, base := path + [SLASH] + entry.name, |path| + 1;
      NotFailing(entry.node);
      if entry.node.Dir? {
        DirCounts(cfg, p, level + 1, base, entry.node, trace, e);
      } else {
        ReportedParts(p, level + 1, base, cfg.depth, entry.node, e);
        CountMore(trace, Call(p, FlagOf(entry.node), level + 1, base), e);
      }
    }
  }

  /**
   The callback is called once for each object that names lead to from the start, and for nothing else, with the
   path of the names, the kind of the object, its depth and the place of its last name.
   */
  lemma EachObjectOnce(cfg: Config, path: Path, root: Node, e: Event)
    requires path != [] && Quiet(cfg) && Clean(root) && !root.Unstatable? && e.Call?
    ensures var o, p := Walk(cfg, path, root), Stripped(path);
            && o.result == 0
            && multiset(o.trace)[e] ==
               if exists names, target ::
                    At(root, names, target) && e == ReportOf(p, 0, BaseOf(p), cfg.depth, names, target)
               then 1 else 0
  {
    hide Clean, Reported, WalkDir;
    var p := Stripped(path);
    NotFailing(root);
    if root.Dir? {
      DirCounts(cfg, p, 0, BaseOf(p), root, [], e);
    } else {
      ReportedParts(p, 0, BaseOf(p), cfg.depth, root, e);
    }
    ReportedIsAt(p, 0, BaseOf(p), cfg.depth, root, e);
  }

  /** One report for each object below the start, and no other. */
  ghost predicate OnceEach(trace: seq<Event>, path: Path, depth: bool, root: Node) {
    forall e: Event :: e.Call? ==>
      multiset(trace)[e] == if Reported(path, 0, BaseOf(path), depth, root, e) then 1 else 0
  }

  lemma AllObjectsOnce(cfg: Config, path: Path, root: Node)
    requires path != [] && Quiet(cfg) && Clean(root) && !root.Unstatable?
    ensures Walk(cfg, path, root).result == 0
    ensures OnceEach(Walk(cfg, path, root).trace, Stripped(path), cfg.depth, root)
  {
    hide Clean, Reported, Walk;
    var p := Stripped(path);
    EachObjectOnce(cfg, path, root, Call(p, FTW_F, 0, 0));
    forall e: Event | e.Call?
      ensures multiset(Walk(cfg, path, root).trace)[e]
           == if Reported(p, 0, BaseOf(p), cfg.depth, root, e) then 1 else 0
    {
      EachObjectOnce(cfg, path, root, e);
      ReportedIsAt(p, 0, BaseOf(p), cfg.depth, root, e);
    }
  }

  lemma ReportedIsAt(path: Path, level: int, base: int, depth: bool, node: Node, e: Event)
    ensures Reported(path, level, base, depth, node, e) <==>
              exists names, target :: At(node, names, target) && e == ReportOf(path, level, base, depth, names, target)
  {
  }

  /** No two objects share a path, and an object is reached in one way only. */
  lemma {:induction false} OneObjectPerPath(path: Path, node: Node, a: seq<Path>, s: Node, b: seq<Path>, t: Node)
    requires PlainTree(node) && At(node, a, s) && At(node, b, t) && Join(path, a) == Join(path, b)
    ensures a == b && s == t
    decreases |a|
  {
    JoinExtends(path, a);
    JoinExtends(path, b);
    if a != [] {
      var x :| x in node.entries && x.name == a[0] && At(x.node, a[1..], s);
      var y :| y in node.entries && y.name == b[0] && At(y.node, b[1..], t);
      JoinExtends(path + [47] + x.name, a[1..]);
      JoinExtends(path + [47] + y.name, b[1..]);
      SameName(path + [47], x.name, y.name, Join(path, a));
      assert x == y;
      OneObjectPerPath(path + [47] + x.name, x.node, a[1..], s, b[1..], t);
      assert a == [a[0]] + a[1..] && b == [b[0]] + b[1..];
    }
  }

  // ---- The order of the reports

  /** Both events lie from position `n` on, the first of them later exactly under FTW_DEPTH. */
  ghost predicate Ordered(n: nat, trace: seq<Event>, outer: Event, inner: Event, depth: bool) {
    exists i, j :: && n <= i < |trace| && n <= j < |trace| && trace[i] == outer && trace[j] == inner
                   && if depth then j < i else i < j
  }

  lemma OrderedInMore(n: nat, trace: seq<Event>, m: nat, more: seq<Event>, outer: Event, inner: Event, depth: bool)
    requires Ordered(n, trace, outer, inner, depth) && m <= n && trace <= more
    ensures Ordered(m, more, outer, inner, depth)
  {
  }

  lemma NewEvent(trace: seq<Event>, more: seq<Event>, e: Event) returns (i: nat)
    requires trace <= more && Count(more, e) > Count(trace, e)
    ensures |trace| <= i < |more| && more[i] == e
  {
    var rest := more[|trace|..];
    assert more == trace + rest;
    assert e in multiset(rest);
    var k :| 0 <= k < |rest| && rest[k] == e;
    i := |trace| + k;
  }

  lemma {:induction false} DirGrows(cfg: Config, path: Path, level: int, base: int, node: Node, trace: seq<Event>)
    requires node.Dir?
    ensures trace <= WalkDir(cfg, path, level, base, node, trace).trace
    decreases node, 1
  {
    if node.access.Readable? {
      var before := if cfg.depth then trace else trace + [Call(path, FTW_D, level, base)];
      EntriesGrow(cfg, path + [SLASH], level + 1, node.entries, before);
    }
  }

  lemma {:induction false} EntriesGrow(cfg: Config, prefix: Path, level: int, entries: seq<Entry>, trace: seq<Event>)
    ensures trace <= WalkEntries(cfg, prefix, level, entries, trace).trace
    decreases entries, 0
  {
    if entries != [] {
      EntryGrows(cfg, prefix, level, entries[0], trace);
      EntriesGrow(cfg, prefix, level, entries[1..], WalkEntry(cfg, prefix, level, entries[0], trace).trace);
    }
  }

  lemma {:induction false} EntryGrows(cfg: Config, prefix: Path, level: int, entry: Entry, trace: seq<Event>)
    ensures trace <= WalkEntry(cfg, prefix, level, entry, trace).trace
    decreases entry, 2
  {
    if entry.node.Dir? {
      DirGrows(cfg, prefix + entry.name, level, |prefix|, entry.node, trace);
    }
  }

  /** The report of a directory and that of something in it. */
  lemma OwnOrder(cfg: Config, path: Path, level: int, base: int, node: Node, trace: seq<Event>, inner: Event)
    requires Quiet(cfg) && node.Dir? && node.access.Readable? && Clean(node)
    requires inner.Call? && inner.path != path && Reported(path, level, base, cfg.depth, node, inner)
    ensures Ordered(|trace|, WalkDir(cfg, path, level, base, node, trace).trace,
                    Call(path, FlagFor(node, cfg.depth), level, base), inner, cfg.depth)
  {
    hide Clean, Reported, Count, WalkEntries;
    var own := Call(path, FlagFor(node, cfg.depth), level, base);
    var before := if cfg.depth then trace else trace + [own];
    var inside := WalkEntries(cfg, path + [SLASH], level + 1, node.entries, before);
    var o := WalkDir(cfg, path, level, base, node, trace);
    DirCounts(cfg, path, level, base, node, trace, inner);
    EntriesCount(cfg, path, level, node, 0, before, inner);
    assert node.entries[0..] == node.entries;
    EntriesGrow(cfg, path + [SLASH], level + 1, node.entries, before);
    CountMore(trace, own, inner);
    CountMore(inside.trace, Up, inner);
    CountMore(inside.trace + [Up], own, inner);
    var i := NewEvent(before, inside.trace, inner);
    assert o.trace[i] == inner;
    assert o.trace[if cfg.depth then |o.trace| - 1 else |trace|] == own;
  }

  lemma {:induction false} OrderInDir(cfg: Config, path: Path, level: int, base: int, node: Node, trace: seq<Event>,
                                      a: seq<Path>, s: Node, b: seq<Path>, t: Node)
    requires Quiet(cfg) && node.Dir? && Clean(node) && At(node, a, s) && At(s, b, t) && b != []
    ensures Ordered(|trace|, WalkDir(cfg, path, level, base, node, trace).trace,
                    ReportOf(path, level, base, cfg.depth, a, s),
                    ReportOf(path, level, base, cfg.depth, a + b, t), cfg.depth)
    decreases node, 1
  {
    hide Clean, Ordered, ReportOf;
    var outer := ReportOf(path, level, base, cfg.depth, a, s);
    var inner := ReportOf(path, level, base, cfg.depth, a + b, t);
    if a == [] {
      assert a + b == b;
      OwnReport(path, level, base, cfg.depth, node);
      InnerPath(path, level, base, cfg.depth, b, t);
      OwnOrder(cfg, path, level, base, node, trace, inner);
    } else {
      var own := Call(path, FTW_D, level, base);
      var before := if cfg.depth then trace else trace + [own];
      var entry :| entry in node.entries && entry.name == a[0] && At(entry.node, a[1..], s);
      var j :| 0 <= j < |node.entries| && node.entries[j] == entry;
      OrderInEntries(cfg, path, level, base, node, 0, before, j, a, s, b, t);
      assert node.entries[0..] == node.entries;
      var inside := WalkEntries(cfg, path + [SLASH], level + 1, node.entries, before);
      OrderedInMore(|before|, inside.trace, |trace|, WalkDir(cfg, path, level, base, node, trace).trace,
                    outer, inner, cfg.depth);
    }
  }

  lemma InnerPath(path: Path, level: int, base: int, depth: bool, b: seq<Path>, t: Node)
    requires b != []
    ensures var e := ReportOf(path, level, base, depth, b, t); e.Call? && e.path != path
  {
    JoinExtends(path, b);
  }

  lemma {:induction false} OrderInEntries(cfg: Config, path: Path, level: int, base: int, node: Node, k: nat,
                                          trace: seq<Event>, j: nat, a: seq<Path>, s: Node, b: seq<Path>, t: Node)
    requires Quiet(cfg) && node.Dir? && node.access.Readable? && Clean(node) && k <= j < |node.entries|
    requires a != [] && a[0] == node.entries[j].name && !IsDots(a[0])
    requires At(node.entries[j].node, a[1..], s) && At(s, b, t) && b != []
    ensures Ordered(|trace|, WalkEntries(cfg, path + [SLASH], level + 1, node.entries[k..], trace).trace,
                    ReportOf(path, level, base, cfg.depth, a, s),
                    ReportOf(path, level, base, cfg.depth, a + b, t), cfg.depth)
    decreases node, 0, |node.entries| - k
  {
    hide Clean, Ordered, ReportOf, WalkDir, At, Count;
    var outer := ReportOf(path, level, base, cfg.depth, a, s);
    var inner := ReportOf(path, level, base, cfg.depth, a + b, t);
    var prefix, entries := path + [SLASH], node.entries;
    var first := WalkEntry(cfg, prefix, level + 1, entries[k], trace);
    EntriesStep(cfg, prefix, level + 1, entries, k, trace);
    InnerPath(path, level, base, cfg.depth, a + b, t);
    EntryCounts(cfg, path, level, node, k, trace, inner);
    EntryGrows(cfg, prefix, level + 1, entries[k], trace);
    EntriesGrow(cfg, prefix, level + 1, entries[k + 1..], first.trace);
    var o := WalkEntries(cfg, prefix, level + 1, entries[k..], trace);
    if k < j {
      OrderInEntries(cfg, path, level, base, node, k + 1, first.trace, j, a, s, b, t);
      OrderedInMore(|first.trace|, o.trace, |trace|, o.trace, outer, inner, cfg.depth);
    } else {
      var x := entries[k].node;
      LeadsThroughDir(x, a[1..], s, b, t);
      CleanEntry(node, k);
      OrderInDir(cfg, prefix + a[0], level + 1, |path| + 1, x, trace, a[1..], s, b, t);
      ReportStep(path, level, base, cfg.depth, a, s);
      ReportStep(path, level, base, cfg.depth, a + b, t);
      assert (a + b)[1..] == a[1..] + b;
      OrderedInMore(|trace|, first.trace, |trace|, o.trace, outer, inner, cfg.depth);
    }
  }

  lemma LeadsThroughDir(node: Node, a: seq<Path>, s: Node, b: seq<Path>, t: Node)
    requires At(node, a, s) && At(s, b, t) && b != []
    ensures node.Dir?
  {
  }

  /** A directory is reported before everything in it, and under FTW_DEPTH after everything in it. */
  lemma DirectoriesInOrder(cfg: Config, path: Path, root: Node, a: seq<Path>, s: Node, b: seq<Path>, t: Node)
    requires path != [] && Quiet(cfg) && Clean(root)
    requires At(root, a, s) && At(s, b, t) && b != []
    ensures var trace, p := Walk(cfg, path, root).trace, Stripped(path);
            var outer := ReportOf(p, 0, BaseOf(p), cfg.depth, a, s);
            var inner := ReportOf(p, 0, BaseOf(p), cfg.depth, a + b, t);
            exists i, j :: && 0 <= i < |trace| && 0 <= j < |trace| && trace[i] == outer && trace[j] == inner
                           && if cfg.depth then j < i else i < j
  {
    hide ReportOf, WalkDir, Clean;
    LeadsThroughDir(root, a, s, b, t);
    var p := Stripped(path);
    OrderInDir(cfg, p, 0, BaseOf(p), root, [], a, s, b, t);
  }
}
