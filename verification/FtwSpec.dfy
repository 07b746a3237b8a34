/**
 The plain recursive tree walk that nftw promises, on a file tree given as a value.
 The callback is a function of everything reported so far, so it stands for every callback.
 */
module FtwSpec {
  import opened Bytes

  type Path = seq<byte>

  const DOT: byte := 46

  /** What lstat finds. A stat of an Unstatable object fails with EACCES or ENOENT, that of an Unreachable
      one with any other error. */
  datatype Node = File | Symlink | Unstatable | Unreachable | Dir(access: Access, entries: seq<Entry>)

  /** An open succeeds, fails with EACCES, or fails with another error. */
  datatype Access = Readable | Denied | Failing

  datatype Entry = Entry(name: Path, node: Node)

  datatype Flag = FTW_F | FTW_D | FTW_DNR | FTW_NS | FTW_SL | FTW_DP | FTW_SLN

  /** A call of the callback, or of the function that runs after each directory. */
  datatype Event = Call(path: Path, flag: Flag, level: int, base: int) | Up

  const FTW_SKIP_SUBTREE: int := 2
  const FTW_SKIP_SIBLINGS: int := 3

  datatype Config = Config(answer: seq<Event> -> int, depth: bool, actionRetval: bool)

  datatype Outcome = Outcome(result: int, trace: seq<Event>)

  function Report(cfg: Config, e: Event, trace: seq<Event>): (o: Outcome) {
    Outcome(cfg.answer(trace + [e]), trace + [e])
  }

  predicate IsDots(name: Path) {
    name == [DOT] || name == [DOT, DOT]
  }

  /** How lstat classifies anything but a directory. */
  function FlagOf(node: Node): (f: Flag)
    requires !node.Dir?
  {
    match node
    case Symlink => FTW_SL
    case Unstatable => FTW_NS
    case _ => FTW_F
  }

  function WalkDir(cfg: Config, path: Path, level: int, base: int, node: Node, trace: seq<Event>): (o: Outcome)
    requires node.Dir?
    decreases node, 1
  {
    if node.access.Denied? then Report(cfg, Call(path, FTW_DNR, level, base), trace)
    else if node.access.Failing? then Outcome(-1, trace)
    else
      var before := if cfg.depth then Outcome(0, trace) else Report(cfg, Call(path, FTW_D, level, base), trace);
      if before.result != 0 then before
      else
        var inside := WalkEntries(cfg, path + [SLASH], level + 1, node.entries, before.trace);
        FinishDir(cfg, path, level, base, inside)
  }

  /** After the entries: a skip of the siblings ends here, and the directory is reported last under FTW_DEPTH. */
  function FinishDir(cfg: Config, path: Path, level: int, base: int, inside: Outcome): (o: Outcome) {
    var r := if cfg.actionRetval && inside.result == FTW_SKIP_SIBLINGS then 0 else inside.result;
    var trace := inside.trace + [Up];
    if r == 0 && cfg.depth then Report(cfg, Call(path, FTW_DP, level, base), trace) else Outcome(r, trace)
  }

  function WalkEntries(cfg: Config, prefix: Path, level: int, entries: seq<Entry>, trace: seq<Event>): (o: Outcome)
    decreases entries, 0
  {
    if entries == [] then Outcome(0, trace)
    else
      var first := WalkEntry(cfg, prefix, level, entries[0], trace);
      if first.result != 0 then first else WalkEntries(cfg, prefix, level, entries[1..], first.trace)
  }

  lemma EntriesStep(cfg: Config, prefix: Path, level: int, entries: seq<Entry>, k: nat, trace: seq<Event>)
    requires k <= |entries|
    ensures WalkEntries(cfg, prefix, level, entries[k..], trace) ==
            if k == |entries| then Outcome(0, trace)
            else
              var first := WalkEntry(cfg, prefix, level, entries[k], trace);
              if first.result != 0 then first else WalkEntries(cfg, prefix, level, entries[k + 1..], first.trace)
  {
    hide WalkEntry;
    if k < |entries| {
      assert entries[k..][0] == entries[k] && entries[k..][1..] == entries[k + 1..];
    }
  }

  function WalkEntry(cfg: Config, prefix: Path, level: int, entry: Entry, trace: seq<Event>): (o: Outcome)
    decreases entry, 2
  {
    if IsDots(entry.name) then Outcome(0, trace)
    else if entry.node.Unreachable? then Outcome(-1, trace)
    else
      var path := prefix + entry.name;
      var o := if entry.node.Dir? then WalkDir(cfg, path, level, |prefix|, entry.node, trace)
               else Report(cfg, Call(path, FlagOf(entry.node), level, |prefix|), trace);
      if cfg.actionRetval && o.result == FTW_SKIP_SUBTREE then Outcome(0, o.trace) else o
  }

  // ---- The start of a walk

  /** The start path without its trailing slashes, of which a first one stays. */
  function Stripped(path: Path): (p: Path)
    ensures path != [] ==> p != []
    ensures p <= path && (forall i :: |p| <= i < |path| ==> path[i] == 47) && (|p| > 1 ==> p[|p| - 1] != 47)
  {
    if |path| > 1 && path[|path| - 1] == SLASH then Stripped(path[..|path| - 1]) else path
  }

  /** Where the last component starts. */
  function BaseOf(path: Path): (base: nat)
    ensures base <= |path| && 47 !in path[base..] && (base > 0 ==> path[base - 1] == 47)
  {
    if path == [] || path[|path| - 1] == SLASH then |path| else BaseOf(path[..|path| - 1])
  }

  function Walk(cfg: Config, path: Path, root: Node): (o: Outcome) {
    var p := Stripped(path);
    if path == [] || root.Unstatable? || root.Unreachable? then Outcome(-1, [])
    else
      var o := if root.Dir? then WalkDir(cfg, p, 0, BaseOf(p), root, [])
               else Report(cfg, Call(p, FlagOf(root), 0, BaseOf(p)), []);
      if cfg.actionRetval && (o.result == FTW_SKIP_SUBTREE || o.result == FTW_SKIP_SIBLINGS) then Outcome(0, o.trace)
      else o
  }

  // ---- The function that runs after each directory

  function Ups(trace: seq<Event>): (n: nat) {
    if trace == [] then 0 else Ups(trace[..|trace| - 1]) + if trace[|trace| - 1].Up? then 1 else 0
  }

  /** What reports tell of directories entered: FTW_D that the callback lets pass, and FTW_DP under FTW_DEPTH. */
  predicate TellsEntry(cfg: Config, trace: seq<Event>)
    requires trace != []
  {
    var last := trace[|trace| - 1];
    last.Call? && if cfg.depth then last.flag == FTW_DP else last.flag == FTW_D && cfg.answer(trace) == 0
  }

  function Told(cfg: Config, trace: seq<Event>): (n: nat) {
    if trace == [] then 0 else Told(cfg, trace[..|trace| - 1]) + if TellsEntry(cfg, trace) then 1 else 0
  }

  /** The directories whose entries the walk of a directory goes into, itself included. */
  function EnteredDir(cfg: Config, path: Path, level: int, base: int, node: Node, trace: seq<Event>): (n: nat)
    requires node.Dir?
    decreases node, 1
  {
    var before := if cfg.depth then Outcome(0, trace) else Report(cfg, Call(path, FTW_D, level, base), trace);
    if !node.access.Readable? || before.result != 0 then 0
    else 1 + EnteredEntries(cfg, path + [SLASH], level + 1, node.entries, before.trace)
  }

  function EnteredEntries(cfg: Config, prefix: Path, level: int, entries: seq<Entry>, trace: seq<Event>): (n: nat)
    decreases entries, 0
  {
    if entries == [] then 0
    else
      var e := entries[0];
      var first := WalkEntry(cfg, prefix, level, e, trace);
      (if e.node.Dir? && !IsDots(e.name) then EnteredDir(cfg, prefix + e.name, level, |prefix|, e.node, trace) else 0)
      + if first.result != 0 then 0 else EnteredEntries(cfg, prefix, level, entries[1..], first.trace)
  }

  function EnteredBy(cfg: Config, path: Path, root: Node): (n: nat) {
    var p := Stripped(path);
    if path == [] || !root.Dir? then 0 else EnteredDir(cfg, p, 0, BaseOf(p), root, [])
  }

  lemma CountStep(cfg: Config, trace: seq<Event>, e: Event)
    ensures Ups(trace + [e]) == Ups(trace) + if e.Up? then 1 else 0
    ensures Told(cfg, trace + [e]) == Told(cfg, trace) + if TellsEntry(cfg, trace + [e]) then 1 else 0
  {
    assert (trace + [e])[..|trace|] == trace;
  }

  /** A result that does not stop the walk. */
  predicate GoesOn(cfg: Config, result: int) {
    result == 0 || (cfg.actionRetval && (result == FTW_SKIP_SUBTREE || result == FTW_SKIP_SIBLINGS))
  }

  /** `n` directories were entered on the way from one trace to the other, and all of them left. */
  predicate LeftAll(cfg: Config, from: seq<Event>, to: Outcome, n: nat) {
    && Ups(to.trace) == Ups(from) + n
    && Told(cfg, to.trace) <= Told(cfg, from) + n
    && (!cfg.depth || GoesOn(cfg, to.result) ==> Told(cfg, to.trace) == Told(cfg, from) + n)
  }

  lemma {:induction false} DirIsLeft(cfg: Config, path: Path, level: int, base: int, node: Node, trace: seq<Event>)
    requires node.Dir?
    ensures LeftAll(cfg, trace, WalkDir(cfg, path, level, base, node, trace),
                    EnteredDir(cfg, path, level, base, node, trace))
    decreases node, 1
  {
    hide Ups, Told;
    var e := Call(path, FTW_D, level, base);
    CountStep(cfg, trace, Call(path, FTW_DNR, level, base));
    CountStep(cfg, trace, e);
    var before := if cfg.depth then trace else trace + [e];
    if node.access.Readable? && (cfg.depth || cfg.answer(before) == 0) {
      EntriesAreLeft(cfg, path + [SLASH], level + 1, node.entries, before);
      var inside := WalkEntries(cfg, path + [SLASH], level + 1, node.entries, before);
      CountStep(cfg, inside.trace, Up);
      CountStep(cfg, inside.trace + [Up], Call(path, FTW_DP, level, base));
    }
  }

  lemma {:induction false} EntriesAreLeft(cfg: Config, prefix: Path, level: int, entries: seq<Entry>, trace: seq<Event>)
    ensures var o := WalkEntries(cfg, prefix, level, entries, trace);
            LeftAll(cfg, trace, o, EnteredEntries(cfg, prefix, level, entries, trace))
            && (cfg.actionRetval ==> o.result != FTW_SKIP_SUBTREE)
    decreases entries, 0
  {
    hide Ups, Told;
    if entries != [] {
      var e := entries[0];
      var path := prefix + e.name;
      if e.node.Dir? {
        DirIsLeft(cfg, path, level, |prefix|, e.node, trace);
      } else {
        CountStep(cfg, trace, Call(path, FlagOf(e.node), level, |prefix|));
      }
      EntriesAreLeft(cfg, prefix, level, entries[1..], WalkEntry(cfg, prefix, level, e, trace).trace);
    }
  }

  /**
   Every walk leaves each directory it enters exactly once, even when the callback stops it early. The reports
   tell of the same directories: always without FTW_DEPTH, and with it exactly if the walk does not end with an
   unreported directory.
   */
  lemma WalkLeavesWhatItEnters(cfg: Config, path: Path, root: Node)
    ensures var o := Walk(cfg, path, root);
            && Ups(o.trace) == EnteredBy(cfg, path, root)
            && (!cfg.depth ==> Told(cfg, o.trace) == Ups(o.trace))
            && (cfg.depth ==> (Told(cfg, o.trace) == Ups(o.trace) <==> o.trace == [] || !o.trace[|o.trace| - 1].Up?))
  {
    var p := Stripped(path);
    if root.Dir? {
      DirIsLeft(cfg, p, 0, BaseOf(p), root, []);
      if cfg.depth && root.access.Readable? {
        LastEvent(cfg, p, root);
      }
    } else {
      CountStep(cfg, [], Call(p, FlagOf(root), 0, BaseOf(p)));
    }
  }

  /** Under FTW_DEPTH the report of the start directory, or its absence, ends the walk. */
  lemma LastEvent(cfg: Config, p: Path, root: Node)
    requires cfg.depth && root.Dir? && root.access.Readable?
    ensures var trace := WalkDir(cfg, p, 0, BaseOf(p), root, []).trace;
            trace != [] && (Told(cfg, trace) == Ups(trace) <==> !trace[|trace| - 1].Up?)
  {
    hide Ups, Told, EnteredEntries;
    var inside := WalkEntries(cfg, p + [SLASH], 1, root.entries, []);
    EntriesAreLeft(cfg, p + [SLASH], 1, root.entries, []);
    NothingCounted(cfg);
    CountStep(cfg, inside.trace, Up);
    CountStep(cfg, inside.trace + [Up], Call(p, FTW_DP, 0, BaseOf(p)));
  }

  lemma NothingCounted(cfg: Config)
    ensures Ups([]) == 0 && Told(cfg, []) == 0
  {
  }

  /** Every object that a walk meets inside directories can be looked at and opened, or at least is denied properly. */
  predicate Sound(node: Node) {
    node.Dir? && node.access.Readable? ==>
      forall e :: e in node.entries && !IsDots(e.name) ==>
        !e.node.Unreachable? && !(e.node.Dir? && e.node.access.Failing?) && Sound(e.node)
  }

  lemma {:induction false} SoundDirGoesOn(cfg: Config, path: Path, level: int, base: int, node: Node, trace: seq<Event>)
    requires node.Dir? && !node.access.Failing? && Sound(node) && forall t :: GoesOn(cfg, cfg.answer(t))
    ensures GoesOn(cfg, WalkDir(cfg, path, level, base, node, trace).result)
    decreases node, 1
  {
    hide Sound;
    var before := if cfg.depth then trace else trace + [Call(path, FTW_D, level, base)];
    if node.access.Readable? && (cfg.depth || cfg.answer(before) == 0) {
      SoundEntriesGoOn(cfg, path + [SLASH], level + 1, node, 0, before);
      assert node.entries[0..] == node.entries;
    }
  }

  lemma {:induction false} SoundEntriesGoOn(cfg: Config, prefix: Path, level: int, node: Node, k: nat,
                                            trace: seq<Event>)
    requires node.Dir? && node.access.Readable? && k <= |node.entries| && Sound(node)
    requires forall t :: GoesOn(cfg, cfg.answer(t))
    ensures var r := WalkEntries(cfg, prefix, level, node.entries[k..], trace).result;
            r == 0 || (cfg.actionRetval && r == FTW_SKIP_SIBLINGS)
    decreases node, 0, |node.entries| - k
  {
    hide Sound;
    EntriesStep(cfg, prefix, level, node.entries, k, trace);
    if k < |node.entries| {
      var e := node.entries[k];
      SoundEntry(node, k);
      if !IsDots(e.name) && e.node.Dir? {
        SoundDirGoesOn(cfg, prefix + e.name, level, |prefix|, e.node, trace);
      }
      SoundEntriesGoOn(cfg, prefix, level, node, k + 1, WalkEntry(cfg, prefix, level, e, trace).trace);
    }
  }

  lemma SoundEntry(node: Node, k: nat)
    requires node.Dir? && node.access.Readable? && k < |node.entries| && Sound(node)
    ensures var e := node.entries[k];
            IsDots(e.name) || (!e.node.Unreachable? && !(e.node.Dir? && e.node.access.Failing?) && Sound(e.node))
  {
    assert node.entries[k] in node.entries;
  }

  /** With answers that always go on, and a sound tree, every directory that is entered is reported under FTW_DEPTH. */
  lemma SoundTreeIsReported(cfg: Config, path: Path, root: Node)
    requires cfg.depth && Sound(root) && forall t :: GoesOn(cfg, cfg.answer(t))
    ensures var trace := Walk(cfg, path, root).trace; Told(cfg, trace) == Ups(trace)
  {
    hide Sound;
    var p := Stripped(path);
    if root.Dir? {
      DirIsLeft(cfg, p, 0, BaseOf(p), root, []);
      if !root.access.Failing? {
        SoundDirGoesOn(cfg, p, 0, BaseOf(p), root, []);
      }
    } else {
      CountStep(cfg, [], Call(p, FlagOf(root), 0, BaseOf(p)));
    }
  }

  /** An entry at which a walk that goes on everywhere comes to an error. */
  predicate Breaks(e: Entry) {
    !IsDots(e.name) && (e.node.Unreachable? || (e.node.Dir? && e.node.access.Failing?) || !Sound(e.node))
  }

  lemma {:induction false} ErrorOrNothing(cfg: Config, path: Path, level: int, base: int, node: Node, trace: seq<Event>)
    requires node.Dir? && forall t :: cfg.answer(t) == 0
    ensures WalkDir(cfg, path, level, base, node, trace).result
         == if node.access.Failing? || !Sound(node) then -1 else 0
    decreases node, 1
  {
    if node.access.Readable? {
      var before := if cfg.depth then trace else trace + [Call(path, FTW_D, level, base)];
      ErrorFrom(cfg, path + [SLASH], level + 1, node, 0, before);
      assert node.entries[0..] == node.entries;
    }
  }

  lemma {:induction false} ErrorFrom(cfg: Config, prefix: Path, level: int, node: Node, k: nat, trace: seq<Event>)
    requires node.Dir? && k <= |node.entries| && forall t :: cfg.answer(t) == 0
    ensures WalkEntries(cfg, prefix, level, node.entries[k..], trace).result
         == if exists j :: k <= j < |node.entries| && Breaks(node.entries[j]) then -1 else 0
    decreases node, 0, |node.entries| - k
  {
    hide Sound;
    EntriesStep(cfg, prefix, level, node.entries, k, trace);
    if k < |node.entries| {
      var e := node.entries[k];
      if !IsDots(e.name) && e.node.Dir? {
        ErrorOrNothing(cfg, prefix + e.name, level, |prefix|, e.node, trace);
      } else {
        LeafIsSound(e.node);
      }
      ErrorFrom(cfg, prefix, level, node, k + 1, WalkEntry(cfg, prefix, level, e, trace).trace);
    }
  }

  lemma LeafIsSound(node: Node)
    ensures !node.Dir? ==> Sound(node)
  {
  }

  /** For a callback that goes on everywhere, a sound tree is also what it takes. */
  lemma ReportedIffSound(cfg: Config, path: Path, root: Node)
    requires cfg.depth && path != [] && forall t :: cfg.answer(t) == 0
    ensures var trace := Walk(cfg, path, root).trace; Told(cfg, trace) == Ups(trace) <==> Sound(root)
  {
    hide Sound, Ups, Told, WalkEntries;
    LeafIsSound(root);
    if Sound(root) {
      SoundTreeIsReported(cfg, path, root);
    } else {
      var p := Stripped(path);
      ErrorOrNothing(cfg, p, 0, BaseOf(p), root, []);
      UnsoundIsReadable(root);
      LastEvent(cfg, p, root);
    }
  }

  lemma UnsoundIsReadable(node: Node)
    requires !Sound(node)
    ensures node.Dir? && node.access.Readable?
  {
  }

  /** One entry that cannot be looked at: the walk enters a directory that it never reports. */
  lemma DirectoryWithoutReport(cfg: Config, path: Path, name: Path)
    requires cfg.depth && path != [] && !IsDots(name)
    ensures Walk(cfg, path, Dir(Readable, [Entry(name, Unreachable)])) == Outcome(-1, [Up])
  {
    var entries := [Entry(name, Unreachable)];
    assert WalkEntries(cfg, Stripped(path) + [SLASH], 1, entries, []) == Outcome(-1, []);
  }

  // ---- Trees the walk is promised for

  predicate ValidName(name: Path) {
    name != [] && NUL !in name && SLASH !in name
  }

  predicate ValidNames(entries: seq<Entry>) {
    forall e :: e in entries ==> ValidName(e.name)
  }

  const MAX_FILENAME_LEN: nat := 255
  const MAX_BUFFER_SIZE: nat := 1024 * 1024

  predicate Distinct(entries: seq<Entry>) {
    forall i, j :: 0 <= i < j < |entries| ==> entries[i].name != entries[j].name
  }

  /** A walk of this object opens directories nested `n` deep, the object itself included. */
  ghost predicate Reaches(node: Node, n: int) {
    n <= 0 || (node.Dir? && (n == 1 || (node.access.Readable? && EntryReaches(node.entries, n - 1))))
  }

  ghost predicate EntryReaches(entries: seq<Entry>, n: int) {
    exists e :: e in entries && !IsDots(e.name) && Reaches(e.node, n)
  }

  /** What a list can hold without loss. */
  predicate Fits(entries: seq<Entry>) {
    |NameList(entries)| <= 0x10_0000 && forall e :: e in entries ==> |e.name| <= 255
  }

  /**
   Names that can be told apart. A directory with further directories nested `maxdir` deep below one of its
   entries loses its stream there, so the names behind that entry must fit a list.
   */
  ghost predicate ValidTree(node: Node, maxdir: nat) {
    node.Dir? && node.access.Readable? ==>
      && Distinct(node.entries)
      && (forall e :: e in node.entries ==> ValidName(e.name) && (IsDots(e.name) || ValidTree(e.node, maxdir)))
      && (forall k :: 0 <= k < |node.entries| && !IsDots(node.entries[k].name) && Reaches(node.entries[k].node, maxdir)
            ==> Fits(node.entries[k + 1..]))
  }

  /** Names that can be told apart, and nothing else. */
  predicate PlainTree(node: Node) {
    node.Dir? && node.access.Readable? ==>
      && Distinct(node.entries)
      && forall e :: e in node.entries ==> ValidName(e.name) && (IsDots(e.name) || PlainTree(e.node))
  }

  lemma {:induction false} ReachesLess(node: Node, n: int)
    requires Reaches(node, n + 1)
    ensures Reaches(node, n)
    decreases node
  {
    if n > 1 {
      var e :| e in node.entries && !IsDots(e.name) && Reaches(e.node, n);
      ReachesLess(e.node, n - 1);
    }
  }

  /** Where directories are not nested deeper than there are descriptors, a directory may have any number of names. */
  lemma {:induction false} ShallowTree(node: Node, maxdir: nat)
    requires maxdir > 0 && !Reaches(node, maxdir + 1) && PlainTree(node)
    ensures ValidTree(node, maxdir)
    decreases node
  {
    if node.Dir? && node.access.Readable? {
      forall e | e in node.entries && !IsDots(e.name)
        ensures ValidTree(e.node, maxdir) && !Reaches(e.node, maxdir)
      {
        assert !EntryReaches(node.entries, maxdir);
        if Reaches(e.node, maxdir + 1) {
          ReachesLess(e.node, maxdir);
        }
        ShallowTree(e.node, maxdir);
      }
    }
  }

  // ---- The list that replaces a closed stream

  /** The names, each with a NUL behind it. */
  function Names(entries: seq<Entry>): (list: seq<byte>) {
    if entries == [] then [] else entries[0].name + [NUL] + Names(entries[1..])
  }

  /** The names and a further NUL. */
  function NameList(entries: seq<Entry>): (list: seq<byte>)
    ensures list != []
  {
    Names(entries) + [NUL]
  }

  lemma Associate(a: seq<byte>, b: seq<byte>, c: seq<byte>, d: seq<byte>)
    ensures a + b + (c + d) == (a + b + c) + d
  {
  }

  lemma {:induction false} NamesAppend(a: seq<Entry>, b: seq<Entry>)
    ensures Names(a + b) == Names(a) + Names(b)
  {
    if a == [] {
      assert a + b == b;
    } else {
      NamesAppend(a[1..], b);
      assert (a + b)[1..] == a[1..] + b;
      Associate(a[0].name, [NUL], Names(a[1..]), Names(b));
    }
  }

  function Index(entries: seq<Entry>, name: Path): (k: int)
    ensures -1 <= k < |entries|
    ensures k >= 0 ==> entries[k].name == name
    ensures k < 0 ==> forall i :: 0 <= i < |entries| ==> entries[i].name != name
  {
    if entries == [] then -1
    else if entries[0].name == name then 0
    else
      var k := Index(entries[1..], name);
      assert forall i :: 1 <= i < |entries| ==> entries[i] == entries[1..][i - 1];
      if k < 0 then -1 else k + 1
  }
}
