/**
 The walk of bin/nad/ftw.c without FTW_PHYS, which follows symbolic links. Files are a graph with cycles then,
 and the walk remembers the device and inode of each directory that it takes up.
 */
module FtwFollow {
  import opened Bytes
  import opened FtwSpec

  /** A device and an inode on it. */
  type Id = (int, int)

  /** What a stat of an entry finds behind all links. The last two fail, with EACCES or ENOENT or with another error. */
  datatype Target = Object(id: Id) | Dangling | Unknown | Broken

  datatype Link = Link(name: Path, target: Target)

  datatype Thing = Plain | Folder(access: Access, links: seq<Link>)

  type Graph = map<Id, Thing>

  predicate IsFolder(g: Graph, id: Id) {
    id in g && g[id].Folder?
  }

  predicate IsReadable(g: Graph, id: Id) {
    IsFolder(g, id) && g[id].access.Readable?
  }

  /** All that entries lead to is there. */
  predicate Closed(g: Graph) {
    forall id, l :: id in g && g[id].Folder? && l in g[id].links && l.target.Object? ==> l.target.id in g
  }

  // ---- Reachability

  ghost predicate Leads(g: Graph, links: seq<Link>, to: Id) {
    IsFolder(g, to) && exists l :: l in links && l.name != [46] && l.name != [46, 46] && l.target == Object(to)
  }

  ghost predicate Edge(g: Graph, from: Id, to: Id) {
    IsReadable(g, from) && Leads(g, g[from].links, to)
  }

  ghost predicate IsPath(g: Graph, p: seq<Id>) {
    p != [] && forall i :: 0 <= i < |p| - 1 ==> Edge(g, p[i], p[i + 1])
  }

  /** A directory that can be reached from another through directories that can be read. */
  ghost predicate Reachable(g: Graph, root: Id, id: Id) {
    exists p :: IsPath(g, p) && p[0] == root && p[|p| - 1] == id
  }

  lemma RootIsReachable(g: Graph, root: Id)
    ensures Reachable(g, root, root)
  {
    assert IsPath(g, [root]);
  }

  lemma StepIsReachable(g: Graph, root: Id, from: Id, to: Id)
    requires Reachable(g, root, from) && Edge(g, from, to)
    ensures Reachable(g, root, to)
  {
    var p :| IsPath(g, p) && p[0] == root && p[|p| - 1] == from;
    assert IsPath(g, p + [to]);
  }

  /** A set with the root that no edge leaves holds all that can be reached. */
  lemma {:induction false} ClosedSetHoldsAll(g: Graph, root: Id, known: set<Id>, p: seq<Id>)
    requires root in known && IsPath(g, p) && p[0] == root
    requires forall v, w :: v in known && Edge(g, v, w) ==> w in known
    ensures p[|p| - 1] in known
  {
    if |p| > 1 {
      var n := |p| - 1;
      ClosedSetHoldsAll(g, root, known, p[..n]);
      assert Edge(g, p[n - 1], p[n]);
    }
  }

  predicate OnceEach(ids: seq<Id>) {
    forall i, j :: 0 <= i < j < |ids| ==> ids[i] != ids[j]
  }

  lemma OnceMore(ids: seq<Id>, id: Id)
    requires OnceEach(ids) && id !in ids
    ensures OnceEach(ids + [id])
  {
  }

  // ---- Reports

  /** Where the walk took up a directory. */
  datatype Place = Place(path: Path, level: int, base: int)

  type Places = map<Id, Place>

  predicate Named(l: Link) {
    l.name != [46] && l.name != [46, 46]
  }

  /** An entry that leads to no directory, or nowhere. */
  predicate IsLeaf(g: Graph, l: Link) {
    match l.target
    case Object(id) => id in g && g[id].Plain?
    case Dangling => true
    case Unknown => true
    case Broken => false
  }

  function Below(p: Place, l: Link): (q: Place) {
    Place(p.path + [47] + l.name, p.level + 1, |p.path| + 1)
  }

  function OwnReport(p: Place, t: Thing, depth: bool): (e: Event)
    requires t.Folder?
  {
    Call(p.path, if t.access.Denied? then FTW_DNR else if depth then FTW_DP else FTW_D, p.level, p.base)
  }

  function LeafReport(p: Place, l: Link): (e: Event) {
    var flag := match l.target
      case Object(_) => FTW_F
      case Dangling => FTW_SLN
      case Unknown => FTW_NS
      case Broken => FTW_NS;
    var q := Below(p, l);
    Call(q.path, flag, q.level, q.base)
  }

  /** A report is that of a directory at its place, or that of another entry of a directory that was entered. */
  ghost predicate Justified(g: Graph, depth: bool, where: Places, entered: seq<Id>, e: Event) {
    exists id :: id in where && IsFolder(g, id) && JustifiedBy(g, depth, where[id], entered, id, e)
  }

  ghost predicate JustifiedBy(g: Graph, depth: bool, p: Place, entered: seq<Id>, id: Id, e: Event)
    requires IsFolder(g, id)
  {
    || (e == OwnReport(p, g[id], depth) && !g[id].access.Failing?)
    || (id in entered && exists l :: l in g[id].links && Named(l) && IsLeaf(g, l) && e == LeafReport(p, l))
  }

  ghost predicate AllJustified(g: Graph, depth: bool, where: Places, entered: seq<Id>, trace: seq<Event>) {
    forall e :: e in trace && e.Call? ==> Justified(g, depth, where, entered, e)
  }

  /** Every directory but the start lies where an entry of an entered directory leads to it. */
  ghost predicate Placed(g: Graph, root: Id, where: Places, entered: seq<Id>) {
    forall id :: id in where && id != root ==> exists from :: from in entered && PlacedBy(g, where, from, id)
  }

  ghost predicate PlacedBy(g: Graph, where: Places, from: Id, id: Id)
    requires id in where
  {
    && from in where && IsFolder(g, from)
    && exists l :: l in g[from].links && Named(l) && l.target == Object(id) && where[id] == Below(where[from], l)
  }

  ghost predicate Extends(where: Places, more: Places) {
    forall id :: id in where ==> id in more && more[id] == where[id]
  }

  ghost predicate Includes(more: seq<Id>, ids: seq<Id>) {
    forall id :: id in ids ==> id in more
  }

  lemma JustifiedLater(g: Graph, depth: bool, where: Places, entered: seq<Id>, trace: seq<Event>,
                       where': Places, entered': seq<Id>)
    requires AllJustified(g, depth, where, entered, trace) && Extends(where, where') && Includes(entered', entered)
    ensures AllJustified(g, depth, where', entered', trace)
  {
    forall e | e in trace && e.Call?
      ensures Justified(g, depth, where', entered', e)
    {
      var id :| id in where && IsFolder(g, id) && JustifiedBy(g, depth, where[id], entered, id, e);
      assert JustifiedBy(g, depth, where'[id], entered', id, e);
    }
  }

  lemma JustifiedNext(g: Graph, depth: bool, where: Places, entered: seq<Id>, trace: seq<Event>, e: Event)
    requires AllJustified(g, depth, where, entered, trace)
    requires e.Call? ==> Justified(g, depth, where, entered, e)
    ensures AllJustified(g, depth, where, entered, trace + [e])
  {
    hide Justified;
  }

  lemma PlacedLater(g: Graph, root: Id, where: Places, entered: seq<Id>, entered': seq<Id>)
    requires Placed(g, root, where, entered) && Includes(entered', entered)
    ensures Placed(g, root, where, entered')
  {
    forall id | id in where && id != root
      ensures exists from :: from in entered' && PlacedBy(g, where, from, id)
    {
      var from :| from in entered && PlacedBy(g, where, from, id);
      assert from in entered';
    }
  }

  lemma PlacedMore(g: Graph, root: Id, where: Places, entered: seq<Id>, from: Id, l: Link, id: Id)
    requires Placed(g, root, where, entered) && id !in where && from in entered && from in where && IsFolder(g, from)
    requires l in g[from].links && Named(l) && l.target == Object(id)
    ensures Placed(g, root, where[id := Below(where[from], l)], entered)
  {
    hide Below;
    var more := where[id := Below(where[from], l)];
    forall v | v in more && v != root
      ensures exists f :: f in entered && PlacedBy(g, more, f, v)
    {
      if v == id {
        assert PlacedBy(g, more, from, v);
      } else {
        var f :| f in entered && PlacedBy(g, where, f, v);
        assert PlacedBy(g, more, f, v);
      }
    }
  }

  // ---- What a walk without an error has done

  /** The entry is no error, and it is reported, or the directory that it leads to is known. */
  predicate LinkDone(g: Graph, p: Place, l: Link, known: set<Id>, trace: seq<Event>) {
    && !l.target.Broken?
    && (IsLeaf(g, l) ==> LeafReport(p, l) in trace)
    && (l.target.Object? && IsFolder(g, l.target.id) ==> l.target.id in known)
  }

  ghost predicate LinksDone(g: Graph, p: Place, links: seq<Link>, known: set<Id>, trace: seq<Event>) {
    forall l :: l in links && Named(l) ==> LinkDone(g, p, l, known, trace)
  }

  /** The state of a walk. */
  datatype View = View(known: set<Id>, entered: seq<Id>, where: Places, trace: seq<Event>)

  ghost predicate Grew(v: View, w: View) {
    v.known <= w.known && Includes(w.entered, v.entered) && Extends(v.where, w.where) && v.trace <= w.trace
  }

  /** The directory is reported; one that can be read was entered, and all its entries are done. */
  ghost predicate Done(g: Graph, depth: bool, v: View, id: Id) {
    && id in v.where && IsFolder(g, id) && !g[id].access.Failing?
    && OwnReport(v.where[id], g[id], depth) in v.trace
    && (g[id].access.Readable? ==> id in v.entered && LinksDone(g, v.where[id], g[id].links, v.known, v.trace))
  }

  /** All directories that became known in between are done. */
  ghost predicate NewDone(g: Graph, depth: bool, known: set<Id>, v: View) {
    forall id :: id in v.known && id !in known ==> Done(g, depth, v, id)
  }

  lemma LinksDoneLater(g: Graph, p: Place, links: seq<Link>, known: set<Id>, trace: seq<Event>,
                       known': set<Id>, trace': seq<Event>)
    requires LinksDone(g, p, links, known, trace) && known <= known' && trace <= trace'
    ensures LinksDone(g, p, links, known', trace')
  {
    hide LeafReport, IsLeaf;
    forall l | l in links && Named(l)
      ensures LinkDone(g, p, l, known', trace')
    {
      assert LinkDone(g, p, l, known, trace);
      InMore(trace, trace', LeafReport(p, l));
    }
  }

  lemma InMore(trace: seq<Event>, trace': seq<Event>, e: Event)
    requires trace <= trace'
    ensures e in trace ==> e in trace'
  {
    if e in trace {
      var i :| 0 <= i < |trace| && trace[i] == e;
      assert trace'[i] == e;
    }
  }

  lemma DoneLater(g: Graph, depth: bool, v: View, w: View, id: Id)
    requires Done(g, depth, v, id) && Grew(v, w)
    ensures Done(g, depth, w, id)
  {
    hide LinksDone, OwnReport;
    InMore(v.trace, w.trace, OwnReport(v.where[id], g[id], depth));
    if g[id].access.Readable? {
      LinksDoneLater(g, v.where[id], g[id].links, v.known, v.trace, w.known, w.trace);
    }
  }

  lemma NewDoneLater(g: Graph, depth: bool, known: set<Id>, v: View, w: View)
    requires NewDone(g, depth, known, v) && NewDone(g, depth, v.known, w) && Grew(v, w)
    ensures NewDone(g, depth, known, w)
  {
    hide Done, Grew;
    forall id | id in w.known && id !in known
      ensures Done(g, depth, w, id)
    {
      if id in v.known {
        DoneLater(g, depth, v, w, id);
      }
    }
  }

  lemma OwnIsJustified(g: Graph, depth: bool, where: Places, entered: seq<Id>, id: Id)
    requires id in where && IsFolder(g, id) && !g[id].access.Failing?
    ensures Justified(g, depth, where, entered, OwnReport(where[id], g[id], depth))
  {
    assert JustifiedBy(g, depth, where[id], entered, id, OwnReport(where[id], g[id], depth));
  }

  lemma LeafIsJustified(g: Graph, depth: bool, where: Places, entered: seq<Id>, id: Id, l: Link)
    requires id in where && IsFolder(g, id) && id in entered && l in g[id].links && Named(l) && IsLeaf(g, l)
    ensures Justified(g, depth, where, entered, LeafReport(where[id], l))
  {
    assert JustifiedBy(g, depth, where[id], entered, id, LeafReport(where[id], l));
  }

  lemma BrokenIsTrouble(g: Graph, known: set<Id>, entered: seq<Id>, id: Id, l: Link)
    requires id in known && IsFolder(g, id) && id in entered && l in g[id].links && Named(l) && l.target.Broken?
    ensures Trouble(g, known, entered)
  {
    assert TroubleAt(g, entered, id);
  }

  lemma LeadsBy(g: Graph, id: Id, l: Link, to: Id)
    requires IsReadable(g, id) && l in g[id].links && Named(l) && l.target == Object(to) && IsFolder(g, to)
    ensures Edge(g, id, to)
  {
  }

  lemma FailingIsTrouble(g: Graph, known: set<Id>, entered: seq<Id>, id: Id)
    requires id in known && IsFolder(g, id) && g[id].access.Failing?
    ensures Trouble(g, known, entered)
  {
    assert TroubleAt(g, entered, id);
  }

  lemma NothingNew(g: Graph, depth: bool, v: View)
    ensures NewDone(g, depth, v.known, v)
  {
  }

  /** The entries of a directory are done, and then it is reported. */
  lemma DirDone(g: Graph, depth: bool, known: set<Id>, v: View, w: View, id: Id)
    requires id in v.where && id in v.entered && IsReadable(g, id) && Grew(v, w) && v.known == w.known
    requires NewDone(g, depth, known, v) && LinksDone(g, v.where[id], g[id].links, v.known, v.trace)
    requires OwnReport(w.where[id], g[id], depth) in w.trace
    ensures NewDone(g, depth, known, w) && Done(g, depth, w, id)
  {
    hide LinksDone, NewDone;
    LinksDoneLater(g, v.where[id], g[id].links, v.known, v.trace, w.known, w.trace);
    NothingNew(g, depth, w);
    NewDoneLater(g, depth, known, v, w);
  }

  /** A known directory that cannot be opened, or an entered one with an entry that cannot be looked at. */
  ghost predicate Trouble(g: Graph, known: set<Id>, entered: seq<Id>) {
    exists id :: id in known && IsFolder(g, id) && TroubleAt(g, entered, id)
  }

  ghost predicate TroubleAt(g: Graph, entered: seq<Id>, id: Id)
    requires IsFolder(g, id)
  {
    g[id].access.Failing? || (id in entered && exists l :: l in g[id].links && Named(l) && l.target.Broken?)
  }

  /** The last event is a report of this path, with this answer. */
  predicate Skips(cfg: Config, trace: seq<Event>, path: Path, answer: int) {
    trace != [] && trace[|trace| - 1].Call? && trace[|trace| - 1].path == path && cfg.answer(trace) == answer
  }

  // ---- The walk

  class Follower {
    const cfg: Config
    const g: Graph
    const root: Id
    var known: set<Id>  // the tree of known objects
    var trace: seq<Event>
    ghost var entered: seq<Id>  // the directories whose entries the walk took up, in order
    ghost var where: Places

    ghost predicate Valid()
      reads this
    {
      && Closed(g) && OnceEach(entered) && where.Keys == known
      && (forall id :: id in entered ==> id in known && IsReadable(g, id))
      && (forall id :: id in known ==> IsFolder(g, id) && Reachable(g, root, id))
      && AllJustified(g, cfg.depth, where, entered, trace) && Placed(g, root, where, entered)
    }

    /** A callback that always lets the walk go on. */
    ghost predicate Eager() {
      forall t :: cfg.answer(t) == 0
    }

    ghost function Now(): (v: View)
      reads this
    {
      View(known, entered, where, trace)
    }

    constructor (cfg: Config, g: Graph, root: Id, ghost place: Place)
      requires Closed(g) && IsFolder(g, root)
      ensures Valid() && this.cfg == cfg && this.g == g && this.root == root
      ensures known == {root} && entered == [] && trace == [] && where == map[root := place]
    {
      this.cfg, this.g, this.root, known, trace, entered := cfg, g, root, {root}, [], [];
      where := map[root := place];
      new;
      RootIsReachable(g, root);
    }

    /** The directories entered that the walk has not left yet. */
    ghost function Left(): (n: int)
      reads `trace, `entered
    {
      |entered| - Ups(trace)
    }

    method Report(path: Path, flag: Flag, level: int, base: int) returns (result: int)
      requires Valid() && Justified(g, cfg.depth, where, entered, Call(path, flag, level, base))
      modifies `trace
      ensures Valid() && trace == old(trace) + [Call(path, flag, level, base)] && result == cfg.answer(trace)
      ensures Left() == old(Left())
    {
      hide Closed, OnceEach, Reachable, Placed, Justified, AllJustified, Ups, Told;
      CountStep(cfg, trace, Call(path, flag, level, base));
      JustifiedNext(g, cfg.depth, where, entered, trace, Call(path, flag, level, base));
      trace := trace + [Call(path, flag, level, base)];
      result := cfg.answer(trace);
    }

    /** ftw_dir: a directory that the walk has just taken up. */
    method FollowDir(path: Path, level: int, base: int, id: Id) returns (result: int)
      requires Valid() && id in known && id !in entered && where[id] == Place(path, level, base)
      modifies this
      ensures Valid() && Grew(old(Now()), Now()) && Left() == old(Left())
      ensures result != 0 && GoesOn(cfg, result) ==> Skips(cfg, trace, path, result)
      ensures Eager() ==> result == 0 || (result == -1 && Trouble(g, known, entered))
      ensures Eager() && result == 0 ==> NewDone(g, cfg.depth, old(known), Now()) && Done(g, cfg.depth, Now(), id)
      decreases g.Keys - known, 1
    {
      hide Closed, Reachable, OnceEach, Placed, AllJustified, Justified, NewDone, LinksDone;
      if !g[id].access.Failing? {
        OwnIsJustified(g, cfg.depth, where, entered, id);
      }
      if !g[id].access.Readable? {
        result := -1;
        if g[id].access.Denied? {
          result := Report(path, FTW_DNR, level, base);
          NothingNew(g, cfg.depth, Now());
        } else {
          FailingIsTrouble(g, known, entered, id);
        }
        return;
      }
      if !cfg.depth {
        result := Report(path, FTW_D, level, base);
        if result != 0 {
          return;
        }
      }
      result := Inside(path, level, base, id);
    }

    /** The entries of a directory, and its report under FTW_DEPTH. */
    method Inside(path: Path, level: int, base: int, id: Id) returns (result: int)
      requires Valid() && id in known && id !in entered && where[id] == Place(path, level, base) && IsReadable(g, id)
      requires cfg.depth || OwnReport(where[id], g[id], false) in trace
      modifies this
      ensures Valid() && Grew(old(Now()), Now()) && Left() == old(Left())
      ensures result != 0 && GoesOn(cfg, result) ==> Skips(cfg, trace, path, result)
      ensures Eager() ==> result == 0 || (result == -1 && Trouble(g, known, entered))
      ensures Eager() && result == 0 ==> NewDone(g, cfg.depth, old(known), Now()) && Done(g, cfg.depth, Now(), id)
      decreases g.Keys - known, 0, 3
    {
      hide Closed, Reachable, OnceEach, Placed, AllJustified, Justified, NewDone, LinksDone, Trouble, Done, Ups;
      Enter(id);
      result := FollowLinks(path, level, id);
      ghost var v := Now();
      if cfg.actionRetval && result == FTW_SKIP_SIBLINGS {
        result := 0;
      }
      Leave();
      if result == 0 && cfg.depth {
        OwnIsJustified(g, cfg.depth, where, entered, id);
        result := Report(path, FTW_DP, level, base);
      }
      if Eager() && result == 0 {
        InMore(old(trace), trace, OwnReport(where[id], g[id], false));
        DirDone(g, cfg.depth, old(known), v, Now(), id);
      }
    }

    /** The loop over the entries. */
    method FollowLinks(path: Path, level: int, id: Id) returns (result: int)
      requires Valid() && id in entered && where[id].path == path && where[id].level == level
      modifies this
      ensures Valid() && Grew(old(Now()), Now()) && Left() == old(Left())
      ensures result != 0 && GoesOn(cfg, result) ==> result == 3
      ensures Eager() ==> result == 0 || (result == -1 && Trouble(g, known, entered))
      ensures Eager() && result == 0 ==> && NewDone(g, cfg.depth, old(known), Now())
                                         && LinksDone(g, where[id], g[id].links, known, trace)
      decreases g.Keys - known, 0, 2
    {
      hide Closed, Reachable, OnceEach, Placed, AllJustified, Trouble, Done, LinkDone;
      result := 0;
      var links := g[id].links;
      ghost var place := where[id];
      for i := 0 to |links|
        invariant Valid() && Grew(old(Now()), Now()) && Left() == old(Left()) && result == 0
        invariant Eager() ==> NewDone(g, cfg.depth, old(known), Now())
        invariant Eager() ==> LinksDone(g, place, links[..i], known, trace)
      {
        ghost var before := Now();
        result := ProcessEntry(path + [SLASH], level + 1, links[i], id);
        if result != 0 {
          return;
        }
        if Eager() {
          NewDoneLater(g, cfg.depth, old(known), before, Now());
          LinksDoneLater(g, place, links[..i], before.known, before.trace, known, trace);
          assert links[..i + 1] == links[..i] + [links[i]];
        }
      }
      assert links[..|links|] == links;
    }

    /** process_entry: a directory is taken up unless it is known. */
    method ProcessEntry(prefix: Path, level: int, l: Link, ghost id: Id) returns (result: int)
      requires Valid() && id in entered && l in g[id].links
      requires prefix == where[id].path + [47] && level == where[id].level + 1
      modifies this
      ensures Valid() && Grew(old(Now()), Now()) && Left() == old(Left())
      ensures result != 0 && GoesOn(cfg, result) ==> result == 3
      ensures Eager() ==> result == 0 || (result == -1 && Trouble(g, known, entered))
      ensures Eager() && result == 0 ==> && NewDone(g, cfg.depth, old(known), Now())
                                         && (Named(l) ==> LinkDone(g, where[id], l, known, trace))
      decreases g.Keys - known, 0, 1
    {
      hide Reachable, OnceEach, Placed, AllJustified, Justified, Trouble, Done;
      result := 0;
      if IsDots(l.name) {
        return;
      }
      if IsLeaf(g, l) {
        LeafIsJustified(g, cfg.depth, where, entered, id, l);
      }
      var path := prefix + l.name;
      match l.target {
        case Broken =>
          result := -1;
          BrokenIsTrouble(g, known, entered, id, l);
        case Dangling =>
          result := Report(path, FTW_SLN, level, |prefix|);
        case Unknown =>
          result := Report(path, FTW_NS, level, |prefix|);
        case Object(to) =>
          if g[to].Plain? {
            result := Report(path, FTW_F, level, |prefix|);
          } else if to !in known {
            result := TakeUp(path, level, |prefix|, to, l, id);
          }
      }
      if cfg.actionRetval && result == FTW_SKIP_SUBTREE {
        result := 0;
      }
    }

    /** A directory that was not known is remembered and walked. */
    method TakeUp(path: Path, level: int, base: int, to: Id, ghost l: Link, ghost id: Id) returns (result: int)
      requires Valid() && id in entered && l in g[id].links && Named(l) && l.target == Object(to)
      requires IsFolder(g, to) && to !in known && Place(path, level, base) == Below(where[id], l)
      modifies this
      ensures Valid() && Grew(old(Now()), Now()) && Left() == old(Left()) && to in known
      ensures result != 0 && GoesOn(cfg, result) ==> Skips(cfg, trace, path, result)
      ensures Eager() ==> result == 0 || (result == -1 && Trouble(g, known, entered))
      ensures Eager() && result == 0 ==> NewDone(g, cfg.depth, old(known), Now())
      decreases g.Keys - known, 0, 0
    {
      hide Closed, Reachable, OnceEach, Placed, AllJustified, Trouble, Done, LinksDone;
      AddObject(to, l, id);
      result := FollowDir(path, level, base, to);
    }

    ghost method Enter(id: Id)
      requires Valid() && id in known && id !in entered && IsReadable(g, id)
      modifies `entered
      ensures Valid() && entered == old(entered) + [id]
    {
      hide Closed, Reachable, AllJustified, Placed;
      OnceMore(entered, id);
      entered := entered + [id];
      JustifiedLater(g, cfg.depth, where, old(entered), trace, where, entered);
      PlacedLater(g, root, where, old(entered), entered);
    }

    /** add_object, for a directory that an entered one leads to. */
    method AddObject(to: Id, ghost l: Link, ghost id: Id)
      requires Valid() && id in entered && l in g[id].links && Named(l) && l.target == Object(to)
      requires IsFolder(g, to) && to !in known
      modifies `known, `where
      ensures Valid() && known == old(known) + {to} && where == old(where)[to := Below(old(where)[id], l)]
    {
      hide Closed, OnceEach, Reachable, Placed, AllJustified;
      LeadsBy(g, id, l, to);
      StepIsReachable(g, root, id, to);
      PlacedMore(g, root, where, entered, id, l, to);
      known := known + {to};
      where := where[to := Below(where[id], l)];
      JustifiedLater(g, cfg.depth, old(where), entered, trace, where, entered);
    }

    method Leave()
      requires Valid()
      modifies `trace
      ensures Valid() && trace == old(trace) + [Up] && Left() == old(Left()) - 1
    {
      hide Closed, OnceEach, Reachable, Placed, Justified, AllJustified, Ups, Told;
      CountStep(cfg, trace, Up);
      JustifiedNext(g, cfg.depth, where, entered, trace, Up);
      trace := trace + [Up];
    }
  }

  /** What a walk from the start can come to without an error. */
  ghost predicate SoundGraph(g: Graph, root: Id) {
    forall id :: Reachable(g, root, id) && IsFolder(g, id) ==>
      && !g[id].access.Failing?
      && (g[id].access.Readable? ==> forall l :: l in g[id].links && Named(l) ==> !l.target.Broken?)
  }

  /** A walk that was not stopped: no error means that all that can be reached is done. */
  lemma NoError(g: Graph, depth: bool, root: Id, v: View)
    requires root in v.known && forall id :: id in v.known ==> Done(g, depth, v, id)
    ensures SoundGraph(g, root) && forall id :: Reachable(g, root, id) ==> id in v.known
  {
    hide OwnReport, Reachable, LeafReport;
    forall from, to | from in v.known && Edge(g, from, to)
      ensures to in v.known
    {
      var l :| l in g[from].links && Named(l) && l.target == Object(to);
      assert LinkDone(g, v.where[from], l, v.known, v.trace);
    }
    Everything(g, root, v.known);
    forall id | Reachable(g, root, id) && IsFolder(g, id)
      ensures !g[id].access.Failing?
      ensures g[id].access.Readable? ==> forall l :: l in g[id].links && Named(l) ==> !l.target.Broken?
    {
      assert Done(g, depth, v, id);
    }
  }

  lemma AnError(g: Graph, root: Id, known: set<Id>, entered: seq<Id>)
    requires Trouble(g, known, entered) && forall id :: id in known ==> Reachable(g, root, id)
    requires forall id :: id in entered ==> IsReadable(g, id)
    ensures !SoundGraph(g, root)
  {
    hide Reachable;
    var id :| id in known && IsFolder(g, id) && TroubleAt(g, entered, id);
  }

  /**
   A walk that follows links ends, and enters each directory at most once and only if it can be reached. Every
   report is that of a directory at its place, or of another entry of a directory that was entered. If the callback
   lets it go on, the walk succeeds exactly if nothing that can be reached is an error, and then all directories
   that can be reached are reported, and all their other entries.
   */
  method Follow(cfg: Config, g: Graph, path: Path, root: Id)
      returns (result: int, trace: seq<Event>, ghost entered: seq<Id>, ghost where: Places)
    requires Closed(g) && root in g && path != []
    ensures OnceEach(entered) && forall v :: v in entered ==> IsReadable(g, v) && Reachable(g, root, v)
    ensures Ups(trace) == |entered|
    ensures Ups(trace) <= |g.Keys|
    ensures g[root].Plain? ==> trace == [Call(Stripped(path), FTW_F, 0, BaseOf(Stripped(path)))]
    ensures g[root].Folder? ==> && root in where && where[root] == Place(Stripped(path), 0, BaseOf(Stripped(path)))
                                && AllJustified(g, cfg.depth, where, entered, trace)
                                && Placed(g, root, where, entered)
    ensures (forall t :: cfg.answer(t) == 0) && g[root].Folder? ==>
              && result in {0, -1} && (result == 0 <==> SoundGraph(g, root))
              && (result == 0 ==> forall id :: Reachable(g, root, id) ==>
                                    Done(g, cfg.depth, View(where.Keys, entered, where, trace), id))
  {
    hide Closed, Reachable, OnceEach, AllJustified, Placed, Done, Trouble, SoundGraph;
    var p := Stripped(path);
    if !g[root].Folder? {
      trace, entered, where := [Call(p, FTW_F, 0, BaseOf(p))], [], map[];
      NothingTwice();
      result := cfg.answer(trace);
    } else {
      var f := new Follower(cfg, g, root, Place(p, 0, BaseOf(p)));
      result := f.FollowDir(p, 0, BaseOf(p), root);
      trace, entered, where := f.trace, f.entered, f.where;
      AtMostAll(entered, g.Keys);
      if f.Eager() {
        if result == 0 {
          NoError(g, cfg.depth, root, f.Now());
        } else {
          AnError(g, root, f.known, entered);
        }
      }
    }
    if cfg.actionRetval && (result == FTW_SKIP_SUBTREE || result == FTW_SKIP_SIBLINGS) {
      result := 0;
    }
  }

  lemma {:induction false} AtMostAll(ids: seq<Id>, all: set<Id>)
    requires OnceEach(ids) && forall id :: id in ids ==> id in all
    ensures |ids| <= |all|
  {
    if ids != [] {
      var n := |ids| - 1;
      AtMostAll(ids[..n], all - {ids[n]});
    }
  }

  lemma NothingTwice()
    ensures OnceEach([])
  {
  }

  lemma Everything(g: Graph, root: Id, known: set<Id>)
    requires root in known && forall v, w :: v in known && Edge(g, v, w) ==> w in known
    ensures forall v :: Reachable(g, root, v) ==> v in known
  {
    hide Edge;
    forall v | Reachable(g, root, v)
      ensures v in known
    {
      var p :| IsPath(g, p) && p[0] == root && p[|p| - 1] == v;
      ClosedSetHoldsAll(g, root, known, p);
    }
  }
}
