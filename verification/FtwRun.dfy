/** nftw as a whole, on the walk with a bounded ring of directory streams. */
module FtwRun {
  import opened Bytes
  import opened Ftw
  import opened FtwCover
  import opened FtwSpec

  /**
   nftw with FTW_PHYS: a walk that keeps at most `descriptors` streams open reports what the plain walk
   reports, in the same order, and ends with the same result, unless some list lost names. That does not
   happen where the names of directories with deep directories below them fit.
   */
  method Nftw(cfg: Config, path: Path, descriptors: int, root: Node)
      returns (result: int, trace: seq<Event>, ghost lossy: bool)
    requires PlainTree(root) && (path != [] ==> Stripped(path) != [SLASH])
    ensures !lossy ==> Walk(cfg, path, root) == Outcome(result, trace)
    ensures ValidTree(root, Max(descriptors, 1)) ==> !lossy
    ensures ValidTree(root, Max(descriptors, 1)) ==> Walk(cfg, path, root) == Outcome(result, trace)
    ensures !lossy && path != [] && Quiet(cfg) && Clean(root) && !root.Unstatable? ==>
              result == 0 && OnceEach(trace, Stripped(path), cfg.depth, root)
  {
    hide WalkDir, ValidTree, PlainTree, Reaches, Clean, OnceEach;
    lossy := false;
    if path == [] {
      return -1, [], false;
    }
    var maxdir := Max(descriptors, 1);
    var p := StripPath(path);
    var base := FindBase(p);
    var data := new Walker(cfg, maxdir, p, base);
    match root {
      case Dir(_, _) =>
        result := data.FtwDir(root, ValidTree(root, maxdir));
      case Unstatable =>
        result := -1;
      case Unreachable =>
        result := -1;
      case _ =>
        result := data.Report(FlagOf(root));
    }
    if cfg.actionRetval && (result == FTW_SKIP_SUBTREE || result == FTW_SKIP_SIBLINGS) {
      result := 0;
    }
    trace, lossy := data.trace, data.lossy;
    if Quiet(cfg) && Clean(root) && !root.Unstatable? {
      AllObjectsOnce(cfg, path, root);
    }
  }
}
