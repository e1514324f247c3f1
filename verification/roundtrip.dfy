/** What scripts/verify.js says about a tree scripts/format.js wrote: every
    file format.js writes has an `.svg` extension, so the verifier finds no
    non-SVG file and succeeds, and every placeholder passes its content
    check. */
module RoundTrip {
  import opened Paths
  import opened Text
  import opened Tree
  import Format
  import Verify

  /** A file passes the verifier's extension test. */
  predicate IsSvgFile(f: Node) {
    IsSvgName(f.name)
  }

  /** Every file format.js writes for an image passes the extension test. */
  lemma WrittenIsSvg(f: Node)
    requires f.File? && IsImageName(f.name)
    ensures IsSvgFile(Format.Written(f))
  {
  }

  /** A source SVG that itself carries both tags. */
  predicate TaggedIfSvg(f: Node) {
    f.File? && IsSvgName(f.name) ==> Verify.HasSvgTags(f.content)
  }

  /** Every file format.js writes for an image passes both of the verifier's
      checks, provided a copied SVG passed the content check to begin with. */
  lemma WrittenIsClean(f: Node)
    requires f.File? && IsImageName(f.name) && TaggedIfSvg(f)
    ensures Verify.IsCleanSvg(Format.Written(f))
  {
  }

  /** The image files of a walk's top-level subdirectories satisfy whatever
      every file of the sources tree satisfies. */
  lemma SubDirectoryImages(sources: seq<Node>, ok: Node -> bool, f: Node)
    requires EveryFile(sources, ok)
    requires f in Format.ImageFiles(Format.SubDirectories(sources))
    ensures f.File? && IsImageName(f.name) && ok(f)
  {
    var dirs := Format.SubDirectories(sources);
    assert EveryFile(dirs, ok);
    FilesWhereMembers(dirs, IsImageName, f);
    EveryFileAllFiles(dirs, ok);
  }

  /** Converting a sources tree into an assets tree that holds only SVG
      names (an empty one, say) leaves only SVG names, so the verifier finds
      no non-SVG file and succeeds, also after a run an exception cut
      short, and whichever files failed to convert or cannot be read. */
  lemma ConvertThenVerify(sources: seq<Node>, assets: seq<Node>, failing: set<Path>, unreadable: set<Path>)
    requires EveryFile(assets, IsSvgFile)
    ensures var out := Format.Main(sources, assets, failing).out;
      && EveryFile(out, IsSvgFile)
      && Verify.Verify(out, unreadable).stats.nonSvgFiles == 0
      && Verify.ExitCode(Verify.Verify(out, unreadable).stats) == 0
  {
    var dirs := Format.SubDirectories(sources);
    var st := Format.Stats(Format.CountImageFiles(sources), 0, 0, 0, 0);
    forall f | f in Format.ImageFiles(dirs)
      ensures IsSvgFile(Format.Written(f))
    {
      FilesWhereMembers(dirs, IsImageName, f);
      WrittenIsSvg(f);
    }
    Format.EntriesKeep(dirs, [], assets, false, st, failing, IsSvgFile);
    var out := Format.Main(sources, assets, failing).out;
    EveryFileAllFiles(out, IsSvgFile);
    Verify.VerdictIffNonSvgFile(out, unreadable);
  }

  /** With an empty assets tree, source SVGs that carry both tags, and every
      output file readable, the verifier writes no report at all: no
      non-SVG file, no warning. */
  lemma CleanRoundTrip(sources: seq<Node>, failing: set<Path>)
    requires EveryFile(sources, TaggedIfSvg)
    ensures Verify.Verify(Format.Main(sources, [], failing).out, {}).reports == []
  {
    var dirs := Format.SubDirectories(sources);
    var st := Format.Stats(Format.CountImageFiles(sources), 0, 0, 0, 0);
    forall f | f in Format.ImageFiles(dirs)
      ensures Verify.IsCleanSvg(Format.Written(f))
    {
      SubDirectoryImages(sources, TaggedIfSvg, f);
      WrittenIsClean(f);
    }
    Format.EntriesKeep(dirs, [], [], false, st, failing, Verify.IsCleanSvg);
    var out := Format.Main(sources, [], failing).out;
    Verify.CleanEntriesNoReports(out, [], Verify.Audit(Verify.VStats(0, 0, 0, 0), []));
  }
}
