/** scripts/verify.js: walk the assets tree, count directories, files, SVG
    files and other files, read every SVG to look for its opening and
    closing tags, and fail exactly when some file is not an SVG. Reading a
    file may fail; `unreadable` says which paths (relative to the assets
    root) do. */
module Verify {
  import opened Paths
  import opened Text
  import opened Tree

  datatype VStats = VStats(totalFiles: nat, svgFiles: nat, nonSvgFiles: nat, directories: nat)

  /** What the walk writes to the error stream: a non-SVG file (which fails
      the run), an SVG whose text lacks a tag, or an SVG that could not be
      read (which only warn). */
  datatype Report = NonSvgFile(path: Path) | InvalidSvg(path: Path) | ReadError(path: Path)

  datatype Audit = Audit(stats: VStats, reports: seq<Report>)

  /** The textual check: both `<svg` and `</svg>` occur in the file. */
  predicate HasSvgTags(content: string) {
    Contains(content, "<svg") && Contains(content, "</svg>")
  }

  /** The warnings the content check of one SVG file can give. */
  function CheckSvg(path: Path, content: string, unreadable: set<Path>): (r: seq<Report>)
    ensures |r| <= 1 && forall x :: x in r ==> !x.NonSvgFile? && x.path == path
    ensures r == [] <==> path !in unreadable && HasSvgTags(content)
  {
    if path in unreadable then [ReadError(path)]
    else if !HasSvgTags(content) then [InvalidSvg(path)]
    else []
  }

  /** How the statistics move over a stretch of the walk: no counter falls
      and every file counted lands in exactly one of SVG or non-SVG. */
  predicate Tallies(before: VStats, after: VStats) {
    && before.totalFiles <= after.totalFiles
    && before.svgFiles <= after.svgFiles
    && before.nonSvgFiles <= after.nonSvgFiles
    && before.directories <= after.directories
    && after.totalFiles - before.totalFiles
       == (after.svgFiles - before.svgFiles) + (after.nonSvgFiles - before.nonSvgFiles)
  }

  /** The file branch of `verifyDirectory`. */
  function VerifyFile(name: string, content: string, path: Path, a: Audit, unreadable: set<Path>): (r: Audit)
    ensures Tallies(a.stats, r.stats) && r.stats.totalFiles == a.stats.totalFiles + 1
    ensures r.stats.directories == a.stats.directories
    ensures r.stats.nonSvgFiles > a.stats.nonSvgFiles <==> !IsSvgName(name)
    ensures |a.reports| <= |r.reports| && r.reports[..|a.reports|] == a.reports
  {
    var counted := a.stats.(totalFiles := a.stats.totalFiles + 1);
    if IsSvgName(name) then
      Audit(counted.(svgFiles := counted.svgFiles + 1), a.reports + CheckSvg(path, content, unreadable))
    else
      Audit(counted.(nonSvgFiles := counted.nonSvgFiles + 1), a.reports + [NonSvgFile(path)])
  }

  /** `verifyDirectory(dir, rel)`: the loop over one directory's entries. */
  function VerifyEntries(items: seq<Node>, rel: Path, a: Audit, unreadable: set<Path>): (r: Audit)
    ensures Tallies(a.stats, r.stats)
    decreases items
  {
    if |items| == 0 then a
    else VerifyEntries(items[1..], rel, VerifyEntry(items[0], rel, a, unreadable), unreadable)
  }

  /** One entry: a directory is counted and walked, a file is checked. */
  function VerifyEntry(item: Node, rel: Path, a: Audit, unreadable: set<Path>): (r: Audit)
    ensures Tallies(a.stats, r.stats)
    decreases item
  {
    match item
    case File(n, c) => VerifyFile(n, c, rel + [n], a, unreadable)
    case Dir(n, kids) =>
      VerifyEntries(kids, rel + [n], a.(stats := a.stats.(directories := a.stats.directories + 1)), unreadable)
  }

  /** `verifyDirectory(assetsDir)` from fresh statistics. */
  function Verify(root: seq<Node>, unreadable: set<Path>): (r: Audit)
    ensures r.stats.totalFiles == r.stats.svgFiles + r.stats.nonSvgFiles
  {
    VerifyEntries(root, [], Audit(VStats(0, 0, 0, 0), []), unreadable)
  }

  /** The exit status `printSummary` leaves: 1 when a non-SVG file was
      found, 0 otherwise. */
  function ExitCode(s: VStats): (code: nat)
    ensures code <= 1
    ensures code == 0 <==> s.nonSvgFiles == 0
  {
    if s.nonSvgFiles > 0 then 1 else 0
  }

  /** The walk's counters are the sizes of the lists of all files, all SVG
      files, all other files and all directories below the root, whatever
      the files contain and whichever of them cannot be read. */
  lemma {:induction false} VerifyEntriesCounts(items: seq<Node>, rel: Path, a: Audit, unreadable: set<Path>)
    ensures VerifyEntries(items, rel, a, unreadable).stats == VStats(
      a.stats.totalFiles + |AllFiles(items)|,
      a.stats.svgFiles + |FilesWhere(items, IsSvgName)|,
      a.stats.nonSvgFiles + |FilesWhere(items, IsNonSvgName)|,
      a.stats.directories + |AllDirs(items)|)
    decreases items
  {
    if |items| > 0 {
      VerifyEntryCounts(items[0], rel, a, unreadable);
      VerifyEntriesCounts(items[1..], rel, VerifyEntry(items[0], rel, a, unreadable), unreadable);
    }
  }

  lemma {:induction false} VerifyEntryCounts(item: Node, rel: Path, a: Audit, unreadable: set<Path>)
    ensures VerifyEntry(item, rel, a, unreadable).stats == VStats(
      a.stats.totalFiles + |NodeFilesWhere(item, AnyName)|,
      a.stats.svgFiles + |NodeFilesWhere(item, IsSvgName)|,
      a.stats.nonSvgFiles + |NodeFilesWhere(item, IsNonSvgName)|,
      a.stats.directories + |NodeDirs(item)|)
    decreases item
  {
    match item
    case File(n, c) =>
      assert AnyName(n);
    case Dir(n, kids) =>
      VerifyEntriesCounts(kids, rel + [n], a.(stats := a.stats.(directories := a.stats.directories + 1)), unreadable);
  }

  /** The content check only warns: two trees with the same shape, whatever
      their files hold and whichever of them can be read, get the same
      counters and so the same exit status. */
  lemma ContentCheckOnlyWarns(a: seq<Node>, b: seq<Node>, u1: set<Path>, u2: set<Path>)
    requires SameShape(a, b)
    ensures Verify(a, u1).stats == Verify(b, u2).stats
    ensures ExitCode(Verify(a, u1).stats) == ExitCode(Verify(b, u2).stats)
  {
    ShapeEntries(a, b, [], Audit(VStats(0, 0, 0, 0), []), Audit(VStats(0, 0, 0, 0), []), u1, u2);
  }

  lemma {:induction false} ShapeEntries(a: seq<Node>, b: seq<Node>, rel: Path, s: Audit, t: Audit,
                                        u1: set<Path>, u2: set<Path>)
    requires SameShape(a, b) && s.stats == t.stats
    ensures VerifyEntries(a, rel, s, u1).stats == VerifyEntries(b, rel, t, u2).stats
    decreases a, 0
  {
    if |a| > 0 {
      ShapeEntry(a[0], b[0], rel, s, t, u1, u2);
      assert SameShape(a[1..], b[1..]) by {
        assert forall i :: 0 <= i < |a| - 1 ==> a[1..][i] == a[i + 1] && b[1..][i] == b[i + 1];
      }
      ShapeEntries(a[1..], b[1..], rel, VerifyEntry(a[0], rel, s, u1), VerifyEntry(b[0], rel, t, u2), u1, u2);
    }
  }

  lemma {:induction false} ShapeEntry(x: Node, y: Node, rel: Path, s: Audit, t: Audit,
                                      u1: set<Path>, u2: set<Path>)
    requires SameNodeShape(x, y) && s.stats == t.stats
    ensures VerifyEntry(x, rel, s, u1).stats == VerifyEntry(y, rel, t, u2).stats
    decreases x, 0
  {
    if x.File? {
      FileStats(x.name, x.content, y.content, rel + [x.name], s, u1, u2);
    } else {
      ShapeDirectory(x.name, x.children, y.children, rel, s, t, u1, u2);
    }
  }

  lemma {:induction false} ShapeDirectory(n: string, a: seq<Node>, b: seq<Node>, rel: Path, s: Audit, t: Audit,
                                          u1: set<Path>, u2: set<Path>)
    requires SameShape(a, b) && s.stats == t.stats
    ensures VerifyEntry(Dir(n, a), rel, s, u1).stats == VerifyEntry(Dir(n, b), rel, t, u2).stats
    decreases a, 1
  {
    ShapeEntries(a, b, rel + [n],
      s.(stats := s.stats.(directories := s.stats.directories + 1)),
      t.(stats := t.stats.(directories := t.stats.directories + 1)), u1, u2);
  }

  /** A file's counters depend on its name alone. */
  lemma FileStats(name: string, c1: string, c2: string, path: Path, a: Audit, u1: set<Path>, u2: set<Path>)
    ensures VerifyFile(name, c1, path, a, u1).stats == VerifyFile(name, c2, path, a, u2).stats
  {
  }

  /** An SVG that fails the content check draws a warning and nothing else:
      it is still counted as an SVG and the run passes. */
  lemma BrokenSvgOnlyWarns(name: string, content: string)
    requires IsSvgName(name) && !HasSvgTags(content)
    ensures Verify([File(name, content)], {}) == Audit(VStats(1, 1, 0, 0), [InvalidSvg([name])])
    ensures ExitCode(Verify([File(name, content)], {}).stats) == 0
  {
    VerifySingle(File(name, content), {});
    BrokenSvgFile(name, content, Audit(VStats(0, 0, 0, 0), []));
  }

  lemma BrokenSvgFile(name: string, content: string, a: Audit)
    requires IsSvgName(name) && !HasSvgTags(content)
    ensures VerifyEntry(File(name, content), [], a, {})
         == a.(stats := a.stats.(totalFiles := a.stats.totalFiles + 1, svgFiles := a.stats.svgFiles + 1),
               reports := a.reports + [InvalidSvg([name])])
  {
    assert [] + [name] == [name];
  }

  lemma VerifySingle(x: Node, unreadable: set<Path>)
    ensures Verify([x], unreadable) == VerifyEntry(x, [], Audit(VStats(0, 0, 0, 0), []), unreadable)
  {
    var a := Audit(VStats(0, 0, 0, 0), []);
    var r := VerifyEntry(x, [], a, unreadable);
    assert [x][1..] == [];
    assert VerifyEntries([x], [], a, unreadable) == VerifyEntries([], [], r, unreadable);
  }

  /** Verification fails exactly when some file, at any depth, does not have
      the extension `.svg` in any letter case. */
  lemma VerdictIffNonSvgFile(root: seq<Node>, unreadable: set<Path>)
    ensures ExitCode(Verify(root, unreadable).stats) == 1
        <==> exists f :: f in AllFiles(root) && !IsSvgName(f.name)
    ensures ExitCode(Verify(root, unreadable).stats) == 0
        <==> forall f :: f in AllFiles(root) ==> IsSvgName(f.name)
  {
    VerifyEntriesCounts(root, [], Audit(VStats(0, 0, 0, 0), []), unreadable);
    var bad := FilesWhere(root, IsNonSvgName);
    forall f
      ensures f in bad <==> f in AllFiles(root) && !IsSvgName(f.name)
    {
      FilesWhereMembers(root, IsNonSvgName, f);
    }
    if |bad| > 0 {
      assert bad[0] in bad;
    }
  }

  /** A file is an SVG to the verifier whatever the case of its extension. */
  lemma UpperCaseSvgCounts(content: string, unreadable: set<Path>)
    ensures Verify([File("logo.SVG", content)], unreadable).stats == VStats(1, 1, 0, 0)
  {
    var x := File("logo.SVG", content);
    LastDotAt("logo.SVG", 4);
    assert ExtName("logo.SVG") == ".SVG";
    assert Lower(".SVG") == ".svg";
    assert IsSvgName("logo.SVG");
    VerifyEntriesCounts([x], [], Audit(VStats(0, 0, 0, 0), []), unreadable);
    FilesWhereAppend([], x, AnyName);
    FilesWhereAppend([], x, IsSvgName);
    FilesWhereAppend([], x, IsNonSvgName);
    assert [] + [x] == [x];
    assert AllDirs([x]) == NodeDirs(x) + AllDirs([]);
  }

  /** Adding one file with another extension to a tree that passes makes it
      fail with exactly one non-SVG file. */
  lemma InjectedFileFails(root: seq<Node>, name: string, content: string, unreadable: set<Path>)
    requires forall f :: f in AllFiles(root) ==> IsSvgName(f.name)
    requires !IsSvgName(name)
    ensures Verify(root + [File(name, content)], unreadable).stats.nonSvgFiles == 1
    ensures ExitCode(Verify(root + [File(name, content)], unreadable).stats) == 1
  {
    var grown := root + [File(name, content)];
    VerifyEntriesCounts(grown, [], Audit(VStats(0, 0, 0, 0), []), unreadable);
    FilesWhereAppend(root, File(name, content), IsNonSvgName);
    var bad := FilesWhere(root, IsNonSvgName);
    if |bad| > 0 {
      FilesWhereMembers(root, IsNonSvgName, bad[0]);
    }
  }

  /** An SVG-only tree whose files all carry both tags draws no report at
      all when every file can be read. */
  predicate IsCleanSvg(f: Node) {
    f.File? && IsSvgName(f.name) && HasSvgTags(f.content)
  }

  lemma {:induction false} CleanEntriesNoReports(items: seq<Node>, rel: Path, a: Audit)
    requires EveryFile(items, IsCleanSvg)
    ensures VerifyEntries(items, rel, a, {}).reports == a.reports
    decreases items
  {
    if |items| > 0 {
      assert items[0] in items;
      CleanEntryNoReports(items[0], rel, a);
      assert forall x :: x in items[1..] ==> x in items;
      CleanEntriesNoReports(items[1..], rel, VerifyEntry(items[0], rel, a, {}));
    }
  }

  lemma {:induction false} CleanEntryNoReports(item: Node, rel: Path, a: Audit)
    requires NodeOk(item, IsCleanSvg)
    ensures VerifyEntry(item, rel, a, {}).reports == a.reports
    decreases item
  {
    match item
    case File(n, c) =>
    case Dir(n, kids) =>
      CleanEntriesNoReports(kids, rel + [n], a.(stats := a.stats.(directories := a.stats.directories + 1)));
  }
}
