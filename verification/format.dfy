/** scripts/format.js: the pre-count of image files, the mirrored walk over
    the top-level subdirectories of the sources tree, and the per-file
    dispatch that copies an SVG or writes a 100x100 placeholder SVG in place
    of any other image. The assets tree is built as a value; writes that the
    filesystem would refuse, and the files whose I/O fails for any other
    reason (`failing`, given by source path), are counted as errors. */
module Format {
  import opened Options
  import opened Paths
  import opened Text
  import opened Tree

  /** `createPlaceholderSVG(width, height, name)`: a grey rectangle with
      `name` as a centred text label. */
  function PlaceholderSvg(width: nat, height: nat, name: string): (svg: string)
    ensures Contains(svg, "<svg") && Contains(svg, "</svg>")
    ensures Contains(svg, name)
  {
    var size := SizeAttributes(width, height);
    var children := Children(name);
    assert SvgElement(size + children) == "<svg" + (size + children + "</svg>");
    assert SvgElement(size + children) == ("<svg" + size + children) + "</svg>";
    assert SvgElement(size + children) == ("<svg" + size) + children + "</svg>";
    ContainsPrefix("<svg", size + children + "</svg>");
    ContainsSuffix("<svg" + size + children, "</svg>");
    ContainsWithin("<svg" + size, children, "</svg>", name);
    SvgElement(size + children)
  }

  /** The rest of the root element's opening tag, the rectangle and the
      label. */
  function Children(name: string): (s: string)
    ensures Contains(s, name)
  {
    ContainsInfix(SvgRest + TextOpen, name, TextClose);
    SvgRest + TextOpen + name + TextClose
  }

  /** The root element around its attributes and children. */
  function SvgElement(inner: string): string {
    "<svg" + inner + "</svg>"
  }

  /** The size attributes of the root element. */
  function SizeAttributes(width: nat, height: nat): string {
    " width=\"" + Decimal(width) + "\" height=\"" + Decimal(height) + "\""
  }

  const SvgRest: string :=
    " xmlns=\"http://www.w3.org/2000/svg\">\n    <rect width=\"100%\" height=\"100%\" fill=\"#f0f0f0\"/>\n"

  const TextOpen: string :=
    "    <text x=\"50%\" y=\"50%\" font-family=\"Arial\" font-size=\"14\" text-anchor=\"middle\" dominant-baseline=\"middle\">"

  const TextClose: string := "</text>\n  "

  /** The size every placeholder is drawn at. */
  const PlaceholderSize: nat := 100

  /** The run statistics (the start time is left out). */
  datatype Stats = Stats(
    totalFiles: nat,
    processedFiles: nat,
    copiedSvgFiles: nat,
    convertedFiles: nat,
    errorFiles: nat)

  /** The state threaded through the walk: the listing of the target
      directory being filled, the statistics, and whether an exception has
      escaped the walk (which ends the run). */
  datatype Walk = Walk(out: seq<Node>, stats: Stats, aborted: bool)

  /** The name `processImageFile` writes: an SVG is copied under its own
      name, anything else becomes `<baseName>.svg`, where the base name is
      the name with its lower-cased extension removed. */
  function TargetName(name: string): (t: string)
    ensures IsImageName(name) ==> IsSvgName(t)
    ensures IsSvgName(name) ==> t == name
    ensures IsImageName(name) && !IsSvgName(name) && ExtName(name) == LowerExt(name) ==>
      t == name[..|name| - |ExtName(name)|] + ".svg"
    ensures IsImageName(name) && !IsSvgName(name) && ExtName(name) != LowerExt(name) ==>
      t == name + ".svg"
  {
    var ext := LowerExt(name);
    if ext == ".svg" then name
    else
      StemCases(name);
      BaseName(name, ext) + ".svg"
  }

  /** For an image other than an SVG, what the lower-cased extension strips
      from the name: the extension itself when it is written in lower case,
      nothing otherwise, because `path.basename` compares the suffix
      case-sensitively. Either way `.svg` after the rest is an SVG name. */
  lemma StemCases(name: string)
    ensures var stem := BaseName(name, LowerExt(name));
      IsImageName(name) && !IsSvgName(name) ==>
        && IsSvgName(stem + ".svg")
        && (ExtName(name) == LowerExt(name) ==> stem == name[..|name| - |ExtName(name)|])
        && (ExtName(name) != LowerExt(name) ==> stem == name)
  {
    if IsImageName(name) && !IsSvgName(name) {
      var ext := ExtName(name);
      var lower := LowerExt(name);
      assert |lower| == |ext| > 0;
      var stem := BaseName(name, lower);
      assert stem != "" by {
        if stem != name {
          assert stem + lower == name;
        }
      }
      SvgSuffixExtension(stem);
      if ext != lower {
        assert name[|name| - |lower|..] == ext;
      }
    }
  }

  /** The text `processImageFile` writes for a source file. */
  function TargetContent(name: string, content: string): string {
    var ext := LowerExt(name);
    if ext == ".svg" then content else PlaceholderSvg(PlaceholderSize, PlaceholderSize, BaseName(name, ext))
  }

  /** The write of `target` throws: the target directory is really a file
      (`blocked`), the file's own I/O fails, or `target` is a directory. */
  predicate WriteFails(path: Path, target: string, out: seq<Node>, blocked: bool, failing: set<Path>) {
    || blocked
    || path in failing
    || (Lookup(out, target).Some? && Lookup(out, target).value.Dir?)
  }

  /** `processImageFile`: exactly one file is written or one error counted,
      and the processed count rises by one either way. */
  function ProcessImageFile(name: string, content: string, path: Path, out: seq<Node>,
                            blocked: bool, st: Stats, failing: set<Path>): (w: Walk)
    ensures !w.aborted && w.stats.totalFiles == st.totalFiles
    ensures w.stats.processedFiles == st.processedFiles + 1
    ensures w.stats.copiedSvgFiles + w.stats.convertedFiles + w.stats.errorFiles
         == st.copiedSvgFiles + st.convertedFiles + st.errorFiles + 1
    ensures st.copiedSvgFiles <= w.stats.copiedSvgFiles
    ensures st.convertedFiles <= w.stats.convertedFiles
    ensures st.errorFiles <= w.stats.errorFiles
    ensures w.stats.errorFiles > st.errorFiles <==> WriteFails(path, TargetName(name), out, blocked, failing)
    ensures w.stats.copiedSvgFiles > st.copiedSvgFiles ==> IsSvgName(name)
    ensures w.stats.convertedFiles > st.convertedFiles ==> !IsSvgName(name)
    ensures WriteFails(path, TargetName(name), out, blocked, failing) ==> w.out == out
    ensures !WriteFails(path, TargetName(name), out, blocked, failing) ==>
      Lookup(w.out, TargetName(name)) == Some(File(TargetName(name), TargetContent(name, content)))
    ensures forall n :: n != TargetName(name) ==> Lookup(w.out, n) == Lookup(out, n)
  {
    var target := TargetName(name);
    if WriteFails(path, target, out, blocked, failing) then
      Walk(out, st.(processedFiles := st.processedFiles + 1, errorFiles := st.errorFiles + 1), false)
    else
      var written := Put(out, File(target, TargetContent(name, content)));
      if LowerExt(name) == ".svg" then
        Walk(written, st.(processedFiles := st.processedFiles + 1, copiedSvgFiles := st.copiedSvgFiles + 1), false)
      else
        Walk(written, st.(processedFiles := st.processedFiles + 1, convertedFiles := st.convertedFiles + 1), false)
  }

  /** `traverseDir` of `countImageFiles`, with the running count threaded
      through: every image file at every depth adds one. */
  function TraverseDir(items: seq<Node>, count: nat): nat
  {
    if |items| == 0 then count
    else match items[0]
      case Dir(_, kids) => TraverseDir(items[1..], TraverseDir(kids, count))
      case File(n, _) => TraverseDir(items[1..], if IsImageName(n) then count + 1 else count)
  }

  /** `countImageFiles`. */
  function CountImageFiles(items: seq<Node>): (count: nat)
    ensures count == |ImageFiles(items)|
  {
    TraverseDirCounts(items, 0);
    TraverseDir(items, 0)
  }

  /** The image files at every depth, in walk order. */
  function ImageFiles(items: seq<Node>): seq<Node> {
    FilesWhere(items, IsImageName)
  }

  /** How the statistics move across a stretch of the walk that visits
      `images` image files: the total stays, no counter falls, every
      processed file lands in exactly one of copied, converted or errors,
      and each image file is processed once unless an exception ends the
      run early. */
  predicate Advances(before: Stats, after: Stats, images: nat, aborted: bool) {
    && after.totalFiles == before.totalFiles
    && before.copiedSvgFiles <= after.copiedSvgFiles
    && before.convertedFiles <= after.convertedFiles
    && before.errorFiles <= after.errorFiles
    && after.processedFiles - before.processedFiles
       == (after.copiedSvgFiles - before.copiedSvgFiles)
        + (after.convertedFiles - before.convertedFiles)
        + (after.errorFiles - before.errorFiles)
    && before.processedFiles <= after.processedFiles <= before.processedFiles + images
    && (!aborted ==> after.processedFiles == before.processedFiles + images)
  }

  /** The loop of `processDirectory` over one source directory's entries
      (`dir` is its path, `out` the listing of its mirror). When `blocked`,
      the mirror path is taken by a file, so no write can land in it. */
  function ProcessEntries(items: seq<Node>, dir: Path, out: seq<Node>, blocked: bool,
                          st: Stats, failing: set<Path>): (w: Walk)
    ensures Advances(st, w.stats, |ImageFiles(items)|, w.aborted)
    ensures blocked ==> w.out == out
    decreases items, 0
  {
    if |items| == 0 then Walk(out, st, false)
    else
      var first := ProcessEntry(items[0], dir, out, blocked, st, failing);
      if first.aborted then first
      else ProcessEntries(items[1..], dir, first.out, blocked, first.stats, failing)
  }

  /** One iteration of that loop: a subdirectory is mirrored and walked, an
      image file is processed, any other file is skipped. */
  function ProcessEntry(item: Node, dir: Path, out: seq<Node>, blocked: bool,
                        st: Stats, failing: set<Path>): (w: Walk)
    ensures Advances(st, w.stats, |NodeFilesWhere(item, IsImageName)|, w.aborted)
    ensures blocked ==> w.out == out
    decreases item, 0
  {
    match item
    case File(n, c) =>
      if IsImageName(n) then ProcessImageFile(n, c, dir + [n], out, blocked, st, failing)
      else Walk(out, st, false)
    case Dir(n, kids) => ProcessDirectory(n, kids, dir, out, blocked, st, failing)
  }

  /** `processDirectory` for the subdirectory `name` of the directory at
      `parent` (whose mirror listing is `out`): ensure the mirror exists,
      walk the entries, and put the filled mirror back. `existsSync` is
      satisfied by a file of the same name, and then nothing can be written
      under it; creating a directory below such a file throws out of the
      walk. */
  function ProcessDirectory(name: string, kids: seq<Node>, parent: Path, out: seq<Node>, blocked: bool,
                            st: Stats, failing: set<Path>): (w: Walk)
    ensures Advances(st, w.stats, |ImageFiles(kids)|, w.aborted)
    ensures blocked ==> w.out == out
    decreases kids, 1
  {
    if blocked then Walk(out, st, true)
    else match Lookup(out, name)
      case Some(File(_, _)) =>
        var inner := ProcessEntries(kids, parent + [name], [], true, st, failing);
        Walk(out, inner.stats, inner.aborted)
      case Some(Dir(_, sub)) =>
        var inner := ProcessEntries(kids, parent + [name], sub, false, st, failing);
        Walk(Put(out, Dir(name, inner.out)), inner.stats, inner.aborted)
      case None =>
        var inner := ProcessEntries(kids, parent + [name], [], false, st, failing);
        Walk(Put(out, Dir(name, inner.out)), inner.stats, inner.aborted)
  }

  /** The directories directly in a listing, in listing order. */
  function SubDirectories(items: seq<Node>): (dirs: seq<Node>)
    ensures forall x :: x in dirs <==> x in items && x.Dir?
  {
    if |items| == 0 then []
    else (if items[0].Dir? then [items[0]] else []) + SubDirectories(items[1..])
  }

  /** The image files directly in a listing. */
  function RootImageFiles(items: seq<Node>): (files: seq<Node>)
    ensures forall x :: x in files <==> x in items && x.File? && IsImageName(x.name)
  {
    if |items| == 0 then []
    else (if items[0].File? && IsImageName(items[0].name) then [items[0]] else []) + RootImageFiles(items[1..])
  }

  /** `main`: pre-count the whole sources tree, then walk each top-level
      subdirectory into the assets root (whose listing is `assets`). */
  function Main(sources: seq<Node>, assets: seq<Node>, failing: set<Path>): (w: Walk)
    ensures w.stats.totalFiles == CountImageFiles(sources)
    ensures w.stats.processedFiles
         == w.stats.copiedSvgFiles + w.stats.convertedFiles + w.stats.errorFiles
    ensures w.stats.processedFiles <= w.stats.totalFiles
    ensures !w.aborted ==> w.stats.processedFiles + |RootImageFiles(sources)| == w.stats.totalFiles
  {
    ImageFilesSplit(sources);
    var total := CountImageFiles(sources);
    ProcessEntries(SubDirectories(sources), [], assets, false, Stats(total, 0, 0, 0, 0), failing)
  }

  lemma ImageFilesCons(items: seq<Node>)
    requires |items| > 0
    ensures ImageFiles(items) == NodeFilesWhere(items[0], IsImageName) + ImageFiles(items[1..])
  {
  }

  lemma {:induction false} TraverseDirCounts(items: seq<Node>, count: nat)
    ensures TraverseDir(items, count) == count + |ImageFiles(items)|
  {
    if |items| > 0 {
      ImageFilesCons(items);
      match items[0]
      case Dir(_, kids) =>
        TraverseDirCounts(kids, count);
        TraverseDirCounts(items[1..], TraverseDir(kids, count));
      case File(n, _) =>
        TraverseDirCounts(items[1..], if IsImageName(n) then count + 1 else count);
    }
  }

  /** The image files of a tree are those under its top-level
      subdirectories plus those directly in it. */
  lemma {:induction false} ImageFilesSplit(items: seq<Node>)
    ensures |ImageFiles(items)| == |ImageFiles(SubDirectories(items))| + |RootImageFiles(items)|
  {
    if |items| > 0 {
      ImageFilesSplit(items[1..]);
      ImageFilesCons(items);
      var rest := SubDirectories(items[1..]);
      if items[0].Dir? {
        assert SubDirectories(items) == [items[0]] + rest;
        ImageFilesCons([items[0]] + rest);
        assert ([items[0]] + rest)[1..] == rest;
      } else {
        assert SubDirectories(items) == rest;
      }
    }
  }

  /** `logo.png` becomes `logo.svg`, `logo.PNG` becomes `logo.PNG.svg`, and
      `icon.SVG` is copied as `icon.SVG`; `logo.jpg` lands on `logo.png`'s
      target. */
  lemma TargetNameExamples()
    ensures TargetName("logo.png") == "logo.svg"
    ensures TargetName("logo.PNG") == "logo.PNG.svg"
    ensures TargetName("icon.SVG") == "icon.SVG"
    ensures TargetName("logo.jpg") == TargetName("logo.png")
  {
    LowerCaseExamples();
    UpperCaseExamples();
  }

  lemma LowerCaseExamples()
    ensures TargetName("logo.png") == TargetName("logo.jpg") == "logo.svg"
  {
    PngExample();
    JpgExample();
  }

  lemma PngExample()
    ensures TargetName("logo.png") == "logo.svg"
  {
    LowerCaseExample("logo.png", ".png");
  }

  lemma JpgExample()
    ensures TargetName("logo.jpg") == "logo.svg"
  {
    LowerCaseExample("logo.jpg", ".jpg");
  }

  lemma LowerCaseExample(name: string, ext: string)
    requires name == "logo" + ext && (ext == ".png" || ext == ".jpg")
    ensures TargetName(name) == "logo.svg"
  {
    LowerCaseExtension(name, ext);
    assert IsImageName(name) && !IsSvgName(name);
    assert name[..|name| - |ext|] == "logo";
  }

  lemma LowerCaseExtension(name: string, ext: string)
    requires name == "logo" + ext && (ext == ".png" || ext == ".jpg")
    ensures ExtName(name) == ext == LowerExt(name)
  {
    LastDotAt(name, 4);
    assert Lower(ext) == ext;
  }

  lemma UpperCaseExamples()
    ensures TargetName("logo.PNG") == "logo.PNG.svg"
    ensures TargetName("icon.SVG") == "icon.SVG"
  {
    UpperCaseImage();
    UpperCaseSvg();
  }

  lemma UpperCaseImage()
    ensures TargetName("logo.PNG") == "logo.PNG.svg"
  {
    UpperCaseExtension();
    assert IsImageName("logo.PNG") && !IsSvgName("logo.PNG");
  }

  lemma UpperCaseExtension()
    ensures ExtName("logo.PNG") == ".PNG" != ".png" == LowerExt("logo.PNG")
  {
    LastDotAt("logo.PNG", 4);
    assert Lower(".PNG") == ".png";
    assert ".PNG"[1] != ".png"[1];
  }

  lemma UpperCaseSvg()
    ensures TargetName("icon.SVG") == "icon.SVG"
  {
    LastDotAt("icon.SVG", 4);
    assert ExtName("icon.SVG") == ".SVG";
    assert Lower(".SVG") == ".svg";
    assert IsSvgName("icon.SVG");
  }

  /** A converted image's placeholder is labelled with the written file
      name minus its `.svg`. */
  lemma PlaceholderOfConverted(name: string, content: string)
    requires IsImageName(name) && !IsSvgName(name)
    ensures var stem := TargetName(name)[..|TargetName(name)| - 4];
      && stem + ".svg" == TargetName(name)
      && TargetContent(name, content) == PlaceholderSvg(PlaceholderSize, PlaceholderSize, stem)
  {
    var t := TargetName(name);
    var stem := BaseName(name, LowerExt(name));
    assert t == stem + ".svg";
    assert t[..|t| - 4] == stem;
  }

  /** Every placeholder opens with a 100 by 100 `svg` element. */
  lemma PlaceholderIs100By100(name: string)
    ensures PlaceholderSvg(PlaceholderSize, PlaceholderSize, name)[..29] == "<svg width=\"100\" height=\"100\""
  {
    SizeAttributes100();
    SvgElementStart(SizeAttributes(PlaceholderSize, PlaceholderSize), Children(name));
  }

  lemma SvgElementStart(attributes: string, rest: string)
    ensures SvgElement(attributes + rest)[..4 + |attributes|] == "<svg" + attributes
  {
    assert SvgElement(attributes + rest) == ("<svg" + attributes) + (rest + "</svg>");
  }

  lemma SizeAttributes100()
    ensures "<svg" + SizeAttributes(PlaceholderSize, PlaceholderSize) == "<svg width=\"100\" height=\"100\""
  {
    Decimal100();
  }

  /** The tree with every file outside the allow-list removed, at every
      depth. */
  function Prune(items: seq<Node>): seq<Node>
  {
    if |items| == 0 then []
    else
      (match items[0]
       case File(n, _) => if IsImageName(n) then [items[0]] else []
       case Dir(n, kids) => [Dir(n, Prune(kids))])
      + Prune(items[1..])
  }

  /** Files outside the allow-list are invisible to the walk: removing them
      changes neither the output nor a single counter. */
  lemma {:induction false} PruneEntries(items: seq<Node>, dir: Path, out: seq<Node>, blocked: bool,
                                        st: Stats, failing: set<Path>)
    ensures ProcessEntries(items, dir, out, blocked, st, failing)
         == ProcessEntries(Prune(items), dir, out, blocked, st, failing)
    decreases items, 0
  {
    if |items| > 0 {
      var pruned := Prune(items);
      var rest := Prune(items[1..]);
      var first := ProcessEntry(items[0], dir, out, blocked, st, failing);
      if items[0].File? && !IsImageName(items[0].name) {
        assert pruned == rest;
        PruneEntries(items[1..], dir, out, blocked, st, failing);
      } else {
        var head := if items[0].File? then items[0] else Dir(items[0].name, Prune(items[0].children));
        assert pruned == [head] + rest;
        assert pruned[1..] == rest;
        if items[0].Dir? {
          PruneDirectory(items[0].name, items[0].children, dir, out, blocked, st, failing);
        }
        assert ProcessEntry(head, dir, out, blocked, st, failing) == first;
        PruneEntries(items[1..], dir, first.out, blocked, first.stats, failing);
      }
    }
  }

  lemma {:induction false} PruneDirectory(name: string, kids: seq<Node>, parent: Path, out: seq<Node>,
                                          blocked: bool, st: Stats, failing: set<Path>)
    ensures ProcessDirectory(name, kids, parent, out, blocked, st, failing)
         == ProcessDirectory(name, Prune(kids), parent, out, blocked, st, failing)
    decreases kids, 1
  {
    if !blocked {
      match Lookup(out, name)
      case Some(File(_, _)) => PruneEntries(kids, parent + [name], [], true, st, failing);
      case Some(Dir(_, sub)) => PruneEntries(kids, parent + [name], sub, false, st, failing);
      case None => PruneEntries(kids, parent + [name], [], false, st, failing);
    }
  }

  /** Adding an entry whose subtree satisfies `ok` keeps `ok` for every file
      of the listing. */
  lemma PutKeeps(out: seq<Node>, x: Node, ok: Node -> bool)
    requires EveryFile(out, ok) && NodeOk(x, ok)
    ensures EveryFile(Put(out, x), ok)
  {
  }

  /** The file `processImageFile` writes for a source file. */
  function Written(f: Node): Node {
    match f
    case File(n, c) => File(TargetName(n), TargetContent(n, c))
    case Dir(_, _) => f
  }

  /** Whatever property every written file has survives the walk: if the
      mirror satisfies `ok` before, and the file written for every image
      would satisfy it, every file of the mirror satisfies it after, even
      when an exception ends the run part-way. */
  lemma {:induction false} EntriesKeep(items: seq<Node>, dir: Path, out: seq<Node>, blocked: bool,
                                       st: Stats, failing: set<Path>, ok: Node -> bool)
    requires EveryFile(out, ok)
    requires forall f :: f in ImageFiles(items) ==> ok(Written(f))
    ensures EveryFile(ProcessEntries(items, dir, out, blocked, st, failing).out, ok)
    decreases items, 0
  {
    if |items| > 0 {
      ImageFilesCons(items);
      EntryKeeps(items[0], dir, out, blocked, st, failing, ok);
      var first := ProcessEntry(items[0], dir, out, blocked, st, failing);
      if !first.aborted {
        EntriesKeep(items[1..], dir, first.out, blocked, first.stats, failing, ok);
      }
    }
  }

  lemma {:induction false} EntryKeeps(item: Node, dir: Path, out: seq<Node>, blocked: bool,
                                      st: Stats, failing: set<Path>, ok: Node -> bool)
    requires EveryFile(out, ok)
    requires forall f :: f in NodeFilesWhere(item, IsImageName) ==> ok(Written(f))
    ensures EveryFile(ProcessEntry(item, dir, out, blocked, st, failing).out, ok)
    decreases item, 0
  {
    match item
    case File(n, c) =>
      if IsImageName(n) {
        assert item in NodeFilesWhere(item, IsImageName);
        if !WriteFails(dir + [n], TargetName(n), out, blocked, failing) {
          PutKeeps(out, Written(item), ok);
        }
      }
    case Dir(n, kids) =>
      DirectoryKeeps(n, kids, dir, out, blocked, st, failing, ok);
  }

  lemma {:induction false} DirectoryKeeps(name: string, kids: seq<Node>, parent: Path, out: seq<Node>,
                                          blocked: bool, st: Stats, failing: set<Path>, ok: Node -> bool)
    requires EveryFile(out, ok)
    requires forall f :: f in ImageFiles(kids) ==> ok(Written(f))
    ensures EveryFile(ProcessDirectory(name, kids, parent, out, blocked, st, failing).out, ok)
    decreases kids, 1
  {
    if !blocked {
      match Lookup(out, name)
      case Some(File(_, _)) =>
      case Some(Dir(_, sub)) =>
        assert NodeOk(Lookup(out, name).value, ok);
        EntriesKeep(kids, parent + [name], sub, false, st, failing, ok);
        var inner := ProcessEntries(kids, parent + [name], sub, false, st, failing);
        PutKeeps(out, Dir(name, inner.out), ok);
      case None =>
        EntriesKeep(kids, parent + [name], [], false, st, failing, ok);
        var inner := ProcessEntries(kids, parent + [name], [], false, st, failing);
        PutKeeps(out, Dir(name, inner.out), ok);
    }
  }

  /** Writing a file where there is no entry, or only a file, leaves every
      path that existed in place. */
  lemma PutFileKeepsPresent(out: seq<Node>, x: Node)
    requires x.File?
    requires Lookup(out, x.name).None? || Lookup(out, x.name).value.File?
    ensures forall p :: Present(out, p) ==> Present(Put(out, x), p)
  {
    forall p | Present(out, p)
      ensures Present(Put(out, x), p)
    {
      if |p| > 0 && p[0] != x.name {
        assert Lookup(Put(out, x), p[0]) == Lookup(out, p[0]);
      }
    }
  }

  /** Whether putting back the mirror `inner` of directory `name` keeps
      every path of `out`: the mirror replaces nothing, or replaces a
      directory all of whose paths it kept. */
  ghost predicate KeepsMirror(out: seq<Node>, name: string, inner: seq<Node>) {
    Lookup(out, name).None? ||
    (Lookup(out, name).value.Dir? &&
     forall q :: Present(Lookup(out, name).value.children, q) ==> Present(inner, q))
  }

  lemma PutDirKeepsPath(out: seq<Node>, name: string, inner: seq<Node>, p: Path)
    requires KeepsMirror(out, name, inner) && Present(out, p)
    ensures Present(Put(out, Dir(name, inner)), p)
  {
    var r := Put(out, Dir(name, inner));
    if |p| > 0 && p[0] != name {
      assert Lookup(r, p[0]) == Lookup(out, p[0]);
    } else if |p| > 1 {
      var x := Lookup(out, name).value;
      assert x.Dir? && Present(x.children, p[1..]);
    }
  }

  /** Putting back a mirror directory that kept every path of the one it
      replaces leaves every path in place, and makes the directory and every
      path inside it exist. */
  lemma PutDirKeepsPresent(out: seq<Node>, name: string, inner: seq<Node>)
    requires KeepsMirror(out, name, inner)
    ensures forall p :: Present(out, p) ==> Present(Put(out, Dir(name, inner)), p)
    ensures forall q :: Present(inner, q) ==> Present(Put(out, Dir(name, inner)), [name] + q)
  {
    var r := Put(out, Dir(name, inner));
    forall p | Present(out, p)
      ensures Present(r, p)
    {
      PutDirKeepsPath(out, name, inner, p);
    }
    forall q | Present(inner, q)
      ensures Present(r, [name] + q)
    {
      assert ([name] + q)[1..] == q;
    }
  }

  /** The walk never removes a path from the mirror, and, unless an
      exception ends it, every directory below the walked directory exists
      at the same relative path in the mirror. Inside a mirror taken by a
      file the walk only survives when there are no subdirectories. */
  lemma {:induction false} MirrorEntries(items: seq<Node>, dir: Path, out: seq<Node>, blocked: bool,
                                         st: Stats, failing: set<Path>)
    ensures var w := ProcessEntries(items, dir, out, blocked, st, failing);
      && (forall p :: Present(out, p) ==> Present(w.out, p))
      && (!w.aborted && !blocked ==> forall p :: IsDirPath(items, p) ==> Present(w.out, p))
      && (!w.aborted && blocked ==> forall i :: 0 <= i < |items| ==> items[i].File?)
    decreases items, 0
  {
    if |items| > 0 {
      var w := ProcessEntries(items, dir, out, blocked, st, failing);
      var first := ProcessEntry(items[0], dir, out, blocked, st, failing);
      MirrorEntry(items[0], dir, out, blocked, st, failing);
      if !first.aborted {
        MirrorEntries(items[1..], dir, first.out, blocked, first.stats, failing);
        if !w.aborted && !blocked {
          forall p | IsDirPath(items, p)
            ensures Present(w.out, p)
          {
            var i :| 0 <= i < |items| && IsDirStep(items[i], p);
            if i == 0 {
              assert [p[0]] + p[1..] == p;
              assert Present(first.out, p);
            } else {
              assert IsDirStep(items[1..][i - 1], p);
            }
          }
        }
        if !w.aborted && blocked {
          assert forall i :: 1 <= i < |items| ==> items[1..][i - 1] == items[i];
        }
      }
    }
  }

  lemma {:induction false} MirrorEntry(item: Node, dir: Path, out: seq<Node>, blocked: bool,
                                       st: Stats, failing: set<Path>)
    ensures var w := ProcessEntry(item, dir, out, blocked, st, failing);
      && (forall p :: Present(out, p) ==> Present(w.out, p))
      && (!w.aborted && !blocked && item.Dir? ==>
            Present(w.out, [item.name]) &&
            forall q :: IsDirPath(item.children, q) ==> Present(w.out, [item.name] + q))
      && (!w.aborted && blocked ==> item.File?)
    decreases item, 0
  {
    match item
    case File(n, c) =>
      if IsImageName(n) && !WriteFails(dir + [n], TargetName(n), out, blocked, failing) {
        PutFileKeepsPresent(out, Written(item));
      }
    case Dir(n, kids) =>
      MirrorDirectory(n, kids, dir, out, blocked, st, failing);
  }

  lemma {:induction false} MirrorDirectory(name: string, kids: seq<Node>, parent: Path, out: seq<Node>,
                                           blocked: bool, st: Stats, failing: set<Path>)
    ensures var w := ProcessDirectory(name, kids, parent, out, blocked, st, failing);
      && (forall p :: Present(out, p) ==> Present(w.out, p))
      && (!w.aborted ==> !blocked && Present(w.out, [name]))
      && (!w.aborted ==> forall q :: IsDirPath(kids, q) ==> Present(w.out, [name] + q))
    decreases kids, 1
  {
    if !blocked {
      var w := ProcessDirectory(name, kids, parent, out, blocked, st, failing);
      match Lookup(out, name)
      case Some(File(_, _)) =>
        MirrorEntries(kids, parent + [name], [], true, st, failing);
      case Some(Dir(_, sub)) =>
        MirrorEntries(kids, parent + [name], sub, false, st, failing);
        var inner := ProcessEntries(kids, parent + [name], sub, false, st, failing);
        PutDirKeepsPresent(out, name, inner.out);
        assert Present(inner.out, []);
        assert [name] + [] == [name];
      case None =>
        MirrorEntries(kids, parent + [name], [], false, st, failing);
        var inner := ProcessEntries(kids, parent + [name], [], false, st, failing);
        PutDirKeepsPresent(out, name, inner.out);
        assert Present(inner.out, []);
        assert [name] + [] == [name];
    }
  }

  /** A run that completes mirrors every directory of every top-level
      subdirectory at the same relative path under the assets root, and
      removes nothing that was there before. */
  lemma MainMirrors(sources: seq<Node>, assets: seq<Node>, failing: set<Path>)
    ensures var w := Main(sources, assets, failing);
      && (forall p :: Present(assets, p) ==> Present(w.out, p))
      && (!w.aborted ==> forall p :: IsDirPath(sources, p) ==> Present(w.out, p))
  {
    var dirs := SubDirectories(sources);
    var w := Main(sources, assets, failing);
    MirrorEntries(dirs, [], assets, false, Stats(CountImageFiles(sources), 0, 0, 0, 0), failing);
    forall p | IsDirPath(sources, p)
      ensures IsDirPath(dirs, p)
    {
      var i :| 0 <= i < |sources| && IsDirStep(sources[i], p);
      assert sources[i] in dirs;
      var j :| 0 <= j < |dirs| && dirs[j] == sources[i];
    }
  }

  /** Inside a mirror taken by a file nothing is written: every image file
      counts as an error, and the first subdirectory ends the run, since
      creating its mirror throws. */
  lemma {:induction false} BlockedEntries(items: seq<Node>, dir: Path, out: seq<Node>,
                                          st: Stats, failing: set<Path>)
    ensures var w := ProcessEntries(items, dir, out, true, st, failing);
      && w.out == out
      && w.stats.copiedSvgFiles == st.copiedSvgFiles
      && w.stats.convertedFiles == st.convertedFiles
      && (w.aborted <==> exists i :: 0 <= i < |items| && items[i].Dir?)
    decreases items
  {
    if |items| > 0 {
      var first := ProcessEntry(items[0], dir, out, true, st, failing);
      if items[0].Dir? {
        assert first == ProcessDirectory(items[0].name, items[0].children, dir, out, true, st, failing)
                     == Walk(out, st, true);
      } else {
        assert WriteFails(dir + [items[0].name], TargetName(items[0].name), out, true, failing);
        assert first.out == out && first.stats.copiedSvgFiles == st.copiedSvgFiles
          && first.stats.convertedFiles == st.convertedFiles && !first.aborted;
        BlockedEntries(items[1..], dir, out, first.stats, failing);
        assert forall i :: 1 <= i < |items| ==> items[1..][i - 1] == items[i];
      }
    }
  }

  /** Two image files of one directory with the same target name (such as
      `logo.png` and `logo.jpg`) are both processed and both counted as
      written, but only the later one's file remains. */
  lemma SameTargetOverwrites(f1: Node, f2: Node, dir: Path, st: Stats, failing: set<Path>)
    requires f1.File? && f2.File? && IsImageName(f1.name) && IsImageName(f2.name)
    requires TargetName(f1.name) == TargetName(f2.name)
    requires dir + [f1.name] !in failing && dir + [f2.name] !in failing
    ensures var w := ProcessEntries([f1, f2], dir, [], false, st, failing);
      && Lookup(w.out, TargetName(f2.name)) == Some(Written(f2))
      && (forall n :: n != TargetName(f2.name) ==> Lookup(w.out, n).None?)
      && w.stats.processedFiles == st.processedFiles + 2
      && w.stats.errorFiles == st.errorFiles
  {
    var t := TargetName(f1.name);
    var w1 := ProcessImageFile(f1.name, f1.content, dir + [f1.name], [], false, st, failing);
    assert ProcessEntry(f1, dir, [], false, st, failing) == w1;
    assert !WriteFails(dir + [f1.name], t, [], false, failing);
    assert Lookup(w1.out, t) == Some(Written(f1));
    var w2 := ProcessImageFile(f2.name, f2.content, dir + [f2.name], w1.out, false, w1.stats, failing);
    assert ProcessEntry(f2, dir, w1.out, false, w1.stats, failing) == w2;
    assert !WriteFails(dir + [f2.name], t, w1.out, false, failing);
    assert [f2][1..] == [];
    assert ProcessEntries([f2], dir, w1.out, false, w1.stats, failing) == w2;
    assert [f1, f2][1..] == [f2];
  }

  /** A placeholder written under the name of a sibling directory that the
      walk reaches later takes that directory's mirror path: the directory
      is never created, nothing below it is written, and the run ends if it
      has subdirectories of its own. */
  lemma PlaceholderTakesDirectoryName(f: Node, kids: seq<Node>, dir: Path, st: Stats, failing: set<Path>)
    requires f.File? && IsImageName(f.name) && dir + [f.name] !in failing
    ensures var w := ProcessEntries([f, Dir(TargetName(f.name), kids)], dir, [], false, st, failing);
      && Lookup(w.out, TargetName(f.name)) == Some(Written(f))
      && (forall n :: n != TargetName(f.name) ==> Lookup(w.out, n).None?)
      && (w.aborted <==> exists i :: 0 <= i < |kids| && kids[i].Dir?)
  {
    var t := TargetName(f.name);
    var d := Dir(t, kids);
    var w1 := ProcessImageFile(f.name, f.content, dir + [f.name], [], false, st, failing);
    assert ProcessEntry(f, dir, [], false, st, failing) == w1;
    assert !WriteFails(dir + [f.name], t, [], false, failing);
    assert Lookup(w1.out, t) == Some(Written(f));
    var inner := ProcessEntries(kids, dir + [t], [], true, w1.stats, failing);
    BlockedEntries(kids, dir + [t], [], w1.stats, failing);
    var w2 := Walk(w1.out, inner.stats, inner.aborted);
    assert ProcessDirectory(t, kids, dir, w1.out, false, w1.stats, failing) == w2;
    assert ProcessEntry(d, dir, w1.out, false, w1.stats, failing) == w2;
    assert [d][1..] == [];
    assert ProcessEntries([d], dir, w1.out, false, w1.stats, failing) == w2;
    assert [f, d][1..] == [d];
  }

  /** `p` names an image file at some depth below the root. */
  predicate IsImageAt(nodes: seq<Node>, p: Path)
  {
    && |p| > 0
    && exists i :: 0 <= i < |nodes| && IsImageStep(nodes[i], p)
  }

  predicate IsImageStep(x: Node, p: Path)
    requires |p| > 0
  {
    && x.name == p[0]
    && if |p| == 1 then x.File? && IsImageName(x.name)
       else x.Dir? && IsImageAt(x.children, p[1..])
  }

  /** Where the file written for the image at `p` lands: the same directory,
      under the target name. */
  function TargetPath(p: Path): (q: Path)
    requires |p| > 0
    ensures |q| == |p| && q[..|p| - 1] == p[..|p| - 1]
    ensures q[|p| - 1] == TargetName(p[|p| - 1])
  {
    p[..|p| - 1] + [TargetName(p[|p| - 1])]
  }

  lemma TargetPathCons(n: string, q: Path)
    requires |q| > 0
    ensures TargetPath([n] + q) == [n] + TargetPath(q)
  {
    assert ([n] + q)[..|q|] == [n] + q[..|q| - 1];
  }

  /** A walk that ends without an exception and without a new error has
      written a file for every image below it, at the image's relative path
      under its target name; and such a walk never happens inside a mirror
      taken by a file, unless there is no image below. Later writes may
      replace that file, but never remove its path. */
  lemma {:induction false} WritesEntries(items: seq<Node>, dir: Path, out: seq<Node>, blocked: bool,
                                         st: Stats, failing: set<Path>)
    ensures var w := ProcessEntries(items, dir, out, blocked, st, failing);
      !w.aborted && w.stats.errorFiles == st.errorFiles ==>
        forall p :: IsImageAt(items, p) ==> !blocked && Present(w.out, TargetPath(p))
    decreases items, 0
  {
    if |items| > 0 {
      var w := ProcessEntries(items, dir, out, blocked, st, failing);
      var first := ProcessEntry(items[0], dir, out, blocked, st, failing);
      WritesEntry(items[0], dir, out, blocked, st, failing);
      if !first.aborted {
        WritesEntries(items[1..], dir, first.out, blocked, first.stats, failing);
        MirrorEntries(items[1..], dir, first.out, blocked, first.stats, failing);
        if !w.aborted && w.stats.errorFiles == st.errorFiles {
          forall p | IsImageAt(items, p)
            ensures !blocked && Present(w.out, TargetPath(p))
          {
            var i :| 0 <= i < |items| && IsImageStep(items[i], p);
            if i > 0 {
              assert IsImageStep(items[1..][i - 1], p);
            }
          }
        }
      }
    }
  }

  lemma {:induction false} WritesEntry(item: Node, dir: Path, out: seq<Node>, blocked: bool,
                                       st: Stats, failing: set<Path>)
    ensures var w := ProcessEntry(item, dir, out, blocked, st, failing);
      !w.aborted && w.stats.errorFiles == st.errorFiles ==>
        forall p :: |p| > 0 && IsImageStep(item, p) ==> !blocked && Present(w.out, TargetPath(p))
    decreases item, 0
  {
    var w := ProcessEntry(item, dir, out, blocked, st, failing);
    match item
    case File(n, c) =>
      if IsImageName(n) && w.stats.errorFiles == st.errorFiles {
        assert !WriteFails(dir + [n], TargetName(n), out, blocked, failing);
        forall p | |p| > 0 && IsImageStep(item, p)
          ensures Present(w.out, TargetPath(p))
        {
          assert TargetPath(p) == [TargetName(n)];
        }
      }
    case Dir(n, kids) =>
      WritesDirectory(n, kids, dir, out, blocked, st, failing);
      if !w.aborted && w.stats.errorFiles == st.errorFiles {
        forall p | |p| > 0 && IsImageStep(item, p)
          ensures !blocked && Present(w.out, TargetPath(p))
        {
          assert p == [n] + p[1..];
          TargetPathCons(n, p[1..]);
        }
      }
  }

  lemma {:induction false} WritesDirectory(name: string, kids: seq<Node>, parent: Path, out: seq<Node>,
                                           blocked: bool, st: Stats, failing: set<Path>)
    ensures var w := ProcessDirectory(name, kids, parent, out, blocked, st, failing);
      !w.aborted && w.stats.errorFiles == st.errorFiles ==>
        forall q :: IsImageAt(kids, q) ==> !blocked && Present(w.out, [name] + TargetPath(q))
    decreases kids, 1
  {
    if !blocked {
      match Lookup(out, name)
      case Some(File(_, _)) =>
        WritesEntries(kids, parent + [name], [], true, st, failing);
      case Some(Dir(_, sub)) =>
        WritesEntries(kids, parent + [name], sub, false, st, failing);
        MirrorEntries(kids, parent + [name], sub, false, st, failing);
        var inner := ProcessEntries(kids, parent + [name], sub, false, st, failing);
        PutDirKeepsPresent(out, name, inner.out);
      case None =>
        WritesEntries(kids, parent + [name], [], false, st, failing);
        var inner := ProcessEntries(kids, parent + [name], [], false, st, failing);
        PutDirKeepsPresent(out, name, inner.out);
    }
  }

  /** A run that completes without an error has written a file for every
      image below a top-level subdirectory, at the same relative path under
      the assets root with the target name. */
  lemma MainWritesEveryImage(sources: seq<Node>, assets: seq<Node>, failing: set<Path>)
    ensures var w := Main(sources, assets, failing);
      !w.aborted && w.stats.errorFiles == 0 ==>
        forall p :: |p| > 1 && IsImageAt(sources, p) ==> Present(w.out, TargetPath(p))
  {
    var dirs := SubDirectories(sources);
    WritesEntries(dirs, [], assets, false, Stats(CountImageFiles(sources), 0, 0, 0, 0), failing);
    forall p | |p| > 1 && IsImageAt(sources, p)
      ensures IsImageAt(dirs, p)
    {
      var i :| 0 <= i < |sources| && IsImageStep(sources[i], p);
      assert sources[i] in dirs;
      var j :| 0 <= j < |dirs| && dirs[j] == sources[i];
    }
  }
}
