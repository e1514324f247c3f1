/** The abstract filesystem both scripts walk. A directory lists its entries
    in `readdirSync` order; a file carries its text. Paths are sequences of
    entry names relative to the root being walked. */
module Tree {
  import opened Options

  type Path = seq<string>

  datatype Node = File(name: string, content: string) | Dir(name: string, children: seq<Node>)

  /** The first entry of a listing with the given name (`existsSync` and
      `statSync` of one name inside a directory). */
  function Lookup(nodes: seq<Node>, name: string): (r: Option<Node>)
    ensures r.Some? ==> r.value in nodes && r.value.name == name
    ensures r.None? <==> forall i :: 0 <= i < |nodes| ==> nodes[i].name != name
  {
    if |nodes| == 0 then None
    else if nodes[0].name == name then Some(nodes[0])
    else Lookup(nodes[1..], name)
  }

  /** Writes an entry into a listing: it replaces the entry of the same name,
      or is added when there is none (`writeFileSync`, `copyFileSync` and
      `mkdirSync` all overwrite or create in place). */
  function Put(nodes: seq<Node>, x: Node): (r: seq<Node>)
    ensures Lookup(r, x.name) == Some(x)
    ensures forall n :: n != x.name ==> Lookup(r, n) == Lookup(nodes, n)
    ensures forall y :: y in r ==> y == x || y in nodes
  {
    if |nodes| == 0 then [x]
    else if nodes[0].name == x.name then [x] + nodes[1..]
    else [nodes[0]] + Put(nodes[1..], x)
  }

  /** The files at every depth whose name satisfies `keep`, in walk order. */
  function FilesWhere(nodes: seq<Node>, keep: string -> bool): seq<Node>
    decreases nodes
  {
    if |nodes| == 0 then [] else NodeFilesWhere(nodes[0], keep) + FilesWhere(nodes[1..], keep)
  }

  function NodeFilesWhere(x: Node, keep: string -> bool): seq<Node>
    decreases x
  {
    match x
    case File(n, _) => if keep(n) then [x] else []
    case Dir(_, kids) => FilesWhere(kids, keep)
  }

  predicate AnyName(name: string) {
    true
  }

  /** Every file at every depth. */
  function AllFiles(nodes: seq<Node>): seq<Node> {
    FilesWhere(nodes, AnyName)
  }

  /** Every directory at every depth, not counting the root itself. */
  function AllDirs(nodes: seq<Node>): seq<Node>
    decreases nodes
  {
    if |nodes| == 0 then [] else NodeDirs(nodes[0]) + AllDirs(nodes[1..])
  }

  function NodeDirs(x: Node): seq<Node>
    decreases x
  {
    match x
    case File(_, _) => []
    case Dir(_, kids) => [x] + AllDirs(kids)
  }

  /** The files of a listing with one more entry appended. */
  lemma {:induction false} FilesWhereAppend(nodes: seq<Node>, x: Node, keep: string -> bool)
    ensures FilesWhere(nodes + [x], keep) == FilesWhere(nodes, keep) + NodeFilesWhere(x, keep)
  {
    if |nodes| == 0 {
      assert FilesWhere([x], keep) == NodeFilesWhere(x, keep) + FilesWhere([], keep);
    } else {
      assert (nodes + [x])[1..] == nodes[1..] + [x];
      FilesWhereAppend(nodes[1..], x, keep);
    }
  }

  /** A file is collected exactly when it occurs at some depth and passes
      `keep`; nothing else is collected. */
  lemma {:induction false} FilesWhereMembers(nodes: seq<Node>, keep: string -> bool, f: Node)
    ensures f in FilesWhere(nodes, keep) <==> f in AllFiles(nodes) && keep(f.name)
    ensures f in AllFiles(nodes) ==> f.File?
    decreases nodes
  {
    if |nodes| > 0 {
      FilesWhereMembers(nodes[1..], keep, f);
      NodeFilesWhereMembers(nodes[0], keep, f);
    }
  }

  lemma {:induction false} NodeFilesWhereMembers(x: Node, keep: string -> bool, f: Node)
    ensures f in NodeFilesWhere(x, keep) <==> f in NodeFilesWhere(x, AnyName) && keep(f.name)
    ensures f in NodeFilesWhere(x, AnyName) ==> f.File?
    decreases x
  {
    match x
    case File(_, _) =>
    case Dir(_, kids) => FilesWhereMembers(kids, keep, f);
  }

  /** Every file is either collected by `keep` or by its negation, so the two
      counts add up to the number of files. */
  lemma {:induction false} FilesWherePartition(nodes: seq<Node>, keep: string -> bool, drop: string -> bool)
    requires forall n :: drop(n) <==> !keep(n)
    ensures |FilesWhere(nodes, keep)| + |FilesWhere(nodes, drop)| == |AllFiles(nodes)|
    decreases nodes
  {
    if |nodes| > 0 {
      FilesWherePartition(nodes[1..], keep, drop);
      match nodes[0]
      case File(n, _) =>
        assert AnyName(n);
        assert NodeFilesWhere(nodes[0], AnyName) == [nodes[0]];
        assert |NodeFilesWhere(nodes[0], keep)| + |NodeFilesWhere(nodes[0], drop)| == 1;
      case Dir(_, kids) =>
        FilesWherePartition(kids, keep, drop);
        assert AllFiles(kids) == NodeFilesWhere(nodes[0], AnyName);
    }
  }

  /** Every file at every depth satisfies `ok`. */
  predicate EveryFile(nodes: seq<Node>, ok: Node -> bool)
  {
    forall x :: x in nodes ==> NodeOk(x, ok)
  }

  predicate NodeOk(x: Node, ok: Node -> bool)
  {
    match x
    case File(_, _) => ok(x)
    case Dir(_, kids) => EveryFile(kids, ok)
  }

  /** The recursive invariant says the same as a statement about the list of
      all files. */
  lemma {:induction false} EveryFileAllFiles(nodes: seq<Node>, ok: Node -> bool)
    ensures EveryFile(nodes, ok) <==> forall f :: f in AllFiles(nodes) ==> ok(f)
    decreases nodes
  {
    if |nodes| > 0 {
      EveryFileAllFiles(nodes[1..], ok);
      NodeOkAllFiles(nodes[0], ok);
      assert forall x :: x in nodes <==> x == nodes[0] || x in nodes[1..];
      assert EveryFile(nodes, ok) <==> NodeOk(nodes[0], ok) && EveryFile(nodes[1..], ok);
    }
  }

  lemma {:induction false} NodeOkAllFiles(x: Node, ok: Node -> bool)
    ensures NodeOk(x, ok) <==> forall f :: f in NodeFilesWhere(x, AnyName) ==> ok(f)
    decreases x
  {
    match x
    case File(_, _) =>
    case Dir(_, kids) => EveryFileAllFiles(kids, ok);
  }

  /** `p` names a directory at some depth below the root. */
  predicate IsDirPath(nodes: seq<Node>, p: Path)
  {
    && |p| > 0
    && exists i :: 0 <= i < |nodes| && IsDirStep(nodes[i], p)
  }

  predicate IsDirStep(x: Node, p: Path)
    requires |p| > 0
  {
    x.Dir? && x.name == p[0] && (|p| == 1 || IsDirPath(x.children, p[1..]))
  }

  /** `existsSync` of a relative path: every prefix names an entry, and all
      but the last are directories. */
  predicate Present(nodes: seq<Node>, p: Path)
    decreases |p|
  {
    |p| == 0 ||
    match Lookup(nodes, p[0])
    case None => false
    case Some(x) => |p| == 1 || (x.Dir? && Present(x.children, p[1..]))
  }

  /** Two listings with the same entries, names and nesting, in the same
      order, whatever their files hold. */
  predicate SameShape(a: seq<Node>, b: seq<Node>)
    decreases a
  {
    |a| == |b| && forall i :: 0 <= i < |a| ==> SameNodeShape(a[i], b[i])
  }

  predicate SameNodeShape(x: Node, y: Node)
    decreases x
  {
    match x
    case File(n, _) => y.File? && y.name == n
    case Dir(n, kids) => y.Dir? && y.name == n && SameShape(kids, y.children)
  }

  /** Every listing has its own shape. */
  lemma {:induction false} SameShapeReflexive(a: seq<Node>)
    ensures SameShape(a, a)
    decreases a
  {
    forall i | 0 <= i < |a|
      ensures SameNodeShape(a[i], a[i])
    {
      SameNodeShapeReflexive(a[i]);
    }
  }

  lemma {:induction false} SameNodeShapeReflexive(x: Node)
    ensures SameNodeShape(x, x)
    decreases x
  {
    match x
    case File(_, _) =>
    case Dir(_, kids) => SameShapeReflexive(kids);
  }
}
