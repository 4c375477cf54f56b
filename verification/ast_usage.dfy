/**
 * src/c/tools/analyze_python_ast.py: the import and attribute-usage report
 * of a repository.
 *
 * `ImportUsageVisitor` is an `ast.NodeVisitor`: `visit` dispatches on the
 * node's class to `visit_Import`, `visit_ImportFrom`, `visit_Attribute`,
 * `visit_Call` or `generic_visit`, and `generic_visit` visits the child
 * nodes in field order.  The visitor therefore sees the tree depth first,
 * each node before its children, and appends to its two lists as it goes.
 * `analyze_repo` runs a fresh visitor over every ".py" file of the walk
 * and lists what it found as rows.
 */
module AstUsage {
  import opened Wrappers
  import opened PyText
  import opened PyPath
  import opened PyAst

  /** A name and the line it was seen on. */
  type Sighting = (string, int)

  // ---------------------------------------------------------------------
  // What the visitor sees, and in which order

  /** The nodes in the order `NodeVisitor.visit` reaches them: depth first, each node before its children. */
  function PreOrder(n: Node): (r: seq<Node>)
    decreases Size(n), 1
    ensures r != [] && r[0] == n
  {
    ChildrenSize(n);
    [n] + PreOrderAll(Children(n))
  }

  /** The pre-orders of a forest, one tree after the other. */
  function PreOrderAll(ns: seq<Node>): seq<Node>
    decreases SizeAll(ns), 2
  {
    if ns == [] then []
    else
      var last := |ns| - 1;
      assert ns == ns[..last] + [ns[last]];
      SizeAllAppend(ns[..last], [ns[last]]);
      assert [ns[last]][1..] == [];
      PreOrderAll(ns[..last]) + PreOrder(ns[last])
  }

  /** How the f-string shows `node.module`: `None` for `from . import x`. */
  function ModuleText(m: Option<string>): string {
    match m case None => "None" case Some(s) => s
  }

  /** `names` tagged with the statement's line, each prefixed with `prefix`. */
  function Prefixed(prefix: string, names: seq<string>, line: int): seq<Sighting> {
    seq(|names|, k requires 0 <= k < |names| => (prefix + names[k], line))
  }

  /** What `visit_Import` / `visit_ImportFrom` append for node `n` itself, one per imported name. */
  function NodeImports(n: Node): seq<Sighting> {
    match n
    case Import(names, line) => Prefixed("", names, line)
    case ImportFrom(m, names, line) => Prefixed(ModuleText(m) + ".", names, line)
    case _ => []
  }

  /**
   * `import a, b` records `a` and `b`; `from m import x, y` records `m.x`
   * and `m.y`; both at the statement's line, in order.  No other node
   * records an import.
   */
  lemma NodeImportsShape(n: Node)
    ensures var r := NodeImports(n);
            && (n.Import? ==> |r| == |n.names| && forall k :: 0 <= k < |r| ==> r[k] == (n.names[k], n.line))
            && (n.ImportFrom? ==>
                  |r| == |n.names| && forall k :: 0 <= k < |r| ==> r[k] == (ModuleText(n.moduleName) + "." + n.names[k], n.line))
            && (!n.Import? && !n.ImportFrom? ==> r == [])
  {
    if n.Import? {
      forall k | 0 <= k < |n.names| ensures NodeImports(n)[k] == (n.names[k], n.line) {
        assert "" + n.names[k] == n.names[k];
      }
    }
  }

  /** What `visit_Attribute` appends for node `n` itself: `name.attr` when the object is a bare name. */
  function NodeUsage(n: Node): (r: seq<Sighting>)
    ensures |r| <= 1
    ensures r != [] <==> n.Attribute? && n.value.Name?
    ensures r != [] ==> r[0] == (n.value.id + "." + n.attr, n.line)
  {
    if n.Attribute? && n.value.Name? then [(n.value.id + "." + n.attr, n.line)] else []
  }

  /** What a run of visited nodes records, in order, each node adding `f` of itself. */
  function Collect(f: Node -> seq<Sighting>, nodes: seq<Node>): seq<Sighting> {
    if nodes == [] then [] else Collect(f, nodes[..|nodes| - 1]) + f(nodes[|nodes| - 1])
  }

  lemma {:induction false} CollectAppend(f: Node -> seq<Sighting>, a: seq<Node>, b: seq<Node>)
    ensures Collect(f, a + b) == Collect(f, a) + Collect(f, b)
  {
    if b == [] {
      assert a + b == a;
    } else {
      var n := |b| - 1;
      assert (a + b)[..|a + b| - 1] == a + b[..n];
      CollectAppend(f, a, b[..n]);
    }
  }

  /** Visiting `n` after `before` was recorded adds what `n` itself shows, then what its subtrees show. */
  lemma VisitOrder(f: Node -> seq<Sighting>, n: Node, before: seq<Sighting>)
    ensures before + f(n) + Collect(f, PreOrderAll(Children(n))) == before + Collect(f, PreOrder(n))
  {
    var below := Collect(f, PreOrderAll(Children(n)));
    assert Collect(f, PreOrder(n)) == f(n) + below by {
      assert Collect(f, [n]) == f(n) by {
        assert [n][..0] == [];
      }
      CollectAppend(f, [n], PreOrderAll(Children(n)));
    }
    assert before + f(n) + below == before + (f(n) + below);
  }

  /** A node that records nothing itself adds only what its subtrees record. */
  lemma Unrecorded(f: Node -> seq<Sighting>, n: Node)
    requires f(n) == []
    ensures Collect(f, PreOrder(n)) == Collect(f, PreOrderAll(Children(n)))
  {
    VisitOrder(f, n, []);
    var below := Collect(f, PreOrderAll(Children(n)));
    assert [] + [] + below == below;
    assert [] + Collect(f, PreOrder(n)) == Collect(f, PreOrder(n));
  }

  /** Visiting child `i` after children `..i` records what children `..i + 1` record. */
  lemma ChildVisited(f: Node -> seq<Sighting>, children: seq<Node>, i: nat, before: seq<Sighting>)
    requires i < |children|
    ensures before + Collect(f, PreOrderAll(children[..i])) + Collect(f, PreOrder(children[i]))
            == before + Collect(f, PreOrderAll(children[..i + 1]))
  {
    assert children[..i + 1][..i] == children[..i];
    var done, next := PreOrderAll(children[..i]), PreOrder(children[i]);
    CollectAppend(f, done, next);
    var x, y := Collect(f, done), Collect(f, next);
    assert before + x + y == before + (x + y);
  }

  // ---------------------------------------------------------------------
  // The visitor

  /** `ImportUsageVisitor`: the imports and the attribute usages seen so far, in visiting order. */
  class ImportUsageVisitor {
    var imports: seq<Sighting>
    var usage: seq<Sighting>

    constructor ()
      ensures imports == [] && usage == []
    {
      imports := [];
      usage := [];
    }

    /** `visit`: dispatch on the node's class. */
    method Visit(n: Node)
      modifies this
      decreases Size(n), 2
      ensures imports == old(imports) + Collect(NodeImports, PreOrder(n))
      ensures usage == old(usage) + Collect(NodeUsage, PreOrder(n))
    {
      match n
      case Import(_, _) => VisitImport(n);
      case ImportFrom(_, _, _) => VisitImportFrom(n);
      case Attribute(_, _, _) => VisitAttribute(n);
      case Call(_, _, _) => VisitCall(n);
      case _ =>
        assert NodeImports(n) == [] && NodeUsage(n) == [];
        GenericVisit(n);
        Unrecorded(NodeImports, n);
        Unrecorded(NodeUsage, n);
    }

    /** `visit_Import`: one `(name, line)` per alias, then the children. */
    method VisitImport(n: Node)
      requires n.Import?
      modifies this
      decreases Size(n), 1
      ensures imports == old(imports) + Collect(NodeImports, PreOrder(n))
      ensures usage == old(usage) + Collect(NodeUsage, PreOrder(n))
    {
      ghost var found := NodeImports(n);
      NodeImportsShape(n);
      for k := 0 to |n.names|
        invariant imports == old(imports) + found[..k]
        invariant usage == old(usage)
      {
        imports := imports + [(n.names[k], n.line)];
        assert found[..k + 1] == found[..k] + [found[k]];
      }
      assert found[..|n.names|] == found;
      assert NodeUsage(n) == [];
      GenericVisit(n);
      VisitOrder(NodeImports, n, old(imports));
      VisitOrder(NodeUsage, n, old(usage));
    }

    /** `visit_ImportFrom`: one `(f"{module}.{name}", line)` per alias, then the children. */
    method VisitImportFrom(n: Node)
      requires n.ImportFrom?
      modifies this
      decreases Size(n), 1
      ensures imports == old(imports) + Collect(NodeImports, PreOrder(n))
      ensures usage == old(usage) + Collect(NodeUsage, PreOrder(n))
    {
      ghost var found := NodeImports(n);
      NodeImportsShape(n);
      var moduleText := ModuleText(n.moduleName);
      for k := 0 to |n.names|
        invariant imports == old(imports) + found[..k]
        invariant usage == old(usage)
      {
        imports := imports + [(moduleText + "." + n.names[k], n.line)];
        assert found[..k + 1] == found[..k] + [found[k]];
      }
      assert found[..|n.names|] == found;
      assert NodeUsage(n) == [];
      GenericVisit(n);
      VisitOrder(NodeImports, n, old(imports));
      VisitOrder(NodeUsage, n, old(usage));
    }

    /** `visit_Attribute`: `name.attr` when the object is a bare name, then the children. */
    method VisitAttribute(n: Node)
      requires n.Attribute?
      modifies this
      decreases Size(n), 1
      ensures imports == old(imports) + Collect(NodeImports, PreOrder(n))
      ensures usage == old(usage) + Collect(NodeUsage, PreOrder(n))
    {
      if n.value.Name? {
        usage := usage + [(n.value.id + "." + n.attr, n.line)];
      }
      assert usage == old(usage) + NodeUsage(n);
      assert imports == old(imports) + NodeImports(n);
      GenericVisit(n);
      VisitOrder(NodeImports, n, old(imports));
      VisitOrder(NodeUsage, n, old(usage));
    }

    /** `visit_Call`: nothing of its own, only the children. */
    method VisitCall(n: Node)
      requires n.Call?
      modifies this
      decreases Size(n), 1
      ensures imports == old(imports) + Collect(NodeImports, PreOrder(n))
      ensures usage == old(usage) + Collect(NodeUsage, PreOrder(n))
    {
      assert NodeImports(n) == [] && NodeUsage(n) == [];
      GenericVisit(n);
      Unrecorded(NodeImports, n);
      Unrecorded(NodeUsage, n);
    }

    /** `generic_visit`: visit each child node, in field order. */
    method GenericVisit(n: Node)
      modifies this
      decreases Size(n), 0
      ensures imports == old(imports) + Collect(NodeImports, PreOrderAll(Children(n)))
      ensures usage == old(usage) + Collect(NodeUsage, PreOrderAll(Children(n)))
    {
      var children := Children(n);
      ChildrenSize(n);
      for i := 0 to |children|
        invariant imports == old(imports) + Collect(NodeImports, PreOrderAll(children[..i]))
        invariant usage == old(usage) + Collect(NodeUsage, PreOrderAll(children[..i]))
      {
        SizeOfMember(children, i);
        Visit(children[i]);
        ChildVisited(NodeImports, children, i, old(imports));
        ChildVisited(NodeUsage, children, i, old(usage));
      }
      assert children[..|children|] == children;
    }
  }

  // ---------------------------------------------------------------------
  // Properties of the traversal

  lemma {:induction false} PreOrderNodes(n: Node, m: Node)
    ensures m in PreOrder(n) <==> InTree(m, n)
    decreases Size(n), 1
  {
    ChildrenSize(n);
    PreOrderAllNodes(Children(n), m);
  }

  lemma {:induction false} PreOrderAllNodes(ns: seq<Node>, m: Node)
    ensures m in PreOrderAll(ns) <==> InForest(m, ns)
    decreases SizeAll(ns), 2
  {
    if ns != [] {
      var last := |ns| - 1;
      assert ns == ns[..last] + [ns[last]];
      SizeAllAppend(ns[..last], [ns[last]]);
      assert [ns[last]][1..] == [];
      PreOrderAllNodes(ns[..last], m);
      PreOrderNodes(ns[last], m);
      InForestAppend(m, ns[..last], [ns[last]]);
    }
  }

  /**
   * The visitor reaches exactly the nodes `ast.walk` yields: the two
   * traversals differ in order (depth first against breadth first), not in
   * what they see.
   */
  lemma VisitsWhatWalkYields(n: Node, m: Node)
    ensures m in PreOrder(n) <==> m in Walk(n)
  {
    PreOrderNodes(n, m);
    WalkNodes(n, m);
  }

  lemma {:induction false} CollectMember(f: Node -> seq<Sighting>, nodes: seq<Node>, s: Sighting)
    ensures s in Collect(f, nodes) <==> exists k :: 0 <= k < |nodes| && s in f(nodes[k])
  {
    if nodes != [] {
      var n := |nodes| - 1;
      CollectMember(f, nodes[..n], s);
      assert forall k :: 0 <= k < n ==> nodes[..n][k] == nodes[k];
    }
  }

  /**
   * A usage is recorded exactly when some node of the tree is an attribute
   * access `name.attr` on a bare name, at that node's line.
   */
  lemma UsageRecorded(t: Node, s: Sighting)
    ensures s in Collect(NodeUsage, PreOrder(t))
            <==> exists m :: InTree(m, t) && m.Attribute? && m.value.Name? && s == (m.value.id + "." + m.attr, m.line)
  {
    var nodes := PreOrder(t);
    CollectMember(NodeUsage, nodes, s);
    if s in Collect(NodeUsage, nodes) {
      var k :| 0 <= k < |nodes| && s in NodeUsage(nodes[k]);
      PreOrderNodes(t, nodes[k]);
    }
    if m :| InTree(m, t) && m.Attribute? && m.value.Name? && s == (m.value.id + "." + m.attr, m.line) {
      PreOrderNodes(t, m);
      var k :| 0 <= k < |nodes| && nodes[k] == m;
      assert s in NodeUsage(nodes[k]);
    }
  }

  /** An import is recorded exactly when some `import` or `from ... import` statement of the tree names it. */
  lemma ImportRecorded(t: Node, s: Sighting)
    ensures s in Collect(NodeImports, PreOrder(t)) <==> exists m :: InTree(m, t) && s in NodeImports(m)
  {
    var nodes := PreOrder(t);
    CollectMember(NodeImports, nodes, s);
    if s in Collect(NodeImports, nodes) {
      var k :| 0 <= k < |nodes| && s in NodeImports(nodes[k]);
      PreOrderNodes(t, nodes[k]);
    }
    if m :| InTree(m, t) && s in NodeImports(m) {
      PreOrderNodes(t, m);
      var k :| 0 <= k < |nodes| && nodes[k] == m;
    }
  }

  lemma PreOrderAllOne(m: Node)
    ensures PreOrderAll([m]) == PreOrder(m)
  {
    assert [m][..0] == [];
  }

  lemma CollectThree(f: Node -> seq<Sighting>, x: Node, y: Node, z: Node)
    ensures Collect(f, [x, y, z]) == f(x) + f(y) + f(z)
  {
    assert Collect(f, [x]) == f(x) by {
      assert [x][..0] == [];
    }
    assert Collect(f, [x, y]) == f(x) + f(y) by {
      assert [x, y][..1] == [x];
    }
    assert [x, y, z][..2] == [x, y];
  }

  /** The visitor reaches `a.b.c` as the outer access, then `a.b`, then `a`. */
  lemma ChainedPreOrder(name: Node, inner: Node, outer: Node)
    requires name.Name? && inner.Attribute? && inner.value == name && outer.Attribute? && outer.value == inner
    ensures PreOrder(outer) == [outer, inner, name]
  {
    assert PreOrder(name) == [name] by {
      assert PreOrderAll([]) == [];
    }
    assert PreOrder(inner) == [inner, name] by {
      PreOrderAllOne(name);
    }
    assert PreOrder(outer) == [outer, inner, name] by {
      PreOrderAllOne(inner);
    }
  }

  /** `a.b.c` records only `a.b`: the outer access is on `a.b`, not on a bare name. */
  lemma ChainedAttribute(a: string, b: string, c: string, line: int)
    ensures var inner := Attribute(Name(a, line), b, line);
            var outer := Attribute(inner, c, line);
            Collect(NodeUsage, PreOrder(outer)) == [(a + "." + b, line)] && Collect(NodeImports, PreOrder(outer)) == []
  {
    var name := Name(a, line);
    var inner := Attribute(name, b, line);
    var outer := Attribute(inner, c, line);
    ChainedPreOrder(name, inner, outer);
    CollectThree(NodeUsage, outer, inner, name);
    CollectThree(NodeImports, outer, inner, name);
    assert NodeUsage(outer) == [] && NodeUsage(name) == [];
    assert NodeImports(outer) == [] && NodeImports(inner) == [] && NodeImports(name) == [];
  }

  /** `from . import x` records `None.x`: the f-string shows the missing module as `None`. */
  lemma RelativeImportRecorded(x: string, line: int)
    ensures Collect(NodeImports, PreOrder(ImportFrom(None, [x], line))) == [("None." + x, line)]
  {
    var n := ImportFrom(None, [x], line);
    assert PreOrder(n) == [n];
    assert Collect(NodeImports, [n]) == NodeImports(n) by {
      assert [n][..0] == [];
    }
    NodeImportsShape(n);
    assert ModuleText(None) + "." + x == "None." + x;
  }

  // ---------------------------------------------------------------------
  // analyze_repo

  /** One row of the report: `(file_path, category, name, line)`. */
  datatype Row = Row(path: string, category: string, name: string, line: int)

  /**
   * What happens to a ".py" file: it cannot be opened (`open` is outside
   * the `try`, so `analyze_repo` raises), reading or parsing it raises with
   * a message (`str(e)`), or it parses to a tree.
   */
  datatype FileState = Unopenable | Failed(message: string) | Parsed(tree: Node)

  /** The repository as `analyze_repo` sees it: the walk, `os.path.normpath`, and each path's file. */
  datatype Repo = Repo(walk: seq<Directory>, normpath: string -> string, file: string -> FileState)

  /** The rows `(path, category, name, line)` for the sightings `items`, in order. */
  function Tagged(path: string, category: string, items: seq<Sighting>): (r: seq<Row>)
    ensures |r| == |items|
    ensures forall k :: 0 <= k < |r| ==> r[k] == Row(path, category, items[k].0, items[k].1)
  {
    seq(|items|, k requires 0 <= k < |items| => Row(path, category, items[k].0, items[k].1))
  }

  function FilePath(repo: Repo, root: string, name: string): string {
    repo.normpath(JoinPath(root, name))
  }

  /** The rows of one file that opens: its imports then its usages, or one error row. */
  function FileReport(path: string, state: FileState): seq<Row> {
    match state
    case Unopenable => []
    case Failed(message) => [Row(path, "error", message, -1)]
    case Parsed(tree) => Tagged(path, "import", Collect(NodeImports, PreOrder(tree))) + Tagged(path, "usage", Collect(NodeUsage, PreOrder(tree)))
  }

  /** The rows one entry of a directory contributes: nothing unless it is a ".py" file. */
  function EntryRows(repo: Repo, root: string, name: string): seq<Row> {
    if EndsWith(name, ".py") then FileReport(FilePath(repo, root, name), repo.file(FilePath(repo, root, name))) else []
  }

  /** An entry that makes `analyze_repo` raise: a ".py" file `open` fails on. */
  predicate Raises(repo: Repo, root: string, name: string) {
    EndsWith(name, ".py") && repo.file(FilePath(repo, root, name)).Unopenable?
  }

  /** No entry of `names` in directory `root` makes `analyze_repo` raise. */
  predicate NamesOpen(repo: Repo, root: string, names: seq<string>) {
    names == [] || (NamesOpen(repo, root, names[..|names| - 1]) && !Raises(repo, root, names[|names| - 1]))
  }

  /** Every ".py" file of every directory in `dirs` opens. */
  predicate DirectoriesOpen(repo: Repo, dirs: seq<Directory>) {
    dirs == [] || (DirectoriesOpen(repo, dirs[..|dirs| - 1]) && NamesOpen(repo, dirs[|dirs| - 1].path, dirs[|dirs| - 1].files))
  }

  function NamesRows(repo: Repo, root: string, names: seq<string>): seq<Row> {
    if names == [] then [] else NamesRows(repo, root, names[..|names| - 1]) + EntryRows(repo, root, names[|names| - 1])
  }

  function WalkRows(repo: Repo, dirs: seq<Directory>): seq<Row> {
    if dirs == [] then [] else WalkRows(repo, dirs[..|dirs| - 1]) + NamesRows(repo, dirs[|dirs| - 1].path, dirs[|dirs| - 1].files)
  }

  /** What `analyze_repo` returns; `None` when it raises, which it does when some ".py" file cannot be opened. */
  function RepoReport(repo: Repo): Option<seq<Row>> {
    if DirectoriesOpen(repo, repo.walk) then Some(WalkRows(repo, repo.walk)) else None
  }

  lemma NamesStep(repo: Repo, root: string, names: seq<string>, j: nat)
    requires j < |names|
    ensures NamesRows(repo, root, names[..j + 1]) == NamesRows(repo, root, names[..j]) + EntryRows(repo, root, names[j])
    ensures NamesOpen(repo, root, names[..j + 1]) <==> NamesOpen(repo, root, names[..j]) && !Raises(repo, root, names[j])
  {
    assert names[..j + 1][..j] == names[..j];
  }

  lemma WalkStepRows(repo: Repo, dirs: seq<Directory>, i: nat)
    requires i < |dirs|
    ensures WalkRows(repo, dirs[..i + 1]) == WalkRows(repo, dirs[..i]) + NamesRows(repo, dirs[i].path, dirs[i].files)
    ensures DirectoriesOpen(repo, dirs[..i + 1]) <==> DirectoriesOpen(repo, dirs[..i]) && NamesOpen(repo, dirs[i].path, dirs[i].files)
  {
    assert dirs[..i + 1][..i] == dirs[..i];
  }

  /** One entry that raises is enough for the whole directory to raise. */
  lemma {:induction false} NamesOpenPrefix(repo: Repo, root: string, names: seq<string>, j: nat)
    requires j < |names| && Raises(repo, root, names[j])
    ensures !NamesOpen(repo, root, names)
  {
    var n := |names| - 1;
    if j < n {
      assert names[..n][j] == names[j];
      NamesOpenPrefix(repo, root, names[..n], j);
    }
  }

  /** One directory that raises is enough for the whole walk to raise. */
  lemma {:induction false} DirectoriesOpenPrefix(repo: Repo, dirs: seq<Directory>, i: nat)
    requires i < |dirs| && !NamesOpen(repo, dirs[i].path, dirs[i].files)
    ensures !DirectoriesOpen(repo, dirs)
  {
    var n := |dirs| - 1;
    if i < n {
      assert dirs[..n][i] == dirs[i];
      DirectoriesOpenPrefix(repo, dirs[..n], i);
    }
  }

  /** A directory opens exactly when none of its entries is a ".py" file that `open` fails on. */
  lemma {:induction false} NamesOpenIff(repo: Repo, root: string, names: seq<string>)
    ensures NamesOpen(repo, root, names) <==> forall k :: 0 <= k < |names| ==> !Raises(repo, root, names[k])
  {
    if names != [] {
      var n := |names| - 1;
      NamesOpenIff(repo, root, names[..n]);
      assert forall k :: 0 <= k < n ==> names[..n][k] == names[k];
    }
  }

  /** The walk opens exactly when no directory holds a ".py" file that `open` fails on. */
  lemma {:induction false} DirectoriesOpenIff(repo: Repo, dirs: seq<Directory>)
    ensures DirectoriesOpen(repo, dirs) <==>
      forall i, k :: 0 <= i < |dirs| && 0 <= k < |dirs[i].files| ==> !Raises(repo, dirs[i].path, dirs[i].files[k])
  {
    if dirs != [] {
      var n := |dirs| - 1;
      DirectoriesOpenIff(repo, dirs[..n]);
      NamesOpenIff(repo, dirs[n].path, dirs[n].files);
      assert forall i :: 0 <= i < n ==> dirs[..n][i] == dirs[i];
    }
  }

  /**
   * `analyze_repo` raises exactly when some ".py" file of the walk cannot be
   * opened; otherwise it returns the rows of every entry, directory by
   * directory and entry by entry, in the order of the walk.
   */
  lemma RepoReportRaises(repo: Repo)
    ensures RepoReport(repo).None? <==>
      exists i, k :: 0 <= i < |repo.walk| && 0 <= k < |repo.walk[i].files| && Raises(repo, repo.walk[i].path, repo.walk[i].files[k])
    ensures RepoReport(repo).Some? ==> RepoReport(repo).value == WalkRows(repo, repo.walk)
  {
    DirectoriesOpenIff(repo, repo.walk);
  }

  /** `results.append((path, category, name, line))` for each sighting, in order. */
  method AppendTagged(results: seq<Row>, path: string, category: string, items: seq<Sighting>) returns (out: seq<Row>)
    ensures out == results + Tagged(path, category, items)
  {
    out := results;
    for k := 0 to |items|
      invariant out == results + Tagged(path, category, items[..k])
    {
      var (name, line) := items[k];
      assert Tagged(path, category, items[..k + 1]) == Tagged(path, category, items[..k]) + [Row(path, category, name, line)];
      out := out + [Row(path, category, name, line)];
    }
    assert items[..|items|] == items;
  }

  /** The rows of one ".py" file that opens: a fresh visitor over its tree, or the error. */
  method ReportFile(path: string, state: FileState) returns (rows: seq<Row>)
    requires !state.Unopenable?
    ensures rows == FileReport(path, state)
  {
    match state
    case Failed(message) =>
      rows := [Row(path, "error", message, -1)];
    case Parsed(tree) =>
      var visitor := new ImportUsageVisitor();
      visitor.Visit(tree);
      rows := AppendTagged([], path, "import", visitor.imports);
      rows := AppendTagged(rows, path, "usage", visitor.usage);
  }

  /** The inner loop of `analyze_repo` over the files of one directory; `None` when `open` raises. */
  method ReportDirectory(repo: Repo, d: Directory) returns (r: Option<seq<Row>>)
    ensures r.None? <==> !NamesOpen(repo, d.path, d.files)
    ensures r.Some? ==> r.value == NamesRows(repo, d.path, d.files)
  {
    var root, files := d.path, d.files;
    var results := [];
    for j := 0 to |files|
      invariant results == NamesRows(repo, root, files[..j])
      invariant NamesOpen(repo, root, files[..j])
    {
      NamesStep(repo, root, files, j);
      var file := files[j];
      if EndsWith(file, ".py") {
        var filePath := repo.normpath(JoinPath(root, file));
        var state := repo.file(filePath);
        if state.Unopenable? {
          NamesOpenPrefix(repo, root, files, j);
          return None;
        }
        var rows := ReportFile(filePath, state);
        assert EntryRows(repo, root, files[j]) == rows;
        results := results + rows;
      } else {
        assert EntryRows(repo, root, files[j]) == [];
        assert results == results + [];
      }
    }
    assert files[..|files|] == files;
    return Some(results);
  }

  /** `analyze_repo`, given the walk and the files; `None` when it raises. */
  method AnalyzeRepo(repo: Repo) returns (r: Option<seq<Row>>)
    ensures r == RepoReport(repo)
  {
    var results := [];
    var walk := repo.walk;
    for i := 0 to |walk|
      invariant results == WalkRows(repo, walk[..i])
      invariant DirectoriesOpen(repo, walk[..i])
    {
      WalkStepRows(repo, walk, i);
      var found := ReportDirectory(repo, walk[i]);
      if found.None? {
        DirectoriesOpenPrefix(repo, walk, i);
        return None;
      }
      results := results + found.value;
    }
    assert walk[..|walk|] == walk;
    return Some(results);
  }
}
