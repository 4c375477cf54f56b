/**
 * `parse_setup_py` (src/c/tools/dependency_tools.py): the requirements
 * listed literally in `setup(install_requires=[...])`.
 *
 * The reader walks the module's syntax tree breadth first (`ast.walk`);
 * at every call of a function named `setup` it looks at the keyword
 * arguments, and for `install_requires` given as a list display it keeps
 * the elements that are string constants, in order.  Reading and parsing
 * the file happen outside any `try`: when either raises, the reader
 * raises, which the model gives as `None`.
 */
module SetupPy {
  import opened Wrappers
  import opened PyAst
  import opened Manifests

  /** `item.s for item in elts if isinstance(item, ast.Str)`: the string constants, in order. */
  function StrLits(elts: seq<Node>): seq<string> {
    if elts == [] then []
    else
      var init := StrLits(elts[..|elts| - 1]);
      var last := elts[|elts| - 1];
      if last.StrLit? then init + [last.s] else init
  }

  /** The strings a keyword argument contributes: those of `install_requires=[...]`, nothing otherwise. */
  function KeywordRequires(kw: Node): seq<string> {
    if kw.Keyword? && kw.arg == Some("install_requires") && kw.value.ListExpr?
    then StrLits(kw.value.elts)
    else []
  }

  /** The strings of a call's keyword arguments, in order. */
  function KeywordsRequires(kws: seq<Node>): seq<string> {
    if kws == [] then []
    else KeywordsRequires(kws[..|kws| - 1]) + KeywordRequires(kws[|kws| - 1])
  }

  /** `isinstance(node, ast.Call) and isinstance(node.func, ast.Name) and node.func.id == 'setup'`. */
  predicate IsSetupCall(n: Node) {
    n.Call? && n.func.Name? && n.func.id == "setup"
  }

  /** The strings one visited node contributes. */
  function NodeRequires(n: Node): seq<string> {
    if IsSetupCall(n) then KeywordsRequires(n.keywords) else []
  }

  /** The strings of visited nodes, in visiting order. */
  function NodesRequires(nodes: seq<Node>): seq<string> {
    if nodes == [] then []
    else NodesRequires(nodes[..|nodes| - 1]) + NodeRequires(nodes[|nodes| - 1])
  }

  /** What `parse_setup_py` returns for the parsed module `tree`; `None` when reading or parsing raised. */
  function SetupPyDeps(path: string, tree: Option<Node>): Option<seq<Dep>> {
    match tree
    case None => None
    case Some(t) => Some(SplitRecords(path, NodesRequires(Walk(t))))
  }

  lemma KeywordsStep(before: seq<string>, kws: seq<Node>, j: nat)
    requires j < |kws|
    ensures before + KeywordsRequires(kws[..j + 1]) == (before + KeywordsRequires(kws[..j])) + KeywordRequires(kws[j])
  {
    assert kws[..j + 1][..j] == kws[..j];
  }

  lemma NodesStep(nodes: seq<Node>, i: nat)
    requires i < |nodes|
    ensures NodesRequires(nodes[..i + 1]) == NodesRequires(nodes[..i]) + NodeRequires(nodes[i])
  {
    assert nodes[..i + 1][..i] == nodes[..i];
  }

  /** `parse_setup_py`, given what reading and parsing the file produced. */
  method ParseSetupPy(path: string, tree: Option<Node>) returns (r: Option<seq<Dep>>)
    ensures r == SetupPyDeps(path, tree)
  {
    if tree.None? {
      return None;
    }
    var nodes := Walk(tree.value);
    var installRequires: seq<string> := [];
    for i := 0 to |nodes|
      invariant installRequires == NodesRequires(nodes[..i])
    {
      var node := nodes[i];
      NodesStep(nodes, i);
      if node.Call? && node.func.Name? && node.func.id == "setup" {
        var keywords := node.keywords;
        ghost var before := installRequires;
        for j := 0 to |keywords|
          invariant installRequires == before + KeywordsRequires(keywords[..j])
        {
          var keyword := keywords[j];
          KeywordsStep(before, keywords, j);
          if keyword.Keyword? && keyword.arg == Some("install_requires") && keyword.value.ListExpr? {
            var listed := StrLits(keyword.value.elts);
            assert KeywordRequires(keyword) == listed;
            installRequires := installRequires + listed;
          } else {
            assert KeywordRequires(keyword) == [];
            assert installRequires == installRequires + [];
          }
        }
        assert keywords[..|keywords|] == keywords;
      } else {
        assert installRequires == installRequires + [];
      }
    }
    assert nodes[..|nodes|] == nodes;
    return Some(SplitRecords(path, installRequires));
  }

  /** The strings of a list display are its string constants. */
  lemma {:induction false} StrLitsMember(elts: seq<Node>, s: string)
    ensures s in StrLits(elts) <==> StrLit(s) in elts
  {
    if elts != [] {
      var n := |elts| - 1;
      StrLitsMember(elts[..n], s);
      assert elts == elts[..n] + [elts[n]];
    }
  }

  /** Keyword `kw` is `install_requires=[...]` with the literal `s` among its elements. */
  predicate ListsRequirement(kw: Node, s: string) {
    kw.Keyword? && kw.arg == Some("install_requires") && kw.value.ListExpr? && StrLit(s) in kw.value.elts
  }

  lemma {:induction false} KeywordsMember(kws: seq<Node>, s: string)
    ensures s in KeywordsRequires(kws) <==> exists j :: 0 <= j < |kws| && ListsRequirement(kws[j], s)
  {
    if kws != [] {
      var n := |kws| - 1;
      KeywordsMember(kws[..n], s);
      assert KeywordsRequires(kws) == KeywordsRequires(kws[..n]) + KeywordRequires(kws[n]);
      assert s in KeywordRequires(kws[n]) <==> ListsRequirement(kws[n], s) by {
        if kws[n].Keyword? && kws[n].arg == Some("install_requires") && kws[n].value.ListExpr? {
          StrLitsMember(kws[n].value.elts, s);
        }
      }
      if s in KeywordsRequires(kws[..n]) {
        var j :| 0 <= j < n && ListsRequirement(kws[..n][j], s);
        assert kws[j] == kws[..n][j];
      }
      if j :| 0 <= j < n && ListsRequirement(kws[j], s) {
        assert kws[..n][j] == kws[j];
      }
    }
  }

  /** `n` is a call of `setup` whose `install_requires` list holds the literal `s`. */
  predicate SetupCallLists(n: Node, s: string) {
    IsSetupCall(n) && exists j :: 0 <= j < |n.keywords| && ListsRequirement(n.keywords[j], s)
  }

  /**
   * A string is collected exactly when some visited node is a `setup` call
   * listing it as a string constant in `install_requires=[...]`.
   */
  lemma {:induction false} CollectedIff(nodes: seq<Node>, s: string)
    ensures s in NodesRequires(nodes) <==> exists i :: 0 <= i < |nodes| && SetupCallLists(nodes[i], s)
  {
    if nodes != [] {
      var n := |nodes| - 1;
      var init := nodes[..n];
      CollectedIff(init, s);
      assert NodesRequires(nodes) == NodesRequires(init) + NodeRequires(nodes[n]);
      if IsSetupCall(nodes[n]) {
        KeywordsMember(nodes[n].keywords, s);
      }
      assert s in NodeRequires(nodes[n]) <==> SetupCallLists(nodes[n], s);
      if s in NodesRequires(nodes) {
        if s in NodesRequires(init) {
          var i :| 0 <= i < n && SetupCallLists(init[i], s);
          assert nodes[i] == init[i];
        } else {
          assert SetupCallLists(nodes[n], s);
        }
      }
      forall i | 0 <= i < n && SetupCallLists(nodes[i], s)
        ensures s in NodesRequires(init)
      {
        assert init[i] == nodes[i];
      }
    }
  }

  /**
   * The reader finds every `setup` call of the module, however deeply it
   * is nested (under `if __name__ == "__main__":`, say): a string is
   * collected exactly when some node of the tree is a `setup` call listing
   * it.
   */
  lemma SetupCallAnywhere(t: Node, s: string)
    ensures s in NodesRequires(Walk(t)) <==> exists m :: InTree(m, t) && SetupCallLists(m, s)
  {
    var walk := Walk(t);
    CollectedIff(walk, s);
    if s in NodesRequires(walk) {
      var i :| 0 <= i < |walk| && SetupCallLists(walk[i], s);
      WalkNodes(t, walk[i]);
    }
    if m :| InTree(m, t) && SetupCallLists(m, s) {
      WalkNodes(t, m);
      var i :| 0 <= i < |walk| && walk[i] == m;
    }
  }

  /** `setup(install_requires=[a, b])` alone: the rows of `a` and `b`, in that order. */
  lemma SingleSetupCall(path: string, a: string, b: string, line: int)
    ensures var list := ListExpr([StrLit(a), StrLit(b)]);
            var kw := Keyword(Some("install_requires"), list);
            var call := Call(Name("setup", line), [], [kw]);
            SetupPyDeps(path, Some(call)) == Some(SplitRecords(path, [a, b]))
  {
    var list := ListExpr([StrLit(a), StrLit(b)]);
    var kw := Keyword(Some("install_requires"), list);
    var call := Call(Name("setup", line), [], [kw]);
    SingleSetupCallRequires(call, Name("setup", line), kw, list, a, b);
  }

  lemma SingleSetupCallRequires(call: Node, name: Node, kw: Node, list: Node, a: string, b: string)
    requires name.Name? && name.id == "setup"
    requires list == ListExpr([StrLit(a), StrLit(b)]) && kw == Keyword(Some("install_requires"), list)
    requires call == Call(name, [], [kw])
    ensures NodesRequires(Walk(call)) == [a, b]
  {
    SingleSetupCallWalk(call, name, kw, list, StrLit(a), StrLit(b));
    var walk := Walk(call);
    assert forall k :: 1 <= k < |walk| ==> !IsSetupCall(walk[k]);
    OnlyHeadContributes(walk);
    TwoStrLits(a, b);
    assert [kw][..0] == [];
    assert KeywordsRequires([kw]) == [a, b];
  }

  /** When no visited node but the first is a `setup` call, the first one alone decides. */
  lemma {:induction false} OnlyHeadContributes(nodes: seq<Node>)
    requires nodes != []
    requires forall k :: 1 <= k < |nodes| ==> !IsSetupCall(nodes[k])
    ensures NodesRequires(nodes) == NodeRequires(nodes[0])
  {
    var n := |nodes| - 1;
    if n == 0 {
      assert nodes[..0] == [];
    } else {
      assert nodes[..n][0] == nodes[0];
      OnlyHeadContributes(nodes[..n]);
      assert NodeRequires(nodes[n]) == [];
    }
  }

  lemma TwoStrLits(a: string, b: string)
    ensures StrLits([StrLit(a), StrLit(b)]) == [a, b]
  {
    var x, y := StrLit(a), StrLit(b);
    assert [x][..0] == [];
    assert StrLits([x]) == [a];
    assert [x, y][..1] == [x];
  }

  /** The walk of `call(name, [], [kw])` with `kw` holding the list `[x, y]` of leaves. */
  lemma SingleSetupCallWalk(call: Node, name: Node, kw: Node, list: Node, x: Node, y: Node)
    requires name.Name? && x.StrLit? && y.StrLit?
    requires list == ListExpr([x, y]) && kw.Keyword? && kw.value == list && call == Call(name, [], [kw])
    ensures Walk(call) == [call, name, kw, list, x, y]
  {
    KeywordWalk(kw, list, x, y);
    WalkStep([name, kw]);
    assert [name, kw][1..] + Children(name) == [kw];
    WalkStep([call]);
    assert [call][1..] + Children(call) == [name, kw];
  }

  lemma KeywordWalk(kw: Node, list: Node, x: Node, y: Node)
    requires x.StrLit? && y.StrLit? && list == ListExpr([x, y]) && kw.Keyword? && kw.value == list
    ensures WalkQueue([kw]) == [kw, list, x, y]
  {
    assert WalkQueue([list]) == [list, x, y] by {
      LeavesWalk(x, y);
      WalkStep([list]);
      assert [list][1..] + Children(list) == [x, y];
    }
    WalkStep([kw]);
    assert [kw][1..] + Children(kw) == [list];
  }

  lemma LeavesWalk(x: Node, y: Node)
    requires x.StrLit? && y.StrLit?
    ensures WalkQueue([x, y]) == [x, y]
  {
    WalkStep([y]);
    assert [y][1..] + Children(y) == [];
    WalkStep([x, y]);
    assert [x, y][1..] + Children(x) == [y];
  }
}
