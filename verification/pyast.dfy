/**
 * The part of Python's `ast` that the analysis code looks at, and
 * `ast.walk`.  Nodes the code never inspects are `Other`, which keeps
 * their children; aliases and expression contexts, which have no children
 * and are never matched, are left out of the tree.
 */
module PyAst {
  import opened Wrappers

  datatype Node =
    | Import(names: seq<string>, line: int)                      // import a, b
    | ImportFrom(moduleName: Option<string>, names: seq<string>, line: int)  // from m import x, y
    | Attribute(value: Node, attr: string, line: int)            // value.attr
    | Name(id: string, line: int)                                // a bare identifier
    | Call(func: Node, args: seq<Node>, keywords: seq<Node>)     // func(*args, **keywords)
    | Keyword(arg: Option<string>, value: Node)                  // arg=value inside a call
    | ListExpr(elts: seq<Node>)                                  // [e1, e2, ...]
    | StrLit(s: string)                                          // a string constant
    | Other(children: seq<Node>)                                 // any other node

  /** The child nodes, in the order of the node's fields (`ast.iter_child_nodes`). */
  function Children(n: Node): seq<Node> {
    match n
    case Attribute(value, _, _) => [value]
    case Call(func, args, keywords) => [func] + args + keywords
    case Keyword(_, value) => [value]
    case ListExpr(elts) => elts
    case Other(children) => children
    case _ => []
  }

  /** The number of nodes in the tree rooted at `n`. */
  function Size(n: Node): (r: nat)
    decreases n
    ensures r >= 1
  {
    match n
    case Attribute(value, _, _) => 1 + Size(value)
    case Call(func, args, keywords) => 1 + Size(func) + SizeAll(args) + SizeAll(keywords)
    case Keyword(_, value) => 1 + Size(value)
    case ListExpr(elts) => 1 + SizeAll(elts)
    case Other(children) => 1 + SizeAll(children)
    case _ => 1
  }

  /** The number of nodes in a forest. */
  function SizeAll(ns: seq<Node>): nat
    decreases ns
  {
    if ns == [] then 0 else Size(ns[0]) + SizeAll(ns[1..])
  }

  lemma {:induction false} SizeAllAppend(a: seq<Node>, b: seq<Node>)
    ensures SizeAll(a + b) == SizeAll(a) + SizeAll(b)
  {
    if a != [] {
      assert (a + b)[0] == a[0] && (a + b)[1..] == a[1..] + b;
      SizeAllAppend(a[1..], b);
    } else {
      assert a + b == b;
    }
  }

  /** A node counts once more than its children together. */
  lemma ChildrenSize(n: Node)
    ensures SizeAll(Children(n)) == Size(n) - 1
  {
    match n
    case Attribute(value, _, _) =>
      assert [value][1..] == [];
    case Call(func, args, keywords) =>
      SizeAllAppend([func] + args, keywords);
      SizeAllAppend([func], args);
      assert [func][1..] == [];
    case Keyword(_, value) =>
      assert [value][1..] == [];
    case _ =>
  }

  /** A member of a forest is no larger than the forest. */
  lemma {:induction false} SizeOfMember(ns: seq<Node>, i: nat)
    requires i < |ns|
    ensures Size(ns[i]) <= SizeAll(ns)
  {
    if i > 0 { SizeOfMember(ns[1..], i - 1); }
  }

  /** `ast.walk` on a queue of pending nodes: breadth first, each node before its children. */
  function WalkQueue(queue: seq<Node>): (r: seq<Node>)
    decreases SizeAll(queue)
    ensures |r| == SizeAll(queue)
  {
    if queue == [] then []
    else
      var next := queue[1..] + Children(queue[0]);
      SizeAllAppend(queue[1..], Children(queue[0]));
      ChildrenSize(queue[0]);
      [queue[0]] + WalkQueue(next)
  }

  /** One step of the walk: the head of the queue is yielded and its children are queued. */
  lemma WalkStep(queue: seq<Node>)
    requires queue != []
    ensures WalkQueue(queue) == [queue[0]] + WalkQueue(queue[1..] + Children(queue[0]))
  {
  }

  /** `ast.walk(n)`: every node of the tree, breadth first, starting with `n`. */
  function Walk(n: Node): (r: seq<Node>)
    ensures |r| == Size(n) && r[0] == n
  {
    assert [n][1..] == [] && SizeAll([n]) == Size(n) + SizeAll([]);
    WalkQueue([n])
  }

  /** `m` is a node of the tree rooted at `n` (`n` itself included). */
  predicate InTree(m: Node, n: Node)
    decreases Size(n), 0
  {
    ChildrenSize(n);
    m == n || InForest(m, Children(n))
  }

  /** `m` is a node of one of the trees of `ns`. */
  predicate InForest(m: Node, ns: seq<Node>)
    decreases SizeAll(ns), 1
  {
    ns != [] && (InTree(m, ns[0]) || InForest(m, ns[1..]))
  }

  lemma {:induction false} InForestAppend(m: Node, a: seq<Node>, b: seq<Node>)
    ensures InForest(m, a + b) <==> InForest(m, a) || InForest(m, b)
  {
    if a == [] {
      assert a + b == b;
    } else {
      assert (a + b)[0] == a[0] && (a + b)[1..] == a[1..] + b;
      InForestAppend(m, a[1..], b);
    }
  }

  /** The walk of a queue yields exactly the nodes of the queued trees. */
  lemma {:induction false} WalkQueueNodes(queue: seq<Node>, m: Node)
    ensures m in WalkQueue(queue) <==> InForest(m, queue)
    decreases SizeAll(queue)
  {
    if queue != [] {
      var next := queue[1..] + Children(queue[0]);
      SizeAllAppend(queue[1..], Children(queue[0]));
      ChildrenSize(queue[0]);
      WalkStep(queue);
      WalkQueueNodes(next, m);
      InForestAppend(m, queue[1..], Children(queue[0]));
    }
  }

  /** `ast.walk(n)` yields exactly the nodes of the tree rooted at `n`. */
  lemma WalkNodes(n: Node, m: Node)
    ensures m in Walk(n) <==> InTree(m, n)
  {
    WalkQueueNodes([n], m);
    assert [n][1..] == [];
  }
}
