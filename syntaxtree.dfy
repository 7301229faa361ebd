/** A parsed syntax tree as a value, standing for the tree-sitter tree the
    structural search walks: every node has a grammar type, its source
    text, whether it is named, its start and end positions and its ordered
    children. */
module SyntaxTree {
  import opened Text
  import opened Sequences

  /** A 0-based `{row, column}` position. */
  datatype Point = Point(row: nat, column: nat)

  datatype Node = Node(
    nodeType: string,
    text: string,
    isNamed: bool,
    startPosition: Point,
    endPosition: Point,
    children: seq<Node>)

  /** The named nodes of `cs`, in order. */
  function NamedOf(cs: seq<Node>): (r: seq<Node>)
  {
    if cs == [] then []
    else NamedOf(cs[..|cs| - 1]) + (if cs[|cs| - 1].isNamed then [cs[|cs| - 1]] else [])
  }

  /** `node.namedChildren`. */
  function NamedChildren(n: Node): seq<Node>
  {
    NamedOf(n.children)
  }

  /** The named children are drawn from the children and are named. */
  lemma NamedOfSound(cs: seq<Node>)
    ensures forall c :: c in NamedOf(cs) ==> c in cs && c.isNamed
  {
    forall c | c in NamedOf(cs) ensures c in cs && c.isNamed {
      NamedOfExactly(cs, c);
    }
  }

  /** The `i`-th named child is a child, and named. */
  lemma NamedChildAt(n: Node, i: nat)
    requires i < |NamedChildren(n)|
    ensures NamedChildren(n)[i] in n.children && NamedChildren(n)[i].isNamed
  {
    NamedOfExactly(n.children, NamedChildren(n)[i]);
  }

  /** Every named child, and no other, is among the named children. */
  lemma {:induction false} NamedOfExactly(cs: seq<Node>, c: Node)
    ensures c in NamedOf(cs) <==> c in cs && c.isNamed
  {
    if cs != [] {
      NamedOfExactly(cs[..|cs| - 1], c);
      assert cs == cs[..|cs| - 1] + [cs[|cs| - 1]];
    }
  }

  /** The nodes the walk visits: the node itself, then, for each named child
      from left to right, that child's visit. Unnamed children and
      everything below them are not visited. */
  function PreOrder(n: Node): seq<Node>
    decreases n
  {
    [n] + PreOrderList(n.children)
  }

  /** The visits of the named nodes among `cs`, one after the other. */
  function PreOrderList(cs: seq<Node>): seq<Node>
    decreases cs
  {
    if cs == [] then []
    else PreOrderList(cs[..|cs| - 1]) + (if cs[|cs| - 1].isNamed then PreOrder(cs[|cs| - 1]) else [])
  }

  lemma {:induction false} PreOrderListAppend(a: seq<Node>, b: seq<Node>)
    ensures PreOrderList(a + b) == PreOrderList(a) + PreOrderList(b)
    decreases |b|
  {
    if b == [] {
      assert a + b == a;
    } else {
      var init, last := b[..|b| - 1], b[|b| - 1];
      assert (a + b)[..|a + b| - 1] == a + init;
      assert (a + b)[|a + b| - 1] == last;
      var own := if last.isNamed then PreOrder(last) else [];
      assert PreOrderList(a + b) == PreOrderList(a + init) + own;
      assert PreOrderList(b) == PreOrderList(init) + own;
      PreOrderListAppend(a, init);
      AppendAssoc(PreOrderList(a), PreOrderList(init), own);
    }
  }

  /** Visiting the named children is visiting all children while skipping
      the unnamed ones. */
  lemma {:induction false} PreOrderListNamed(cs: seq<Node>)
    ensures PreOrderList(NamedOf(cs)) == PreOrderList(cs)
  {
    if cs != [] {
      var init, last := cs[..|cs| - 1], cs[|cs| - 1];
      PreOrderListNamed(init);
      var tail := if last.isNamed then [last] else [];
      PreOrderListAppend(NamedOf(init), tail);
      if last.isNamed {
        assert ([] + [last])[..0] == [];
        assert PreOrderList([last]) == PreOrder(last);
      }
    }
  }

  /** Every visited node but the first one is named. */
  lemma {:induction false} PreOrderVisitsNamedOnly(n: Node)
    ensures |PreOrder(n)| >= 1 && PreOrder(n)[0] == n
    ensures forall i :: 1 <= i < |PreOrder(n)| ==> PreOrder(n)[i].isNamed
    decreases n
  {
    PreOrderListVisitsNamedOnly(n.children);
  }

  lemma {:induction false} PreOrderListVisitsNamedOnly(cs: seq<Node>)
    ensures forall i :: 0 <= i < |PreOrderList(cs)| ==> PreOrderList(cs)[i].isNamed
    decreases cs
  {
    if cs != [] {
      var init, last := cs[..|cs| - 1], cs[|cs| - 1];
      PreOrderListVisitsNamedOnly(init);
      if last.isNamed {
        PreOrderVisitsNamedOnly(last);
        var a: seq<Node>, b: seq<Node> := PreOrderList(init), PreOrder(last);
        forall i | 0 <= i < |a + b| ensures (a + b)[i].isNamed {
          if i >= |a| && i - |a| == 0 {
            assert (a + b)[i] == last;
          }
        }
      } else {
        assert PreOrderList(cs) == PreOrderList(init) + [];
      }
    }
  }

  // ----- Named paths -----

  /** `p` is a sequence of indices into named children leading from `n`
      down to a node. */
  predicate ValidPath(n: Node, p: seq<nat>)
    decreases |p|
  {
    p == [] || (p[0] < |NamedChildren(n)| && ValidPath(NamedChildren(n)[p[0]], p[1..]))
  }

  /** The node that the named path `p` leads to. */
  function NodeAt(n: Node, p: seq<nat>): Node
    requires ValidPath(n, p)
    decreases |p|
  {
    if p == [] then n else NodeAt(NamedChildren(n)[p[0]], p[1..])
  }

  /** The position of the visit of the node at `p` in `PreOrder(n)`: after
      the node itself and the visits of the named children to its left. */
  function PreIndex(n: Node, p: seq<nat>): nat
    requires ValidPath(n, p)
    decreases |p|
  {
    if p == [] then 0
    else 1 + |PreOrderList(NamedChildren(n)[..p[0]])| + PreIndex(NamedChildren(n)[p[0]], p[1..])
  }

  /** The visit of `n` decomposed around its `k`-th named child. */
  lemma PreOrderAround(n: Node, k: nat)
    requires k < |NamedChildren(n)|
    ensures var ns := NamedChildren(n);
      PreOrder(n) == [n] + PreOrderList(ns[..k]) + PreOrder(ns[k]) + PreOrderList(ns[k + 1..])
  {
    var ns := NamedChildren(n);
    PreOrderListNamed(n.children);
    NamedOfSound(n.children);
    assert ns[k] in ns;
    PreOrderListSplit(ns, k);
    var a, b, c := PreOrderList(ns[..k]), PreOrder(ns[k]), PreOrderList(ns[k + 1..]);
    AppendAssoc([n], a + b, c);
    AppendAssoc([n], a, b);
  }

  /** The visits of a sequence of nodes decomposed around a named one. */
  lemma PreOrderListSplit(ns: seq<Node>, k: nat)
    requires k < |ns| && ns[k].isNamed
    ensures PreOrderList(ns) == PreOrderList(ns[..k]) + PreOrder(ns[k]) + PreOrderList(ns[k + 1..])
  {
    assert ns == ns[..k + 1] + ns[k + 1..];
    PreOrderListAppend(ns[..k + 1], ns[k + 1..]);
    PreOrderListPrefix(ns, k);
  }

  lemma PreOrderListPrefix(ns: seq<Node>, k: nat)
    requires k < |ns| && ns[k].isNamed
    ensures PreOrderList(ns[..k + 1]) == PreOrderList(ns[..k]) + PreOrder(ns[k])
  {
    assert ns[..k + 1][..k] == ns[..k];
    assert ns[..k + 1][k] == ns[k];
  }

  /** Every node at a named path is visited, at position `PreIndex`. */
  lemma {:induction false} PreIndexLocates(n: Node, p: seq<nat>)
    requires ValidPath(n, p)
    ensures PreIndex(n, p) < |PreOrder(n)| && PreOrder(n)[PreIndex(n, p)] == NodeAt(n, p)
    decreases |p|
  {
    if p == [] {
      PreOrderHead(n);
    } else {
      PathStep(n, p);
      var k, rest := p[0], p[1..];
      var child := NamedChildren(n)[k];
      PreIndexLocates(child, rest);
      LocateStep(n, k, PreIndex(child, rest), NodeAt(child, rest));
    }
  }

  lemma PreOrderHead(n: Node)
    ensures |PreOrder(n)| >= 1 && PreOrder(n)[0] == n
  {
  }

  /** A non-empty named path is a step to a named child followed by a
      named path from that child. */
  lemma PathStep(n: Node, p: seq<nat>)
    requires ValidPath(n, p) && p != []
    ensures p[0] < |NamedChildren(n)|
    ensures var child := NamedChildren(n)[p[0]];
      ValidPath(child, p[1..]) &&
      PreIndex(n, p) == 1 + |PreOrderList(NamedChildren(n)[..p[0]])| + PreIndex(child, p[1..]) &&
      NodeAt(n, p) == NodeAt(child, p[1..])
  {
  }

  /** Position `j` of the visit of the `k`-th named child is position
      `1 + |visits of its left siblings| + j` of the parent's visit. */
  lemma LocateStep(n: Node, k: nat, j: nat, x: Node)
    requires k < |NamedChildren(n)|
    requires j < |PreOrder(NamedChildren(n)[k])| && PreOrder(NamedChildren(n)[k])[j] == x
    ensures var i := 1 + |PreOrderList(NamedChildren(n)[..k])| + j;
      i < |PreOrder(n)| && PreOrder(n)[i] == x
  {
    var ns := NamedChildren(n);
    PreOrderAround(n, k);
    IndexInMiddle([n] + PreOrderList(ns[..k]), PreOrder(ns[k]), PreOrderList(ns[k + 1..]), j);
  }

  /** Different named paths lead to different visits: no node is visited
      twice. */
  lemma {:induction false} PreIndexInjective(n: Node, p: seq<nat>, q: seq<nat>)
    requires ValidPath(n, p) && ValidPath(n, q) && p != q
    ensures PreIndex(n, p) != PreIndex(n, q)
    decreases |p|
  {
    if p == [] {
      PathStep(n, q);
    } else if q == [] {
      PathStep(n, p);
    } else if p[0] < q[0] {
      SiblingsVisitedInOrder(n, p, q);
    } else if q[0] < p[0] {
      SiblingsVisitedInOrder(n, q, p);
    } else {
      PathStep(n, p);
      PathStep(n, q);
      assert p == [p[0]] + p[1..];
      assert q == [q[0]] + q[1..];
      PreIndexInjective(NamedChildren(n)[p[0]], p[1..], q[1..]);
    }
  }

  /** Everything below a named child is visited before everything below a
      later named child. */
  lemma SiblingsVisitedInOrder(n: Node, p: seq<nat>, q: seq<nat>)
    requires ValidPath(n, p) && ValidPath(n, q) && p != [] && q != [] && p[0] < q[0]
    ensures PreIndex(n, p) < PreIndex(n, q)
  {
    PathStep(n, p);
    PathStep(n, q);
    var ns, a := NamedChildren(n), p[0];
    PreIndexLocates(ns[a], p[1..]);
    NamedChildAt(n, a);
    PreOrderListPrefix(ns, a);
    PreOrderListPrefixGrows(ns, a, q[0]);
  }

  /** The visits of the first `a + 1` of `ns` are no longer than those of
      the first `b`, for `a < b`. */
  lemma PreOrderListPrefixGrows(ns: seq<Node>, a: nat, b: nat)
    requires a < b <= |ns|
    ensures |PreOrderList(ns[..a + 1])| <= |PreOrderList(ns[..b])|
  {
    assert ns[..b] == ns[..a + 1] + ns[a + 1..b];
    PreOrderListAppend(ns[..a + 1], ns[a + 1..b]);
  }

  /** A node is visited before every node below it on its named path. */
  lemma {:induction false} AncestorVisitedFirst(n: Node, p: seq<nat>, k: nat)
    requires ValidPath(n, p) && k < |p|
    ensures ValidPath(n, p[..k]) && PreIndex(n, p[..k]) < PreIndex(n, p)
    decreases |p|
  {
    if k > 0 {
      AncestorVisitedFirst(NamedChildren(n)[p[0]], p[1..], k - 1);
      assert p[..k][1..] == p[1..][..k - 1];
    }
  }

  /** Conversely, every visit is the visit of the node at some named
      path: the walk visits the nodes on named paths and nothing else. */
  lemma {:induction false} VisitHasPath(n: Node, i: nat) returns (p: seq<nat>)
    requires i < |PreOrder(n)|
    ensures ValidPath(n, p) && PreIndex(n, p) == i
    decreases n
  {
    if i == 0 {
      p := [];
    } else {
      var ns := NamedChildren(n);
      PreOrderListNamed(n.children);
      NamedOfSound(n.children);
      var k := ChildContaining(ns, i - 1);
      assert ns[k] in n.children;
      var q := VisitHasPath(ns[k], i - 1 - |PreOrderList(ns[..k])|);
      p := [k] + q;
      assert p[1..] == q;
    }
  }

  /** The named child whose visit holds position `j` of the children's
      visits. */
  lemma {:induction false} ChildContaining(ns: seq<Node>, j: nat) returns (k: nat)
    requires forall c :: c in ns ==> c.isNamed
    requires j < |PreOrderList(ns)|
    ensures k < |ns| && |PreOrderList(ns[..k])| <= j < |PreOrderList(ns[..k])| + |PreOrder(ns[k])|
    decreases |ns|
  {
    var m := |ns| - 1;
    assert ns[m] in ns;
    assert PreOrderList(ns) == PreOrderList(ns[..m]) + PreOrder(ns[m]);
    if j < |PreOrderList(ns[..m])| {
      assert forall c :: c in ns[..m] ==> c in ns;
      k := ChildContaining(ns[..m], j);
      assert ns[..m][..k] == ns[..k];
    } else {
      k := m;
    }
  }

  // ----- Text containment between nodes -----

  /** Every child's text is part of its parent's text, all the way down: a
      property of a real parse tree, where a child's span lies within its
      parent's span. */
  predicate WellNested(n: Node)
    decreases n
  {
    forall i :: 0 <= i < |n.children| ==> Contains(n.text, n.children[i].text) && WellNested(n.children[i])
  }

  /** In a well-nested tree, the text of a node contains the text of every
      node below it on a named path. */
  lemma {:induction false} AncestorTextContains(n: Node, p: seq<nat>, k: nat, t: string)
    requires WellNested(n) && ValidPath(n, p) && k <= |p|
    requires Contains(NodeAt(n, p).text, t)
    ensures ValidPath(n, p[..k]) && Contains(NodeAt(n, p[..k]).text, t)
    decreases |p|
  {
    if p != [] {
      var c := NamedChildren(n)[p[0]];
      NamedOfSound(n.children);
      assert c in n.children;
      var i :| 0 <= i < |n.children| && n.children[i] == c;
      AncestorTextContains(c, p[1..], if k == 0 then 0 else k - 1, t);
      if k > 0 {
        assert p[..k][1..] == p[1..][..k - 1];
      } else {
        assert p[1..][..0] == [];
        ContainsTransitive(n.text, c.text, t);
      }
    }
  }
}
