/** The structural search of server.js: `searchInFile` walks one file's
    syntax tree in pre-order over named children and records every node
    whose text contains the target; `searchInDirectory` runs it on the
    regular `.js` files at the top level of a directory. */
module StructuralSearch {
  import opened Text
  import opened Sequences
  import opened FileSystem
  import opened SyntaxTree

  /** The record pushed for a matching node. */
  datatype StructuralMatch = StructuralMatch(
    file: string,
    nodeText: string,
    nodeType: string,
    startPosition: Point,
    endPosition: Point)

  /** The outcome of `searchInDirectory`: `readdirSync` throws when the
      path is not a directory. */
  datatype Listing = Listed(matches: seq<StructuralMatch>) | NotADirectory

  function Record(file: string, n: Node): StructuralMatch
  {
    StructuralMatch(file, n.text, n.nodeType, n.startPosition, n.endPosition)
  }

  // ----- Specification -----

  /** The records of the nodes of `nodes` whose text contains `t`, in order. */
  function Select(file: string, nodes: seq<Node>, t: string): seq<StructuralMatch>
  {
    if nodes == [] then []
    else
      var last := nodes[|nodes| - 1];
      Select(file, nodes[..|nodes| - 1], t) + (if Contains(last.text, t) then [Record(file, last)] else [])
  }

  /** The records of one file: the visited nodes that contain `t`, in visit
      order. */
  function TreeMatches(file: string, root: Node, t: string): seq<StructuralMatch>
  {
    Select(file, PreOrder(root), t)
  }

  /** `searchInDirectory` keeps a listed entry when `lstatSync` calls it a
      regular file (a link is not one) and its name ends in ".js". */
  predicate IsJsFile(e: Entry)
  {
    e.File? && EndsWith(e.name, ".js")
  }

  /** The records of the first entries of a listing: for each `.js` regular
      file, its tree's records, in listing order. */
  function DirectoryMatches(dir: string, es: seq<Entry>, t: string, parse: string -> Node): seq<StructuralMatch>
  {
    if es == [] then []
    else
      var e := es[|es| - 1];
      DirectoryMatches(dir, es[..|es| - 1], t, parse) +
        (if IsJsFile(e) then TreeMatches(JoinPath(dir, e.name), parse(e.content), t) else [])
  }

  // ----- The walk -----

  /** `traverseNode(node)`: record the node if its text contains the
      target, then traverse its named children from left to right. */
  method TraverseNode(file: string, node: Node, targetString: string, matches: seq<StructuralMatch>)
    returns (result: seq<StructuralMatch>)
    ensures result == matches + TreeMatches(file, node, targetString)
    decreases node
  {
    result := matches;
    if Contains(node.text, targetString) {
      result := result + [Record(file, node)];
    }
    ghost var head := result;
    assert head == matches + (if Contains(node.text, targetString) then [Record(file, node)] else []);
    var named := NamedChildren(node);
    for i := 0 to |named|
      invariant result == head + Select(file, PreOrderList(named[..i]), targetString)
    {
      NamedChildAt(node, i);
      result := TraverseNode(file, named[i], targetString, result);
      ChildStep(file, named, i, targetString, head);
    }
    assert named[..|named|] == named;
    TraverseFinish(file, node, targetString, matches);
  }

  /** `searchInFile(filePath, targetString)` on the file's parsed tree: the
      walk from the root node. */
  method SearchInFile(filePath: string, root: Node, targetString: string) returns (matches: seq<StructuralMatch>)
    ensures matches == TreeMatches(filePath, root, targetString)
  {
    matches := TraverseNode(filePath, root, targetString, []);
  }

  /** `searchInDirectory(directoryPath, targetString)`: the entries of the
      directory in listing order, each `.js` regular file searched on the
      tree `parse` gives for its text, the results concatenated. There is no
      recursion into subdirectories. */
  method SearchInDirectory(directoryPath: string, root: Entry, targetString: string, parse: string -> Node)
    returns (r: Listing)
    ensures Resolve(root).Dir? <==> r.Listed?
    ensures r.Listed? ==> r.matches == DirectoryMatches(directoryPath, Resolve(root).entries, targetString, parse)
  {
    var dir := Resolve(root);
    if !dir.Dir? {
      return NotADirectory;
    }
    var files := dir.entries;
    var results: seq<StructuralMatch> := [];
    for i := 0 to |files|
      invariant results == DirectoryMatches(directoryPath, files[..i], targetString, parse)
    {
      var file := files[i];
      var fullPath := JoinPath(directoryPath, file.name);
      if file.File? && EndsWith(file.name, ".js") {
        var matches := SearchInFile(fullPath, parse(file.content), targetString);
        if |matches| > 0 {
          results := results + matches;
        }
      }
      assert files[..i + 1][..i] == files[..i];
    }
    assert files[..|files|] == files;
    r := Listed(results);
  }

  // ----- Lemmas -----

  /** The position in the output of the record of the node at named path
      `p`: the number of records emitted before its visit. */
  ghost function MatchIndex(file: string, root: Node, p: seq<nat>, t: string): nat
    requires ValidPath(root, p)
  {
    PreIndexLocates(root, p);
    |Select(file, PreOrder(root)[..PreIndex(root, p)], t)|
  }

  /** A record is in a file's output if and only if it is the record of a
      node at a named path whose text contains the target. */
  lemma TreeMatchesExactly(file: string, root: Node, t: string, m: StructuralMatch)
    ensures m in TreeMatches(file, root, t) <==>
      exists p :: ValidPath(root, p) && Contains(NodeAt(root, p).text, t) && m == Record(file, NodeAt(root, p))
  {
    var nodes := PreOrder(root);
    SelectExactly(file, nodes, t, m);
    if m in TreeMatches(file, root, t) {
      var i :| 0 <= i < |nodes| && Contains(nodes[i].text, t) && m == Record(file, nodes[i]);
      var p := VisitHasPath(root, i);
      PreIndexLocates(root, p);
      assert ValidPath(root, p) && Contains(NodeAt(root, p).text, t) && m == Record(file, NodeAt(root, p));
    }
    if exists p :: ValidPath(root, p) && Contains(NodeAt(root, p).text, t) && m == Record(file, NodeAt(root, p)) {
      var p :| ValidPath(root, p) && Contains(NodeAt(root, p).text, t) && m == Record(file, NodeAt(root, p));
      PreIndexLocates(root, p);
      var i := PreIndex(root, p);
      assert 0 <= i < |nodes| && Contains(nodes[i].text, t) && m == Record(file, nodes[i]);
    }
  }

  /** The visit of the node at a named path emits one record, that node's,
      if its text contains the target, and nothing otherwise. */
  lemma VisitEmitsIffContains(file: string, root: Node, p: seq<nat>, t: string)
    requires ValidPath(root, p)
    ensures PreIndex(root, p) < |PreOrder(root)|
    ensures Select(file, PreOrder(root)[..PreIndex(root, p) + 1], t) ==
      Select(file, PreOrder(root)[..PreIndex(root, p)], t) +
        (if Contains(NodeAt(root, p).text, t) then [Record(file, NodeAt(root, p))] else [])
  {
    PreIndexLocates(root, p);
    SelectStep(file, PreOrder(root), PreIndex(root, p), t);
  }

  /** A node at a named path whose text contains the target is in the
      output, at position `MatchIndex`. */
  lemma MatchingNodeEmitted(file: string, root: Node, p: seq<nat>, t: string)
    requires ValidPath(root, p) && Contains(NodeAt(root, p).text, t)
    ensures MatchIndex(file, root, p, t) < |TreeMatches(file, root, t)|
    ensures TreeMatches(file, root, t)[MatchIndex(file, root, p, t)] == Record(file, NodeAt(root, p))
  {
    PreIndexLocates(root, p);
    SelectAt(file, PreOrder(root), PreIndex(root, p), t);
  }

  /** Containment closure: in a well-nested tree, when the node at named
      path `p` matches, its ancestor at depth `k` matches too, and its record
      comes earlier in the output. */
  lemma ContainmentClosure(file: string, root: Node, p: seq<nat>, k: nat, t: string)
    requires WellNested(root) && ValidPath(root, p) && k < |p|
    requires Contains(NodeAt(root, p).text, t)
    ensures ValidPath(root, p[..k]) && Contains(NodeAt(root, p[..k]).text, t)
    ensures MatchIndex(file, root, p[..k], t) < MatchIndex(file, root, p, t) < |TreeMatches(file, root, t)|
    ensures TreeMatches(file, root, t)[MatchIndex(file, root, p[..k], t)] == Record(file, NodeAt(root, p[..k]))
  {
    AncestorTextContains(root, p, k, t);
    AncestorVisitedFirst(root, p, k);
    PreIndexLocates(root, p);
    PreIndexLocates(root, p[..k]);
    MatchingNodeEmitted(file, root, p, t);
    MatchingNodeEmitted(file, root, p[..k], t);
    SelectMonotone(file, PreOrder(root), PreIndex(root, p[..k]), PreIndex(root, p), t);
  }

  /** A record is in the directory's output if and only if it is a record of
      the tree of a top-level `.js` regular file. */
  lemma {:induction false} DirectoryMatchesExactly(dir: string, es: seq<Entry>, t: string, parse: string -> Node, m: StructuralMatch)
    ensures m in DirectoryMatches(dir, es, t, parse) <==>
      exists i :: 0 <= i < |es| && IsJsFile(es[i]) && m in TreeMatches(JoinPath(dir, es[i].name), parse(es[i].content), t)
  {
    if es != [] {
      var n := |es|;
      DirectoryMatchesExactly(dir, es[..n - 1], t, parse, m);
      if m in DirectoryMatches(dir, es[..n - 1], t, parse) {
        var i :| 0 <= i < n - 1 && IsJsFile(es[..n - 1][i]) &&
          m in TreeMatches(JoinPath(dir, es[..n - 1][i].name), parse(es[..n - 1][i].content), t);
        assert es[..n - 1][i] == es[i];
      }
      if exists i :: 0 <= i < n && IsJsFile(es[i]) && m in TreeMatches(JoinPath(dir, es[i].name), parse(es[i].content), t) {
        var i :| 0 <= i < n && IsJsFile(es[i]) && m in TreeMatches(JoinPath(dir, es[i].name), parse(es[i].content), t);
        if i < n - 1 {
          assert es[..n - 1][i] == es[i];
        }
      }
    }
  }

  /** The two drivers disagree on links: the plain walk follows a link to a
      file (`statSync`), the structural driver skips it (`lstatSync`), even
      when its name ends in ".js". */
  lemma LinkedFileSkipped(dir: string, content: string, t: string, parse: string -> Node)
    ensures var link := Link("a.js", File("b.js", content));
      DirectoryMatches(dir, [link], t, parse) == [] &&
      Files(Dir("root", [link]), dir) == [FileAt(JoinPath(dir, "a.js"), content)]
  {
    var link := Link("a.js", File("b.js", content));
    assert [link][..0] == [];
    assert Files(link, JoinPath(dir, "a.js")) == [FileAt(JoinPath(dir, "a.js"), content)];
    assert FilesOf([link], dir) == FilesOf([], dir) + Files(link, JoinPath(dir, "a.js"));
  }

  /** A directory entry contributes nothing, however many `.js` files it
      holds: there is no recursion. */
  lemma SubdirectoryIgnored(dir: string, es: seq<Entry>, sub: Entry, t: string, parse: string -> Node)
    requires sub.Dir?
    ensures DirectoryMatches(dir, es + [sub], t, parse) == DirectoryMatches(dir, es, t, parse)
  {
    assert (es + [sub])[..|es|] == es;
  }

  /** Every string contains the empty string, so an empty target records
      every visited node, in visit order. */
  lemma EmptyTargetMatchesEveryNode(file: string, root: Node)
    ensures |TreeMatches(file, root, "")| == |PreOrder(root)|
    ensures forall i :: 0 <= i < |PreOrder(root)| ==> TreeMatches(file, root, "")[i] == Record(file, PreOrder(root)[i])
  {
    SelectEmptyTarget(file, PreOrder(root));
  }

  lemma {:induction false} SelectEmptyTarget(file: string, nodes: seq<Node>)
    ensures |Select(file, nodes, "")| == |nodes|
    ensures forall i :: 0 <= i < |nodes| ==> Select(file, nodes, "")[i] == Record(file, nodes[i])
  {
    if nodes != [] {
      var init, last := nodes[..|nodes| - 1], nodes[|nodes| - 1];
      SelectEmptyTarget(file, init);
      assert OccursAt(last.text, "", 0);
      var before := Select(file, init, "");
      assert Select(file, nodes, "") == before + [Record(file, last)];
      forall i | 0 <= i < |nodes| ensures Select(file, nodes, "")[i] == Record(file, nodes[i]) {
        if i < |init| {
          assert init[i] == nodes[i];
        }
      }
    }
  }

  lemma {:induction false} SelectExactly(file: string, nodes: seq<Node>, t: string, m: StructuralMatch)
    ensures m in Select(file, nodes, t) <==>
      exists i :: 0 <= i < |nodes| && Contains(nodes[i].text, t) && m == Record(file, nodes[i])
  {
    if nodes != [] {
      var n := |nodes|;
      SelectExactly(file, nodes[..n - 1], t, m);
      if m in Select(file, nodes[..n - 1], t) {
        var i :| 0 <= i < n - 1 && Contains(nodes[..n - 1][i].text, t) && m == Record(file, nodes[..n - 1][i]);
        assert nodes[..n - 1][i] == nodes[i];
      }
      if exists i :: 0 <= i < n && Contains(nodes[i].text, t) && m == Record(file, nodes[i]) {
        var i :| 0 <= i < n && Contains(nodes[i].text, t) && m == Record(file, nodes[i]);
        if i < n - 1 {
          assert nodes[..n - 1][i] == nodes[i];
        }
      }
    }
  }

  lemma SelectStep(file: string, nodes: seq<Node>, i: nat, t: string)
    requires i < |nodes|
    ensures Select(file, nodes[..i + 1], t) ==
      Select(file, nodes[..i], t) + (if Contains(nodes[i].text, t) then [Record(file, nodes[i])] else [])
  {
    assert nodes[..i + 1][..i] == nodes[..i];
  }

  /** The records of a prefix of the visits are a prefix of the records. */
  lemma SelectPrefix(file: string, nodes: seq<Node>, i: nat, t: string)
    requires i <= |nodes|
    ensures |Select(file, nodes[..i], t)| <= |Select(file, nodes, t)|
    ensures Select(file, nodes, t)[..|Select(file, nodes[..i], t)|] == Select(file, nodes[..i], t)
  {
    assert nodes == nodes[..i] + nodes[i..];
    SelectAppend(file, nodes[..i], nodes[i..], t);
  }

  lemma SelectAt(file: string, nodes: seq<Node>, i: nat, t: string)
    requires i < |nodes| && Contains(nodes[i].text, t)
    ensures |Select(file, nodes[..i], t)| < |Select(file, nodes, t)|
    ensures Select(file, nodes, t)[|Select(file, nodes[..i], t)|] == Record(file, nodes[i])
  {
    SelectStep(file, nodes, i, t);
    SelectPrefix(file, nodes, i + 1, t);
    var before := Select(file, nodes[..i], t);
    assert Select(file, nodes, t)[..|before| + 1][|before|] == (before + [Record(file, nodes[i])])[|before|];
  }

  lemma SelectMonotone(file: string, nodes: seq<Node>, i: nat, j: nat, t: string)
    requires i < j <= |nodes| && Contains(nodes[i].text, t)
    ensures |Select(file, nodes[..i], t)| < |Select(file, nodes[..j], t)|
  {
    SelectStep(file, nodes, i, t);
    SelectPrefix(file, nodes[..j], i + 1, t);
    assert nodes[..j][..i + 1] == nodes[..i + 1];
  }

  lemma {:induction false} SelectAppend(file: string, a: seq<Node>, b: seq<Node>, t: string)
    ensures Select(file, a + b, t) == Select(file, a, t) + Select(file, b, t)
    decreases |b|
  {
    if b == [] {
      assert a + b == a;
    } else {
      var init, last := b[..|b| - 1], b[|b| - 1];
      assert (a + b)[..|a + b| - 1] == a + init;
      assert (a + b)[|a + b| - 1] == last;
      var own := if Contains(last.text, t) then [Record(file, last)] else [];
      assert Select(file, a + b, t) == Select(file, a + init, t) + own;
      assert Select(file, b, t) == Select(file, init, t) + own;
      SelectAppend(file, a, init, t);
      AppendAssoc(Select(file, a, t), Select(file, init, t), own);
    }
  }

  /** The node's own record, then its named children's records, are the
      records of its whole visit. */
  lemma TraverseFinish(file: string, node: Node, t: string, matches: seq<StructuralMatch>)
    ensures matches + (if Contains(node.text, t) then [Record(file, node)] else []) +
      Select(file, PreOrderList(NamedChildren(node)), t) == matches + TreeMatches(file, node, t)
  {
    var own := if Contains(node.text, t) then [Record(file, node)] else [];
    PreOrderListNamed(node.children);
    SelectAppend(file, [node], PreOrderList(node.children), t);
    assert [node][..0] == [];
    assert Select(file, [node], t) == own;
    AppendAssoc(matches, own, Select(file, PreOrderList(node.children), t));
  }

  /** One named child more appends that child's records. */
  lemma ChildStep(file: string, named: seq<Node>, i: nat, t: string, acc: seq<StructuralMatch>)
    requires i < |named| && named[i].isNamed
    ensures acc + Select(file, PreOrderList(named[..i]), t) + TreeMatches(file, named[i], t) ==
      acc + Select(file, PreOrderList(named[..i + 1]), t)
  {
    assert named[..i + 1][..i] == named[..i];
    assert PreOrderList(named[..i + 1]) == PreOrderList(named[..i]) + PreOrder(named[i]);
    SelectAppend(file, PreOrderList(named[..i]), PreOrder(named[i]), t);
    AppendAssoc(acc, Select(file, PreOrderList(named[..i]), t), TreeMatches(file, named[i], t));
  }
}
