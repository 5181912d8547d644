/**
 * The directory tree behind the JTree: DefaultMutableTreeNode objects held in
 * an arena, addressed by index, with parent back-links and ordered children;
 * the rows the JTree shows for a set of expanded nodes; and the structural
 * edits the file manager makes (node.add, insertNodeInto at the end,
 * removeNodeFromParent).
 */
module DirectoryTree {
  import opened Wrappers
  import opened Disk

  /** One tree node: the File it holds, its parent, its children in order. */
  datatype TreeNode = TreeNode(file: Path, parent: Option<nat>, children: seq<nat>)

  /** The invisible root. Its user object is null in the original; here it holds [], which names no entry. */
  const ROOT: TreeNode := TreeNode([], None, [])

  /**
   * The arena invariant: node 0 is the root and has no parent, every child
   * was allocated after its parent and points back to it, and every parent
   * link points to an earlier node. Detached nodes (parent None) may remain.
   */
  ghost predicate WellFormed(nodes: seq<TreeNode>) {
    && |nodes| > 0
    && nodes[0].parent == None
    && (forall i, k :: 0 <= i < |nodes| && 0 <= k < |nodes[i].children| ==>
          i < nodes[i].children[k] < |nodes| && nodes[nodes[i].children[k]].parent == Some(i))
    && (forall i :: 0 <= i < |nodes| && nodes[i].parent.Some? ==> nodes[i].parent.value < i)
  }

  /** DefaultMutableTreeNode.isLeaf: no children. */
  predicate IsLeaf(nodes: seq<TreeNode>, n: nat)
    requires n < |nodes|
  {
    nodes[n].children == []
  }

  /** The files of the children of `n`, in order. */
  ghost function ChildFiles(nodes: seq<TreeNode>, n: nat): (r: seq<Path>)
    requires WellFormed(nodes) && n < |nodes|
    ensures |r| == |nodes[n].children|
  {
    seq(|nodes[n].children|, k requires 0 <= k < |nodes[n].children| => nodes[nodes[n].children[k]].file)
  }

  /** Two arenas that agree on a node's children and on the files of all earlier nodes agree on its child files. */
  lemma ChildFilesFrame(a: seq<TreeNode>, b: seq<TreeNode>, n: nat)
    requires WellFormed(a) && WellFormed(b) && n < |a| <= |b|
    requires b[n].children == a[n].children
    requires forall i :: 0 <= i < |a| ==> b[i].file == a[i].file
    ensures ChildFiles(b, n) == ChildFiles(a, n)
  {
  }

  /** node.add(new DefaultMutableTreeNode(f)), and insertNodeInto at index getChildCount(): a new last child of `p`. */
  function Add(nodes: seq<TreeNode>, p: nat, f: Path): (r: seq<TreeNode>)
    requires WellFormed(nodes) && p < |nodes|
    ensures WellFormed(r) && |r| == |nodes| + 1
    ensures r[|nodes|] == TreeNode(f, Some(p), [])
    ensures r[p] == nodes[p].(children := nodes[p].children + [|nodes|])
    ensures forall i :: 0 <= i < |nodes| && i != p ==> r[i] == nodes[i]
    ensures ChildFiles(r, p) == ChildFiles(nodes, p) + [f]
  {
    nodes[p := nodes[p].(children := nodes[p].children + [|nodes|])] + [TreeNode(f, Some(p), [])]
  }

  /** Adding one new last child of `p` per path, in order. */
  function AddAll(nodes: seq<TreeNode>, p: nat, files: seq<Path>): (r: seq<TreeNode>)
    requires WellFormed(nodes) && p < |nodes|
    ensures WellFormed(r) && |r| == |nodes| + |files|
    ensures ChildFiles(r, p) == ChildFiles(nodes, p) + files
    ensures r[p].file == nodes[p].file && r[p].parent == nodes[p].parent
    ensures forall i :: 0 <= i < |nodes| && i != p ==> r[i] == nodes[i]
    ensures forall i :: |nodes| <= i < |r| ==> r[i].children == [] && r[i].parent == Some(p)
    decreases |files|
  {
    if files == [] then nodes
    else
      var init, last := files[..|files| - 1], files[|files| - 1];
      assert files == init + [last];
      Add(AddAll(nodes, p, init), p, last)
  }

  lemma AddAllSnoc(nodes: seq<TreeNode>, p: nat, files: seq<Path>, f: Path)
    requires WellFormed(nodes) && p < |nodes|
    ensures AddAll(nodes, p, files + [f]) == Add(AddAll(nodes, p, files), p, f)
  {
    assert (files + [f])[..|files|] == files;
  }

  /** Adding children under `p` leaves the child files of every other earlier node as they were. */
  lemma AddAllKeepsOthers(nodes: seq<TreeNode>, p: nat, files: seq<Path>, c: nat)
    requires WellFormed(nodes) && p < |nodes| && c < |nodes| && c != p
    ensures ChildFiles(AddAll(nodes, p, files), c) == ChildFiles(nodes, c)
  {
    ChildFilesFrame(nodes, AddAll(nodes, p, files), c);
  }

  /** One step of seeding: a new last child of the root holding `root`, with one child per path of `subs`. */
  function SeedStep(prev: seq<TreeNode>, root: Path, subs: seq<Path>): (r: seq<TreeNode>)
    requires WellFormed(prev)
    ensures WellFormed(r) && |r| > |prev|
    ensures r[0].children == prev[0].children + [|prev|]
    ensures ChildFiles(r, 0) == ChildFiles(prev, 0) + [root]
    ensures ChildFiles(r, |prev|) == subs
  {
    var withRoot := Add(prev, 0, root);
    AddAllKeepsOthers(withRoot, |prev|, subs, 0);
    AddAll(withRoot, |prev|, subs)
  }

  /** A seeding step leaves the children of every earlier node other than the root as they were. */
  lemma SeedStepKeeps(prev: seq<TreeNode>, root: Path, subs: seq<Path>, c: nat)
    requires WellFormed(prev) && 0 < c < |prev|
    ensures ChildFiles(SeedStep(prev, root, subs), c) == ChildFiles(prev, c)
  {
    var withRoot := Add(prev, 0, root);
    ChildFilesFrame(prev, withRoot, c);
    AddAllKeepsOthers(withRoot, |prev|, subs, c);
  }

  /**
   * A tree seeded under the root: one node per file of `roots`, in order,
   * the k-th holding one child per path of `subdirs[k]`.
   */
  function SeedTree(roots: seq<Path>, subdirs: seq<seq<Path>>): (r: seq<TreeNode>)
    requires |roots| == |subdirs|
    ensures WellFormed(r)
    ensures ChildFiles(r, 0) == roots
    decreases |roots|
  {
    if roots == [] then [ROOT]
    else
      var n := |roots| - 1;
      assert roots == roots[..n] + [roots[n]];
      SeedStep(SeedTree(roots[..n], subdirs[..n]), roots[n], subdirs[n])
  }

  /** The k-th seeded node's children are exactly the paths of `subdirs[k]`, in order. */
  lemma {:induction false} SeededShape(roots: seq<Path>, subdirs: seq<seq<Path>>, k: nat)
    requires |roots| == |subdirs| && k < |roots|
    ensures var r := SeedTree(roots, subdirs);
            ChildFiles(r, r[0].children[k]) == subdirs[k]
    decreases |roots|
  {
    var n := |roots| - 1;
    assert roots == roots[..n] + [roots[n]];
    var prev := SeedTree(roots[..n], subdirs[..n]);
    var r := SeedStep(prev, roots[n], subdirs[n]);
    assert SeedTree(roots, subdirs) == r;
    assert |ChildFiles(prev, 0)| == n;
    assert r[0].children == prev[0].children + [|prev|];
    if k < n {
      var c := prev[0].children[k];
      assert r[0].children[k] == c;
      SeededShape(roots[..n], subdirs[..n], k);
      SeedStepKeeps(prev, roots[n], subdirs[n], c);
    } else {
      assert r[0].children[k] == |prev|;
    }
  }

  /** The nodes AddAll appends hold the given paths, in order. */
  lemma {:induction false} AddAllNewFiles(nodes: seq<TreeNode>, p: nat, files: seq<Path>, i: nat)
    requires WellFormed(nodes) && p < |nodes| && |nodes| <= i < |nodes| + |files|
    ensures AddAll(nodes, p, files)[i].file == files[i - |nodes|]
    decreases |files|
  {
    var init, last := files[..|files| - 1], files[|files| - 1];
    assert files == init + [last];
    var prior := AddAll(nodes, p, init);
    assert AddAll(nodes, p, files) == Add(prior, p, last);
    if i < |prior| {
      AddAllNewFiles(nodes, p, init, i);
    }
  }

  /** Where each node of a seeding step comes from: an earlier node, the new root node, or one of its children. */
  lemma SeedStepFiles(prev: seq<TreeNode>, root: Path, subs: seq<Path>, i: nat)
    requires WellFormed(prev) && i < |SeedStep(prev, root, subs)|
    ensures var r := SeedStep(prev, root, subs);
            if i < |prev| then r[i].file == prev[i].file
            else if i == |prev| then r[i].file == root
            else r[i].file == subs[i - |prev| - 1]
  {
    var withRoot := Add(prev, 0, root);
    if i > |prev| {
      AddAllNewFiles(withRoot, |prev|, subs, i);
    }
  }

  /** Every seeded node below the root holds root `k` of `roots` or a path of `subdirs[k]`. */
  lemma {:induction false} SeededFiles(roots: seq<Path>, subdirs: seq<seq<Path>>, i: nat) returns (k: nat)
    requires |roots| == |subdirs| && 0 < i < |SeedTree(roots, subdirs)|
    ensures k < |roots|
    ensures var f := SeedTree(roots, subdirs)[i].file;
            f == roots[k] || f in subdirs[k]
    decreases |roots|
  {
    assert roots != [];
    var n := |roots| - 1;
    assert roots == roots[..n] + [roots[n]];
    var prev := SeedTree(roots[..n], subdirs[..n]);
    var r := SeedStep(prev, roots[n], subdirs[n]);
    assert SeedTree(roots, subdirs) == r;
    SeedStepFiles(prev, roots[n], subdirs[n], i);
    if i < |prev| {
      k := SeededFiles(roots[..n], subdirs[..n], i);
      assert roots[..n][k] == roots[k] && subdirs[..n][k] == subdirs[k];
    } else {
      k := n;
    }
  }

  /** `cs` without `x`. */
  function Without(cs: seq<nat>, x: nat): (r: seq<nat>)
    ensures forall c :: c in r <==> c in cs && c != x
  {
    if cs == [] then []
    else
      var init, last := cs[..|cs| - 1], cs[|cs| - 1];
      assert cs == init + [last];
      Without(init, x) + if last == x then [] else [last]
  }

  /**
   * removeNodeFromParent: `n` leaves its parent's children and loses its
   * parent link. The call does not recurse: the subtree of `n` stays in the
   * arena, detached.
   */
  function Remove(nodes: seq<TreeNode>, n: nat): (r: seq<TreeNode>)
    requires WellFormed(nodes) && 0 < n < |nodes| && nodes[n].parent.Some?
    ensures WellFormed(r) && |r| == |nodes|
    ensures r[n] == nodes[n].(parent := None)
    ensures var p := nodes[n].parent.value;
            r[p] == nodes[p].(children := Without(nodes[p].children, n)) &&
            forall i :: 0 <= i < |nodes| && i != n && i != p ==> r[i] == nodes[i]
  {
    var p := nodes[n].parent.value;
    var r := nodes[p := nodes[p].(children := Without(nodes[p].children, n))][n := nodes[n].(parent := None)];
    forall i, k | 0 <= i < |r| && 0 <= k < |r[i].children|
      ensures i < r[i].children[k] < |r| && r[r[i].children[k]].parent == Some(i)
    {
      var c := r[i].children[k];
      assert c in r[i].children;
      if i == p {
        assert c in nodes[p].children && c != n;
      } else {
        assert c == nodes[i].children[k];
      }
    }
    r
  }

  /**
   * The JTree never holds a leaf expanded: expandPath ignores a leaf, and a
   * node whose last child is removed is collapsed.
   */
  ghost predicate ExpandsOnlyParents(nodes: seq<TreeNode>, expanded: set<nat>) {
    forall n :: n in expanded ==> n < |nodes| && !IsLeaf(nodes, n)
  }

  /** Giving a node new children keeps every expanded node a parent. */
  lemma AddKeepsParentsExpanded(nodes: seq<TreeNode>, p: nat, f: Path, expanded: set<nat>)
    requires WellFormed(nodes) && p < |nodes| && ExpandsOnlyParents(nodes, expanded)
    ensures ExpandsOnlyParents(Add(nodes, p, f), expanded)
  {
    var r := Add(nodes, p, f);
    forall n | n in expanded ensures n < |r| && !IsLeaf(r, n) {
      if n != p { assert r[n] == nodes[n]; }
    }
  }

  /**
   * The expansion after removeNodeFromParent(m): the parent of `m` is
   * collapsed when `m` was its last child, and nothing else changes.
   */
  function ExpandedAfterRemove(nodes: seq<TreeNode>, expanded: set<nat>, m: nat): (r: set<nat>)
    requires WellFormed(nodes) && 0 < m < |nodes| && nodes[m].parent.Some?
  {
    var p := nodes[m].parent.value;
    if Without(nodes[p].children, m) == [] then expanded - {p} else expanded
  }

  /** After a removal, with the parent collapsed if it became a leaf, every expanded node is still a parent. */
  lemma RemoveKeepsParentsExpanded(nodes: seq<TreeNode>, expanded: set<nat>, m: nat)
    requires WellFormed(nodes) && 0 < m < |nodes| && nodes[m].parent.Some?
    requires ExpandsOnlyParents(nodes, expanded)
    ensures ExpandsOnlyParents(Remove(nodes, m), ExpandedAfterRemove(nodes, expanded, m))
    ensures var p := nodes[m].parent.value;
            ExpandedAfterRemove(nodes, expanded, m) == if IsLeaf(Remove(nodes, m), p) then expanded - {p} else expanded
  {
    var r := Remove(nodes, m);
    var p := nodes[m].parent.value;
    forall n | n in ExpandedAfterRemove(nodes, expanded, m) ensures n < |r| && !IsLeaf(r, n) {
      if n != p && n != m { assert r[n] == nodes[n]; }
    }
  }

  /**
   * The rows the JTree shows for node `n` and its descendants: `n`, then,
   * if `n` is expanded, the rows of each child in order.
   */
  function Rows(nodes: seq<TreeNode>, expanded: set<nat>, n: nat): (r: seq<nat>)
    requires WellFormed(nodes) && n < |nodes|
    ensures forall x :: x in r ==> n <= x < |nodes|
    decreases |nodes| - n, 1, 0
  {
    [n] + if n in expanded then RowsOf(nodes, expanded, nodes[n].children, n) else []
  }

  /** The rows of each node in `cs`, all children of `p`, in order. */
  function RowsOf(nodes: seq<TreeNode>, expanded: set<nat>, cs: seq<nat>, p: nat): (r: seq<nat>)
    requires WellFormed(nodes) && p < |nodes| && forall k :: 0 <= k < |cs| ==> p < cs[k] < |nodes|
    ensures forall x :: x in r ==> p < x < |nodes|
    decreases |nodes| - p, 0, |cs|
  {
    if cs == [] then [] else Rows(nodes, expanded, cs[0]) + RowsOf(nodes, expanded, cs[1..], p)
  }

  /** The visible rows, top to bottom. The root itself is hidden and always expanded. */
  function VisibleRows(nodes: seq<TreeNode>, expanded: set<nat>): (r: seq<nat>)
    requires WellFormed(nodes)
    ensures forall k :: 0 <= k < |r| ==> 0 < r[k] < |nodes|
    ensures forall x :: x in r ==> 0 < x < |nodes| && nodes[x].parent.Some?
  {
    var r := RowsOf(nodes, expanded, nodes[0].children, 0);
    forall x | x in r ensures nodes[x].parent.Some? {
      RowsOfReach(nodes, expanded, nodes[0].children, 0, x);
    }
    forall k | 0 <= k < |r| ensures 0 < r[k] < |nodes| {
      assert r[k] in r;
    }
    r
  }

  /** `m` is `x` or an ancestor of `x`. */
  ghost predicate Reaches(nodes: seq<TreeNode>, x: nat, m: nat)
    requires WellFormed(nodes) && x < |nodes|
    decreases x
  {
    x == m || (nodes[x].parent.Some? && Reaches(nodes, nodes[x].parent.value, m))
  }

  lemma {:induction false} ReachesStep(nodes: seq<TreeNode>, x: nat, c: nat, p: nat)
    requires WellFormed(nodes) && x < |nodes| && c < |nodes|
    requires Reaches(nodes, x, c) && nodes[c].parent == Some(p)
    ensures Reaches(nodes, x, p)
    decreases x
  {
    if x != c {
      ReachesStep(nodes, nodes[x].parent.value, c, p);
    }
  }

  /** Every row shown under `n` is `n` or a descendant of `n`. */
  lemma {:induction false} RowsReach(nodes: seq<TreeNode>, expanded: set<nat>, n: nat, x: nat)
    requires WellFormed(nodes) && n < |nodes| && x in Rows(nodes, expanded, n)
    ensures x < |nodes| && Reaches(nodes, x, n)
    decreases |nodes| - n, 1, 0
  {
    if x != n {
      RowsOfReach(nodes, expanded, nodes[n].children, n, x);
    }
  }

  lemma {:induction false} RowsOfReach(nodes: seq<TreeNode>, expanded: set<nat>, cs: seq<nat>, p: nat, x: nat)
    requires WellFormed(nodes) && p < |nodes|
    requires forall k :: 0 <= k < |cs| ==> p < cs[k] < |nodes| && nodes[cs[k]].parent == Some(p)
    requires x in RowsOf(nodes, expanded, cs, p)
    ensures x < |nodes| && Reaches(nodes, x, p)
    decreases |nodes| - p, 0, |cs|
  {
    var c := cs[0];
    if x in Rows(nodes, expanded, c) {
      RowsReach(nodes, expanded, c, x);
      ReachesStep(nodes, x, c, p);
    } else {
      RowsOfReach(nodes, expanded, cs[1..], p, x);
    }
  }

  /** Every visible row is a node attached to the root, so it has a parent. */
  lemma VisibleRowsAttached(nodes: seq<TreeNode>, expanded: set<nat>, x: nat)
    requires WellFormed(nodes) && x in VisibleRows(nodes, expanded)
    ensures 0 < x < |nodes| && Reaches(nodes, x, 0) && nodes[x].parent.Some?
  {
    RowsOfReach(nodes, expanded, nodes[0].children, 0, x);
  }

  /** Ancestors are unique: two nodes on the path above `y` are related. */
  lemma {:induction false} ReachesTotal(nodes: seq<TreeNode>, y: nat, a: nat, b: nat)
    requires WellFormed(nodes) && y < |nodes| && a < |nodes| && b < |nodes|
    requires Reaches(nodes, y, a) && Reaches(nodes, y, b)
    ensures Reaches(nodes, a, b) || Reaches(nodes, b, a)
    decreases y
  {
    if y != a && y != b {
      ReachesTotal(nodes, nodes[y].parent.value, a, b);
    }
  }

  /** Detaching `n` does not change the path from a node below `n` up to `n`. */
  lemma {:induction false} ReachesAfterRemove(nodes: seq<TreeNode>, n: nat, y: nat)
    requires WellFormed(nodes) && 0 < n < |nodes| && nodes[n].parent.Some? && y < |nodes|
    requires Reaches(nodes, y, n)
    ensures Reaches(Remove(nodes, n), y, n)
    decreases y
  {
    if y != n {
      ReachesAfterRemove(nodes, n, nodes[y].parent.value);
    }
  }

  /** After removeNodeFromParent(n), neither `n` nor any node below it is a visible row. */
  lemma RemovedSubtreeHidden(nodes: seq<TreeNode>, expanded: set<nat>, n: nat, y: nat)
    requires WellFormed(nodes) && 0 < n < |nodes| && nodes[n].parent.Some?
    requires y < |nodes| && Reaches(nodes, y, n)
    ensures y !in VisibleRows(Remove(nodes, n), expanded)
  {
    var r := Remove(nodes, n);
    if y in VisibleRows(r, expanded) {
      VisibleRowsAttached(r, expanded, y);
      ReachesAfterRemove(nodes, n, y);
      ReachesTotal(r, y, n, 0);
      assert false;
    }
  }

  /** findTreePath's test: the node holds the File being looked for (File.equals(null) is false). */
  predicate Matches(node: TreeNode, find: Option<Path>) {
    find.Some? && node.file == find.value
  }

  /** The first row whose node matches `find`, scanning top to bottom. */
  function FirstMatch(nodes: seq<TreeNode>, rows: seq<nat>, find: Option<Path>): (r: Option<nat>)
    requires forall k :: 0 <= k < |rows| ==> rows[k] < |nodes|
    ensures r.Some? ==> r.value in rows && Matches(nodes[r.value], find)
  {
    if rows == [] then None
    else if Matches(nodes[rows[0]], find) then Some(rows[0])
    else FirstMatch(nodes, rows[1..], find)
  }

  /** FirstMatch finds nothing exactly when no row matches, and otherwise the row of the first match. */
  lemma {:induction false} FirstMatchIsFirst(nodes: seq<TreeNode>, rows: seq<nat>, find: Option<Path>)
    requires forall k :: 0 <= k < |rows| ==> rows[k] < |nodes|
    ensures var r := FirstMatch(nodes, rows, find);
            (r.None? <==> forall k :: 0 <= k < |rows| ==> !Matches(nodes[rows[k]], find)) &&
            (r.Some? ==> exists k :: 0 <= k < |rows| && rows[k] == r.value &&
                                     forall j :: 0 <= j < k ==> !Matches(nodes[rows[j]], find))
  {
    if rows != [] && !Matches(nodes[rows[0]], find) {
      FirstMatchIsFirst(nodes, rows[1..], find);
      var r := FirstMatch(nodes, rows, find);
      assert forall k :: 1 <= k < |rows| ==> rows[k] == rows[1..][k - 1];
      if r.Some? {
        var k :| 0 <= k < |rows[1..]| && rows[1..][k] == r.value &&
                 forall j :: 0 <= j < k ==> !Matches(nodes[rows[1..][j]], find);
        assert rows[k + 1] == r.value && forall j :: 0 <= j < k + 1 ==> !Matches(nodes[rows[j]], find);
      }
    }
  }
}
