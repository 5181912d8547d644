/**
 * The file manager's state and its tree/table/selection logic: the directory
 * tree with its expansion state, the listing table, the current file, and the
 * filesystem they show; the seeding of the tree, showChildren, findTreePath,
 * selection, and the rename, delete and new-file actions. Dialog answers and
 * whether the operating system permits a call arrive as parameters; what the
 * original reports in a dialog is returned as an Outcome.
 */
module FileManager {
  import opened Wrappers
  import opened Disk
  import opened DirectoryTree
  import opened TableModel

  /** How an action ended, as the user would learn it. */
  datatype Outcome =
    | Done
      /** The dialog was cancelled. */
    | NotAsked
      /** "No file selected" (or "No location selected"). */
    | NoFileSelected
      /** "could not be renamed / deleted / created": the call returned false. */
    | Failed(file: Path)
      /** findTreePath found no node for the parent directory: a NullPointerException, caught and shown. */
    | ParentNotVisible
      /** findTreePath found no node for the current file: a NullPointerException, caught and shown. */
    | NodeNotVisible
      /** createNewFile threw an IOException, caught and shown. */
    | CreateThrew

  /** What getGui lists in each filesystem root, root by root. */
  function RootListings(fs: FileSystem, roots: seq<Path>): (r: seq<seq<Entry>>)
    ensures |r| == |roots|
    ensures forall k :: 0 <= k < |roots| ==> r[k] == Listing(fs, roots[k])
  {
    seq(|roots|, k requires 0 <= k < |roots| => Listing(fs, roots[k]))
  }

  /** The subdirectories of each listing, listing by listing. */
  function SubdirectoriesOf(listings: seq<seq<Entry>>): (r: seq<seq<Path>>)
    ensures |r| == |listings|
    ensures forall k :: 0 <= k < |listings| ==> r[k] == SubdirectoryPaths(listings[k])
  {
    seq(|listings|, k requires 0 <= k < |listings| => SubdirectoryPaths(listings[k]))
  }

  /**
   * The tree after showChildren on node `n`: a directory node that is a leaf
   * gets one new child per subdirectory of its listing, in listing order; a
   * node that already has children, or holds no directory, is left alone.
   */
  function ShownTree(nodes: seq<TreeNode>, fs: FileSystem, n: nat): (r: seq<TreeNode>)
    requires WellFormed(nodes) && n < |nodes|
    ensures WellFormed(r) && |r| >= |nodes|
    ensures IsDirectory(fs, nodes[n].file) && IsLeaf(nodes, n) ==>
              ChildFiles(r, n) == SubdirectoryPaths(Listing(fs, nodes[n].file))
    ensures !(IsDirectory(fs, nodes[n].file) && IsLeaf(nodes, n)) ==> r == nodes
    ensures r[n].file == nodes[n].file && r[n].parent == nodes[n].parent
    ensures forall i :: 0 <= i < |nodes| && i != n ==> r[i] == nodes[i]
  {
    if IsDirectory(fs, nodes[n].file) && IsLeaf(nodes, n) then
      AddAll(nodes, n, SubdirectoryPaths(Listing(fs, nodes[n].file)))
    else nodes
  }

  /** showChildren only gives children to a leaf, so every expanded node stays a parent. */
  lemma ShownTreeKeepsParentsExpanded(nodes: seq<TreeNode>, fs: FileSystem, n: nat, expanded: set<nat>)
    requires WellFormed(nodes) && n < |nodes| && ExpandsOnlyParents(nodes, expanded)
    ensures ExpandsOnlyParents(ShownTree(nodes, fs, n), expanded)
  {
    var r := ShownTree(nodes, fs, n);
    forall x | x in expanded ensures x < |r| && !IsLeaf(r, x) {
      assert x != n || r == nodes;
      assert r[x] == nodes[x];
    }
  }

  /** The table after showChildren on node `n`: the full listing of a directory node, otherwise what it showed before. */
  function ShownTable(files: seq<Entry>, nodes: seq<TreeNode>, fs: FileSystem, n: nat): (r: seq<Entry>)
    requires n < |nodes|
    ensures IsDirectory(fs, nodes[n].file) ==>
              forall e :: e in r <==> e in fs.entries && Parent(e.path) == Some(nodes[n].file)
    ensures !IsDirectory(fs, nodes[n].file) ==> r == files
  {
    if IsDirectory(fs, nodes[n].file) then Listing(fs, nodes[n].file) else files
  }

  /** Showing a node's children twice is the same as showing them once: no child is ever duplicated. */
  lemma ShowChildrenIdempotent(nodes: seq<TreeNode>, fs: FileSystem, n: nat)
    requires WellFormed(nodes) && n < |nodes|
    ensures ShownTree(ShownTree(nodes, fs, n), fs, n) == ShownTree(nodes, fs, n)
  {
    var once := ShownTree(nodes, fs, n);
    if IsDirectory(fs, nodes[n].file) && IsLeaf(nodes, n) && SubdirectoryPaths(Listing(fs, nodes[n].file)) != [] {
      assert |ChildFiles(once, n)| > 0;
    }
  }

  /** What the copy leaves at `to`: the source's size and permission bits, a fresh timestamp. */
  function CopyOf(src: Entry, to: Path): Entry {
    Entry(to, src.length, 0, src.canRead, src.canWrite, src.canExecute, false, true)
  }

  /** The filesystem after a created, empty destination `to` has been filled from `from` (or not, if the transfer failed). */
  function Transferred(fs: FileSystem, from: Path, to: Path, transferOk: bool): (r: FileSystem)
    requires !Exists(fs, to)
    ensures forall q :: q != to ==> Lookup(r, q) == Lookup(fs, q)
    ensures transferOk && IsRegularFile(fs, from) ==> Lookup(r, to) == Some(CopyOf(Lookup(fs, from).value, to))
    ensures !(transferOk && IsRegularFile(fs, from)) ==> Lookup(r, to) == Some(NewEntry(to, false))
  {
    var e := if transferOk && IsRegularFile(fs, from) then CopyOf(Lookup(fs, from).value, to) else NewEntry(to, false);
    forall q ensures Lookup(FileSystem(fs.entries + [e]), q) == if q == to then Some(e) else Lookup(fs, q) {
      CreatedLookup(fs, e, q);
    }
    FileSystem(fs.entries + [e])
  }

  /**
   * copyFile as written. The `return false` in its `finally` block overrides
   * both the normal completion and any exception from the copy, so once the
   * destination has been created the result is false whatever happened.
   */
  function CopyFile(fs: FileSystem, from: Path, to: Path, permitted: bool, transferOk: bool): (r: Call)
    ensures r.Threw? <==> CreateNewFile(fs, to, permitted).Threw?
    ensures r.Returned? ==> !r.value
    ensures Exists(fs, to) ==> r == Returned(false, fs)
    ensures r.Returned? && r.after != fs ==> !Exists(fs, to) && Exists(r.after, to)
  {
    var created := CreateNewFile(fs, to, permitted);
    if created.Threw? then Threw
    else if !created.value then Returned(false, created.after)
    else Returned(false, Transferred(fs, from, to, transferOk))
  }

  /**
   * copyFile as evidently intended: true exactly when the destination was
   * created and filled; a failure of the transfer propagates as an exception.
   */
  function CopyFileIntended(fs: FileSystem, from: Path, to: Path, permitted: bool, transferOk: bool): (r: Call)
    ensures Exists(fs, to) ==> r == Returned(false, fs)
    ensures r.Returned? && r.value <==>
              CreateNewFile(fs, to, permitted).Returned? && CreateNewFile(fs, to, permitted).value &&
              IsRegularFile(fs, from) && transferOk
    ensures r.Returned? && r.value ==>
              Lookup(r.after, to) == Some(CopyOf(Lookup(fs, from).value, to)) &&
              forall q :: q != to ==> Lookup(r.after, q) == Lookup(fs, q)
    ensures r.Returned? && !r.value ==> r.after == fs
  {
    var created := CreateNewFile(fs, to, permitted);
    if created.Threw? then Threw
    else if !created.value then Returned(false, created.after)
    else if transferOk && IsRegularFile(fs, from) then Returned(true, Transferred(fs, from, to, transferOk))
    else Threw
  }

  /** Whenever the intended copy succeeds, the copy as written has done the same work and still reports false. */
  lemma CopyFileDiscardsSuccess(fs: FileSystem, from: Path, to: Path, permitted: bool, transferOk: bool)
    requires CopyFileIntended(fs, from, to, permitted, transferOk).Returned?
    requires CopyFileIntended(fs, from, to, permitted, transferOk).value
    ensures CopyFile(fs, from, to, permitted, transferOk) ==
              Returned(false, CopyFileIntended(fs, from, to, permitted, transferOk).after)
  {
  }

  /** A concrete copy of r/a.txt to r/b.txt: the intended copy reports true, the copy as written false. */
  lemma CopyFileFalseAfterCopy()
    ensures var fs := FileSystem([Entry(["r"], 0, 0, true, true, true, true, false),
                                  Entry(["r", "a.txt"], 5, 0, true, true, false, false, true)]);
            CopyFileIntended(fs, ["r", "a.txt"], ["r", "b.txt"], true, true).Returned? &&
            CopyFileIntended(fs, ["r", "a.txt"], ["r", "b.txt"], true, true).value &&
            CopyFile(fs, ["r", "a.txt"], ["r", "b.txt"], true, true).Returned? &&
            !CopyFile(fs, ["r", "a.txt"], ["r", "b.txt"], true, true).value
  {
    var fs := FileSystem([Entry(["r"], 0, 0, true, true, true, true, false),
                          Entry(["r", "a.txt"], 5, 0, true, true, false, false, true)]);
    assert fs.entries[0].path == ["r"] && fs.entries[1].path == ["r", "a.txt"];
    assert Lookup(fs, ["r"]) == Some(fs.entries[0]);
    assert Lookup(fs, ["r", "a.txt"]) == Some(fs.entries[1]);
    assert ["r", "b.txt"][..1] == ["r"];
    assert !Exists(fs, ["r", "b.txt"]);
  }

  /** The loop of getGui and the publish/process pair of showChildren: one new child of `n` per subdirectory in `listing`, in order. */
  method WithSubdirectories(nodes: seq<TreeNode>, n: nat, listing: seq<Entry>) returns (tree: seq<TreeNode>)
    requires WellFormed(nodes) && n < |nodes|
    ensures tree == AddAll(nodes, n, SubdirectoryPaths(listing))
  {
    tree := nodes;
    for i := 0 to |listing|
      invariant tree == AddAll(nodes, n, SubdirectoryPaths(listing[..i]))
    {
      SubdirectoryPathsSnoc(listing, i);
      ghost var s := SubdirectoryPaths(listing[..i]);
      if listing[i].isDirectory {
        AddAllSnoc(nodes, n, s, listing[i].path);
        tree := Add(tree, n, listing[i].path);
        assert SubdirectoryPaths(listing[..i + 1]) == s + [listing[i].path];
      } else {
        assert SubdirectoryPaths(listing[..i + 1]) == s;
      }
    }
    assert listing[..|listing|] == listing;
  }

  /** Seeding one more root extends the seeded tree by one step. */
  lemma SeedTreeSnocListings(roots: seq<Path>, listings: seq<seq<Entry>>, k: nat)
    requires |roots| == |listings| && k < |roots|
    ensures SeedTree(roots[..k + 1], SubdirectoriesOf(listings[..k + 1])) ==
            SeedStep(SeedTree(roots[..k], SubdirectoriesOf(listings[..k])), roots[k], SubdirectoryPaths(listings[k]))
  {
    var s := SubdirectoriesOf(listings[..k + 1]);
    assert s[..k] == SubdirectoriesOf(listings[..k]);
    assert roots[..k + 1][..k] == roots[..k];
  }

  /** The seeding loop of getGui: a node per filesystem root, each with a child per subdirectory its listing holds. */
  method Seed(roots: seq<Path>, listings: seq<seq<Entry>>) returns (tree: seq<TreeNode>)
    requires |roots| == |listings|
    ensures tree == SeedTree(roots, SubdirectoriesOf(listings))
  {
    tree := [ROOT];
    for k := 0 to |roots|
      invariant tree == SeedTree(roots[..k], SubdirectoriesOf(listings[..k]))
    {
      SeedTreeSnocListings(roots, listings, k);
      var rootNode := |tree|;
      var withRoot := Add(tree, 0, roots[k]);
      tree := WithSubdirectories(withRoot, rootNode, listings[k]);
    }
    assert roots[..|roots|] == roots && listings[..|roots|] == listings;
  }

  /** The tree getGui builds over `fs`: one node per root, each with a child per subdirectory it lists. */
  function GuiTree(fs: FileSystem): (r: seq<TreeNode>)
    ensures WellFormed(r) && ChildFiles(r, 0) == Roots(fs)
  {
    var roots := Roots(fs);
    SeedTree(roots, SubdirectoriesOf(RootListings(fs, roots)))
  }

  /** getGui's seeding, over the roots and their listings as the filesystem reports them. */
  method SeedGui(fs: FileSystem) returns (tree: seq<TreeNode>)
    ensures tree == GuiTree(fs)
  {
    var roots := Roots(fs);
    tree := Seed(roots, RootListings(fs, roots));
  }

  /** Every node getGui seeds below the root holds a path that exists: a root, or a subdirectory a root lists. */
  lemma GuiTreeFilesExist(fs: FileSystem, i: nat)
    requires 0 < i < |GuiTree(fs)|
    ensures Exists(fs, GuiTree(fs)[i].file)
  {
    var roots := Roots(fs);
    var subdirs := SubdirectoriesOf(RootListings(fs, roots));
    var k := SeededFiles(roots, subdirs, i);
    var f := GuiTree(fs)[i].file;
    if f == roots[k] {
      RootsExist(fs, f);
    } else {
      var listing := Listing(fs, roots[k]);
      assert f in SubdirectoryPaths(listing);
      SubdirectoryPathsMembers(listing, f);
      var e :| e in listing && e.isDirectory && e.path == f;
      assert e in fs.entries;
    }
  }

  /** Over the seeded tree, a path that does not exist matches none of the visible rows, whichever nodes are expanded. */
  lemma AbsentNotFound(fs: FileSystem, expanded: set<nat>, p: Path)
    requires !Exists(fs, p)
    ensures FirstMatch(GuiTree(fs), VisibleRows(GuiTree(fs), expanded), Some(p)) == None
  {
    var t := GuiTree(fs);
    var rows := VisibleRows(t, expanded);
    FirstMatchIsFirst(t, rows, Some(p));
    forall k | 0 <= k < |rows|
      ensures !Matches(t[rows[k]], Some(p))
    {
      GuiTreeFilesExist(fs, rows[k]);
    }
  }

  class FileManager {
    /** The tree model's nodes; node 0 is the invisible root. */
    var nodes: seq<TreeNode>
    /** The nodes the JTree shows expanded; the user opens and closes them. */
    var expanded: set<nat>
    /** The file whose details are shown, null until something is selected. */
    var currentFile: Option<Path>
    /** The filesystem as it stands. */
    var fs: FileSystem
    /** The listing table. */
    const table: FileTableModel

    ghost predicate Valid()
      reads this
    {
      WellFormed(nodes) && ExpandsOnlyParents(nodes, expanded)
    }

    /** The first visible row holding `find`: what findTreePath returns. */
    ghost function Row(find: Option<Path>): (r: Option<nat>)
      reads this
      requires Valid()
    {
      FirstMatch(nodes, VisibleRows(nodes, expanded), find)
    }

    /**
     * getGui's tree: the seeded tree, with the first row expanded
     * (expandRow(0)). Nothing is selected and the table is empty.
     */
    constructor (fs0: FileSystem)
      ensures Valid()
      ensures fs == fs0 && currentFile == None && table.files == [] && fresh(table)
      ensures nodes == GuiTree(fs0)
      ensures expanded == if nodes[0].children == [] || IsLeaf(nodes, nodes[0].children[0]) then {} else {nodes[0].children[0]}
    {
      var tree := SeedGui(fs0);
      var open: set<nat> := {};
      if tree[0].children != [] {
        var first := tree[0].children[0];
        assert 0 < first < |tree|;
        if !IsLeaf(tree, first) {
          open := {first};
        }
      }
      assert ExpandsOnlyParents(tree, open);
      table := new FileTableModel();
      fs := fs0;
      currentFile := None;
      nodes := tree;
      expanded := open;
    }

    /** showChildren, run to completion: a directory's listing goes to the table, and a directory leaf gets its subdirectories. */
    method ShowChildren(n: nat)
      requires Valid() && n < |nodes|
      modifies this, table
      ensures Valid()
      ensures Refreshed(old(nodes), old(table.files), n)
      ensures fs == old(fs) && currentFile == old(currentFile) && expanded == old(expanded)
    {
      var file := nodes[n].file;
      if IsDirectory(fs, file) {
        var filesFromChosenDir := Listing(fs, file);
        table.SetFiles(filesFromChosenDir);
        if IsLeaf(nodes, n) {
          nodes := WithSubdirectories(nodes, n, filesFromChosenDir);
        }
      }
      ShownTreeKeepsParentsExpanded(old(nodes), fs, n, expanded);
    }

    /** The tree and the table are what showChildren on node `n` makes of tree `t` and table rows `files`. */
    ghost predicate Refreshed(t: seq<TreeNode>, files: seq<Entry>, n: nat)
      reads this, table
      requires WellFormed(t) && n < |t|
    {
      nodes == ShownTree(t, fs, n) && table.files == ShownTable(files, t, fs, n)
    }

    /** findTreePath: a scan of the visible rows, top to bottom, for the first node holding `find`. */
    method FindTreePath(find: Option<Path>) returns (r: Option<nat>)
      requires Valid()
      ensures r == FirstMatch(nodes, VisibleRows(nodes, expanded), find)
      ensures r.Some? ==> find.Some? && 0 < r.value < |nodes| && nodes[r.value].file == find.value
    {
      var rows := VisibleRows(nodes, expanded);
      var ii := 0;
      while ii < |rows|
        invariant 0 <= ii <= |rows|
        invariant FirstMatch(nodes, rows[ii..], find) == FirstMatch(nodes, rows, find)
      {
        assert rows[ii..][1..] == rows[ii + 1..];
        if Matches(nodes[rows[ii]], find) {
          return Some(rows[ii]);
        }
        ii := ii + 1;
      }
      return None;
    }

    /** setFileDetails: the file becomes the current file. */
    method SetFileDetails(file: Path)
      modifies this
      ensures currentFile == Some(file)
      ensures nodes == old(nodes) && fs == old(fs) && expanded == old(expanded)
    {
      currentFile := Some(file);
    }

    /** The tree selection listener: show the node's children, then its details. */
    method SelectTreeNode(n: nat)
      requires Valid() && n in VisibleRows(nodes, expanded)
      modifies this, table
      ensures Valid()
      ensures Refreshed(old(nodes), old(table.files), n)
      ensures currentFile == Some(old(nodes)[n].file)
      ensures fs == old(fs) && expanded == old(expanded)
    {
      ShowChildren(n);
      SetFileDetails(nodes[n].file);
    }

    /**
     * The table selection listener: the selected row's file becomes the
     * current file. A row outside the table (the -1 of a cleared selection)
     * makes getFile throw, and nothing changes.
     */
    method SelectTableRow(row: int)
      requires Valid()
      modifies this
      ensures Valid()
      ensures 0 <= row < |table.files| ==> currentFile == Some(table.files[row].path)
      ensures !(0 <= row < |table.files|) ==> currentFile == old(currentFile)
      ensures nodes == old(nodes) && fs == old(fs) && expanded == old(expanded)
    {
      if 0 <= row < table.RowCount() {
        SetFileDetails(table.GetFile(row).path);
      }
    }

    /** The user expands or collapses node `n`; only a node with children can be expanded. */
    method SetExpanded(n: nat, open: bool)
      requires Valid() && n < |nodes| && (open ==> !IsLeaf(nodes, n))
      modifies this
      ensures Valid()
      ensures expanded == if open then old(expanded) + {n} else old(expanded) - {n}
      ensures nodes == old(nodes) && fs == old(fs) && currentFile == old(currentFile)
    {
      expanded := if open then expanded + {n} else expanded - {n};
    }

    /**
     * The tree edit shared by renameFile and deleteFile once the filesystem
     * call has succeeded: a directory's node is looked up and removed (the
     * JTree collapses its parent if it was the last child), then the parent's
     * node is refreshed.
     */
    method RemoveAndRefresh(cur: Path, directory: bool, parentNode: nat) returns (o: Outcome)
      requires Valid() && parentNode < |nodes| && nodes[parentNode].file != cur
      modifies this, table
      ensures Valid()
      ensures fs == old(fs) && currentFile == old(currentFile)
      ensures directory && old(Row(Some(cur))).None? ==>
                o == NodeNotVisible && nodes == old(nodes) && table.files == old(table.files) &&
                expanded == old(expanded)
      ensures !(directory && old(Row(Some(cur))).None?) ==>
                o == Done &&
                Refreshed(if directory then Remove(old(nodes), old(Row(Some(cur))).value) else old(nodes),
                          old(table.files), parentNode) &&
                expanded == if directory then ExpandedAfterRemove(old(nodes), old(expanded), old(Row(Some(cur))).value)
                            else old(expanded)
      ensures o == Done && directory ==> old(Row(Some(cur))).value !in VisibleRows(nodes, expanded)
    {
      if directory {
        var currentPath := FindTreePath(Some(cur));
        if currentPath.None? {
          return NodeNotVisible;
        }
        RemoveKeepsParentsExpanded(nodes, expanded, currentPath.value);
        expanded := ExpandedAfterRemove(nodes, expanded, currentPath.value);
        nodes := Remove(nodes, currentPath.value);
        RemovedStaysHidden(nodes, fs, expanded, parentNode, currentPath.value);
      }
      ShowChildren(parentNode);
      return Done;
    }

    /**
     * renameFile. `newName` is the dialog's answer (None when cancelled) and
     * `permitted` whether the system allows the rename. The parent's node is
     * looked up before the filesystem is touched; a renamed directory's node
     * is removed and the parent refreshed, which re-adds nothing unless the
     * parent has become a leaf. The current file is left pointing at the old
     * path.
     */
    method RenameFile(newName: Option<string>, permitted: bool) returns (o: Outcome)
      requires Valid()
      modifies this, table
      ensures Valid()
      ensures currentFile == old(currentFile)
      ensures old(currentFile).None? ==> o == NoFileSelected
      ensures old(currentFile).Some? && newName.None? ==> o == NotAsked
      ensures o == NoFileSelected || o == NotAsked || o == ParentNotVisible ==>
                fs == old(fs) && nodes == old(nodes) && table.files == old(table.files)
      ensures old(currentFile).Some? && newName.Some? ==>
                var cur := old(currentFile).value;
                var parentRow := old(Row(Parent(cur)));
                if parentRow.None? then o == ParentNotVisible
                else
                  var call := RenameTo(old(fs), cur, Child(Parent(cur).value, newName.value), permitted);
                  fs == call.after &&
                  if !call.value then
                    o == Failed(cur) && nodes == old(nodes) && table.files == old(table.files)
                  else if IsDirectory(old(fs), cur) && old(Row(Some(cur))).None? then
                    o == NodeNotVisible && nodes == old(nodes) && table.files == old(table.files)
                  else
                    o == Done &&
                    Refreshed(if IsDirectory(old(fs), cur) then Remove(old(nodes), old(Row(Some(cur))).value) else old(nodes),
                              old(table.files), parentRow.value)
      ensures o == Done && IsDirectory(old(fs), old(currentFile).value) ==>
                old(Row(currentFile)).value !in VisibleRows(nodes, expanded)
      ensures o == Done && IsDirectory(old(fs), old(currentFile).value) ==>
                expanded == ExpandedAfterRemove(old(nodes), old(expanded), old(Row(currentFile)).value)
      ensures !(o == Done && IsDirectory(old(fs), old(currentFile).value)) ==> expanded == old(expanded)
    {
      if currentFile.None? {
        return NoFileSelected;
      }
      if newName.None? {
        return NotAsked;
      }
      var cur := currentFile.value;
      var directory := IsDirectory(fs, cur);
      var parentPath := FindTreePath(Parent(cur));
      if parentPath.None? {
        return ParentNotVisible;
      }
      var call := RenameTo(fs, cur, Child(Parent(cur).value, newName.value), permitted);
      fs := call.after;
      if !call.value {
        return Failed(cur);
      }
      o := RemoveAndRefresh(cur, directory, parentPath.value);
    }

    /**
     * The tree edit renameFile evidently intends: a renamed directory's node
     * is removed, a node for its new path `to` takes its place as the
     * parent's last child, then the parent's node is refreshed.
     */
    method ReplaceAndRefresh(cur: Path, to: Path, directory: bool, parentNode: nat) returns (o: Outcome)
      requires Valid() && parentNode < |nodes| && nodes[parentNode].file != cur
      modifies this, table
      ensures Valid()
      ensures fs == old(fs) && currentFile == old(currentFile)
      ensures directory && old(Row(Some(cur))).None? ==>
                o == NodeNotVisible && nodes == old(nodes) && table.files == old(table.files) &&
                expanded == old(expanded)
      ensures !(directory && old(Row(Some(cur))).None?) ==>
                o == Done &&
                Refreshed(if directory then Add(Remove(old(nodes), old(Row(Some(cur))).value), parentNode, to)
                          else old(nodes),
                          old(table.files), parentNode) &&
                expanded == if directory then ExpandedAfterRemove(old(nodes), old(expanded), old(Row(Some(cur))).value)
                            else old(expanded)
      ensures o == Done && directory ==>
                ChildFiles(nodes, parentNode) ==
                  ChildFiles(Remove(old(nodes), old(Row(Some(cur))).value), parentNode) + [to]
      ensures o == Done && directory ==> old(Row(Some(cur))).value !in VisibleRows(nodes, expanded)
    {
      if directory {
        var currentPath := FindTreePath(Some(cur));
        if currentPath.None? {
          return NodeNotVisible;
        }
        var m := currentPath.value;
        RemoveKeepsParentsExpanded(nodes, expanded, m);
        expanded := ExpandedAfterRemove(nodes, expanded, m);
        nodes := Remove(nodes, m);
        AddKeepsParentsExpanded(nodes, parentNode, to, expanded);
        nodes := Add(nodes, parentNode, to);
        RemovedStaysHidden(nodes, fs, expanded, parentNode, m);
      }
      ShowChildren(parentNode);
      return Done;
    }

    /**
     * renameFile as evidently intended: as written, except that a renamed
     * directory gets a node for its new path under the parent's node, so it
     * stays in the tree whether or not the parent has other children.
     */
    method RenameFileIntended(newName: Option<string>, permitted: bool) returns (o: Outcome)
      requires Valid()
      modifies this, table
      ensures Valid()
      ensures currentFile == old(currentFile)
      ensures old(currentFile).None? ==> o == NoFileSelected
      ensures old(currentFile).Some? && newName.None? ==> o == NotAsked
      ensures o == NoFileSelected || o == NotAsked || o == ParentNotVisible ==>
                fs == old(fs) && nodes == old(nodes) && table.files == old(table.files)
      ensures old(currentFile).Some? && newName.Some? ==>
                var cur := old(currentFile).value;
                var parentRow := old(Row(Parent(cur)));
                if parentRow.None? then o == ParentNotVisible
                else
                  var to := Child(Parent(cur).value, newName.value);
                  var call := RenameTo(old(fs), cur, to, permitted);
                  fs == call.after &&
                  if !call.value then
                    o == Failed(cur) && nodes == old(nodes) && table.files == old(table.files)
                  else if IsDirectory(old(fs), cur) && old(Row(Some(cur))).None? then
                    o == NodeNotVisible && nodes == old(nodes) && table.files == old(table.files)
                  else
                    o == Done &&
                    Refreshed(if IsDirectory(old(fs), cur)
                              then Add(Remove(old(nodes), old(Row(Some(cur))).value), parentRow.value, to)
                              else old(nodes),
                              old(table.files), parentRow.value) &&
                    (IsDirectory(old(fs), cur) ==>
                       ChildFiles(nodes, parentRow.value) ==
                         ChildFiles(Remove(old(nodes), old(Row(Some(cur))).value), parentRow.value) + [to])
      ensures o == Done && IsDirectory(old(fs), old(currentFile).value) ==>
                old(Row(currentFile)).value !in VisibleRows(nodes, expanded)
      ensures o == Done && IsDirectory(old(fs), old(currentFile).value) ==>
                expanded == ExpandedAfterRemove(old(nodes), old(expanded), old(Row(currentFile)).value)
      ensures !(o == Done && IsDirectory(old(fs), old(currentFile).value)) ==> expanded == old(expanded)
    {
      if currentFile.None? {
        return NoFileSelected;
      }
      if newName.None? {
        return NotAsked;
      }
      var cur := currentFile.value;
      var directory := IsDirectory(fs, cur);
      var parentPath := FindTreePath(Parent(cur));
      if parentPath.None? {
        return ParentNotVisible;
      }
      var to := Child(Parent(cur).value, newName.value);
      var call := RenameTo(fs, cur, to, permitted);
      fs := call.after;
      if !call.value {
        return Failed(cur);
      }
      o := ReplaceAndRefresh(cur, to, directory, parentPath.value);
    }

    /**
     * deleteFile. `confirmed` is the dialog's answer and `permitted` whether
     * the system allows the deletion. As in renameFile, the parent's node is
     * looked up before the filesystem is touched; a deleted directory's node
     * is removed and the parent refreshed. The current file is left pointing
     * at the deleted path.
     */
    method DeleteFile(confirmed: bool, permitted: bool) returns (o: Outcome)
      requires Valid()
      modifies this, table
      ensures Valid()
      ensures currentFile == old(currentFile)
      ensures old(currentFile).None? ==> o == NoFileSelected
      ensures old(currentFile).Some? && !confirmed ==> o == NotAsked
      ensures o == NoFileSelected || o == NotAsked || o == ParentNotVisible ==>
                fs == old(fs) && nodes == old(nodes) && table.files == old(table.files)
      ensures old(currentFile).Some? && confirmed ==>
                var cur := old(currentFile).value;
                var parentRow := old(Row(Parent(cur)));
                if parentRow.None? then o == ParentNotVisible
                else
                  var call := DeleteQuietly(old(fs), cur, permitted);
                  fs == call.after &&
                  if !call.value then
                    o == Failed(cur) && nodes == old(nodes) && table.files == old(table.files)
                  else if IsDirectory(old(fs), cur) && old(Row(Some(cur))).None? then
                    o == NodeNotVisible && nodes == old(nodes) && table.files == old(table.files)
                  else
                    o == Done &&
                    Refreshed(if IsDirectory(old(fs), cur) then Remove(old(nodes), old(Row(Some(cur))).value) else old(nodes),
                              old(table.files), parentRow.value)
      ensures o == Done ==> !Exists(fs, old(currentFile).value)
      ensures o == Done && IsDirectory(old(fs), old(currentFile).value) ==>
                old(Row(currentFile)).value !in VisibleRows(nodes, expanded)
      ensures o == Done && IsDirectory(old(fs), old(currentFile).value) ==>
                expanded == ExpandedAfterRemove(old(nodes), old(expanded), old(Row(currentFile)).value)
      ensures !(o == Done && IsDirectory(old(fs), old(currentFile).value)) ==> expanded == old(expanded)
    {
      if currentFile.None? {
        return NoFileSelected;
      }
      if !confirmed {
        return NotAsked;
      }
      var cur := currentFile.value;
      var parentPath := FindTreePath(Parent(cur));
      if parentPath.None? {
        return ParentNotVisible;
      }
      var directory := IsDirectory(fs, cur);
      var call := DeleteQuietly(fs, cur, permitted);
      fs := call.after;
      if !call.value {
        return Failed(cur);
      }
      o := RemoveAndRefresh(cur, directory, parentPath.value);
    }

    /**
     * The tree edit of newFile once the entry has been created: a new
     * directory becomes the last child of the parent's node, then the
     * parent's node is refreshed.
     */
    method InsertAndRefresh(file: Path, parentNode: nat) returns (o: Outcome)
      requires Valid() && parentNode < |nodes|
      modifies this, table
      ensures Valid()
      ensures fs == old(fs) && currentFile == old(currentFile) && expanded == old(expanded)
      ensures o == Done
      ensures Refreshed(if IsDirectory(fs, file) then Add(old(nodes), parentNode, file) else old(nodes),
                        old(table.files), parentNode)
      ensures IsDirectory(fs, file) ==> ChildFiles(nodes, parentNode) == ChildFiles(old(nodes), parentNode) + [file]
    {
      if IsDirectory(fs, file) {
        AddKeepsParentsExpanded(nodes, parentNode, file, expanded);
        nodes := Add(nodes, parentNode, file);
      }
      ShowChildren(parentNode);
      return Done;
    }

    /**
     * newFile as written. `confirmed`, `name` and `asFile` are the dialog's
     * answers, `permitted` whether the system allows the creation. The entry
     * is created first; only then is the parent's node looked up, so a
     * missing node leaves the new entry on disk but not in the tree. For a
     * new directory the current file's node is looked up as well, although
     * nothing uses it: when the current file has no visible node, the
     * directory is created but never added to the tree.
     */
    method NewFile(confirmed: bool, name: string, asFile: bool, permitted: bool) returns (o: Outcome)
      requires Valid()
      modifies this, table
      ensures Valid()
      ensures currentFile == old(currentFile) && expanded == old(expanded)
      ensures old(currentFile).None? ==> o == NoFileSelected
      ensures old(currentFile).Some? && !confirmed ==> o == NotAsked
      ensures o == NoFileSelected || o == NotAsked || o == CreateThrew ==>
                fs == old(fs) && nodes == old(nodes) && table.files == old(table.files)
      ensures old(currentFile).Some? && confirmed ==>
                var cur := old(currentFile).value;
                var parentFile := if IsDirectory(old(fs), cur) then Some(cur) else Parent(cur);
                if parentFile.None? then
                  o == (if permitted then ParentNotVisible else if asFile then CreateThrew else Failed([name])) &&
                  fs == old(fs) && nodes == old(nodes) && table.files == old(table.files)
                else
                  var file := Child(parentFile.value, name);
                  var call := if asFile then CreateNewFile(old(fs), file, permitted) else Mkdir(old(fs), file, permitted);
                  if call.Threw? then o == CreateThrew
                  else
                    fs == call.after &&
                    var parentRow := old(Row(parentFile));
                    if !call.value then
                      o == Failed(file) && nodes == old(nodes) && table.files == old(table.files)
                    else if parentRow.None? then
                      o == ParentNotVisible && nodes == old(nodes) && table.files == old(table.files)
                    else if !asFile && old(Row(currentFile)).None? then
                      o == NodeNotVisible && nodes == old(nodes) && table.files == old(table.files)
                    else
                      o == Done &&
                      Refreshed(if asFile then old(nodes) else Add(old(nodes), parentRow.value, file),
                                old(table.files), parentRow.value)
    {
      if currentFile.None? {
        return NoFileSelected;
      }
      if !confirmed {
        return NotAsked;
      }
      var cur := currentFile.value;
      var parentFile := if IsDirectory(fs, cur) then Some(cur) else Parent(cur);
      if parentFile.None? {
        return if permitted then ParentNotVisible else if asFile then CreateThrew else Failed([name]);
      }
      var file := Child(parentFile.value, name);
      var call := if asFile then CreateNewFile(fs, file, permitted) else Mkdir(fs, file, permitted);
      if call.Threw? {
        return CreateThrew;
      }
      fs := call.after;
      if !call.value {
        return Failed(file);
      }
      var parentPath := FindTreePath(parentFile);
      if parentPath.None? {
        return ParentNotVisible;
      }
      if IsDirectory(fs, file) {
        var currentPath := FindTreePath(currentFile);
        if currentPath.None? {
          return NodeNotVisible;
        }
      }
      o := InsertAndRefresh(file, parentPath.value);
    }

    /**
     * newFile without the stray lookup of the current file's node: a created
     * directory always becomes the last child of its parent's node, and the
     * parent's other children stay as they were.
     */
    method NewFileIntended(confirmed: bool, name: string, asFile: bool, permitted: bool) returns (o: Outcome)
      requires Valid()
      modifies this, table
      ensures Valid()
      ensures currentFile == old(currentFile) && expanded == old(expanded)
      ensures old(currentFile).None? ==> o == NoFileSelected
      ensures old(currentFile).Some? && !confirmed ==> o == NotAsked
      ensures o == NoFileSelected || o == NotAsked || o == CreateThrew ==>
                fs == old(fs) && nodes == old(nodes) && table.files == old(table.files)
      ensures old(currentFile).Some? && confirmed ==>
                var cur := old(currentFile).value;
                var parentFile := if IsDirectory(old(fs), cur) then Some(cur) else Parent(cur);
                if parentFile.None? then
                  o == (if permitted then ParentNotVisible else if asFile then CreateThrew else Failed([name])) &&
                  fs == old(fs) && nodes == old(nodes) && table.files == old(table.files)
                else
                  var file := Child(parentFile.value, name);
                  var call := if asFile then CreateNewFile(old(fs), file, permitted) else Mkdir(old(fs), file, permitted);
                  if call.Threw? then o == CreateThrew
                  else
                    fs == call.after &&
                    var parentRow := old(Row(parentFile));
                    if !call.value then
                      o == Failed(file) && nodes == old(nodes) && table.files == old(table.files)
                    else if parentRow.None? then
                      o == ParentNotVisible && nodes == old(nodes) && table.files == old(table.files)
                    else
                      o == Done &&
                      Refreshed(if asFile then old(nodes) else Add(old(nodes), parentRow.value, file),
                                old(table.files), parentRow.value) &&
                      (!asFile ==> ChildFiles(nodes, parentRow.value) == ChildFiles(old(nodes), parentRow.value) + [file])
    {
      if currentFile.None? {
        return NoFileSelected;
      }
      if !confirmed {
        return NotAsked;
      }
      var cur := currentFile.value;
      var parentFile := if IsDirectory(fs, cur) then Some(cur) else Parent(cur);
      if parentFile.None? {
        return if permitted then ParentNotVisible else if asFile then CreateThrew else Failed([name]);
      }
      var file := Child(parentFile.value, name);
      var call := if asFile then CreateNewFile(fs, file, permitted) else Mkdir(fs, file, permitted);
      if call.Threw? {
        return CreateThrew;
      }
      fs := call.after;
      if !call.value {
        return Failed(file);
      }
      var parentPath := FindTreePath(parentFile);
      if parentPath.None? {
        return ParentNotVisible;
      }
      o := InsertAndRefresh(file, parentPath.value);
    }
  }

  /**
   * renameFile as written, for a directory whose parent keeps another child:
   * the parent is no leaf after the removal, so the refresh adds nothing, and
   * a path none of the parent's children held before (the new name) is still
   * not among them.
   */
  lemma RenamedDirectoryDropped(nodes: seq<TreeNode>, fs: FileSystem, m: nat, p: nat, to: Path)
    requires WellFormed(nodes) && 0 < m < |nodes| && nodes[m].parent == Some(p)
    requires Without(nodes[p].children, m) != []
    requires to !in ChildFiles(nodes, p)
    ensures to !in ChildFiles(ShownTree(Remove(nodes, m), fs, p), p)
  {
    var r := Remove(nodes, m);
    assert !IsLeaf(r, p);
    forall k | 0 <= k < |r[p].children|
      ensures ChildFiles(r, p)[k] != to
    {
      var c := r[p].children[k];
      assert c in nodes[p].children && c != m;
      var j :| 0 <= j < |nodes[p].children| && nodes[p].children[j] == c;
      assert ChildFiles(nodes, p)[j] == nodes[c].file;
      assert r[c] == nodes[c];
    }
  }

  /** A node detached by removeNodeFromParent stays out of the visible rows when another node is refreshed. */
  lemma RemovedStaysHidden(nodes: seq<TreeNode>, fs: FileSystem, expanded: set<nat>, p: nat, m: nat)
    requires WellFormed(nodes) && p < |nodes| && 0 < m < |nodes| && m != p && nodes[m].parent == None
    ensures m !in VisibleRows(ShownTree(nodes, fs, p), expanded)
  {
  }
}
