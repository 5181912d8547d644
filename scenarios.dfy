/**
 * Concrete sessions. The first tells newFile as written from newFile without
 * the stray lookup: a directory created while a plain file of the table is
 * the current file. Then findTreePath on a fresh file manager, for a file
 * that does not exist. The last tells renameFile as written from renameFile
 * with the missing node insertion: a directory renamed beside a sibling.
 */
module Scenarios {
  import opened Wrappers
  import opened Disk
  import opened DirectoryTree
  import opened FileManager

  /** One root directory `r` holding one plain file `r/a.txt`. */
  const ONE_FILE_ROOT: FileSystem :=
    FileSystem([Entry(["r"], 0, 0, true, true, true, true, false),
                Entry(["r", "a.txt"], 5, 0, true, true, false, false, true)])

  /** The tree getGui shows for ONE_FILE_ROOT, and after showChildren on `r`: `r` is node 1, a leaf the JTree leaves collapsed. */
  const ONE_ROOT_TREE: seq<TreeNode> := [TreeNode([], None, [1]), TreeNode(["r"], Some(0), [])]

  /** Only `r` is visible: the file `r/a.txt` has a table row but no tree node. */
  lemma OneRootRows()
    ensures WellFormed(ONE_ROOT_TREE)
    ensures VisibleRows(ONE_ROOT_TREE, {}) == [1]
    ensures FirstMatch(ONE_ROOT_TREE, [1], Some(["r"])) == Some(1)
    ensures FirstMatch(ONE_ROOT_TREE, [1], Some(["r", "a.txt"])) == None
  {
    var t := ONE_ROOT_TREE;
    assert Rows(t, {}, 1) == [1];
    assert RowsOf(t, {}, [1][1..], 0) == [];
  }

  lemma OneFileRootRoots()
    ensures Roots(ONE_FILE_ROOT) == [["r"]]
  {
    var es := ONE_FILE_ROOT.entries;
    assert es[..1] == [es[0]];
    assert [es[0]][..0] == [];
  }

  lemma OneFileRootListing()
    ensures Listing(ONE_FILE_ROOT, ["r"]) == [ONE_FILE_ROOT.entries[1]]
  {
    var es := ONE_FILE_ROOT.entries;
    assert es[..1] == [es[0]];
    assert [es[0]][..0] == [];
    assert ["r", "a.txt"][..1] == ["r"];
  }

  lemma OneRootSeed()
    ensures SeedTree([["r"]], [[]]) == ONE_ROOT_TREE
  {
    assert [["r"]][..0] == [];
    assert SeedTree([], []) == [ROOT];
    var one := Add([ROOT], 0, ["r"]);
    assert |one| == 2 && one[0] == ONE_ROOT_TREE[0] && one[1] == ONE_ROOT_TREE[1];
    assert AddAll(one, 1, []) == ONE_ROOT_TREE;
  }

  /** getGui over ONE_FILE_ROOT builds ONE_ROOT_TREE: `r` lists no subdirectory. */
  lemma OneFileRootTree()
    ensures GuiTree(ONE_FILE_ROOT) == ONE_ROOT_TREE
  {
    var fs := ONE_FILE_ROOT;
    OneFileRootRoots();
    OneFileRootListing();
    var listings := RootListings(fs, [["r"]]);
    assert listings == [[fs.entries[1]]];
    assert [fs.entries[1]][..0] == [];
    assert SubdirectoryPaths([fs.entries[1]]) == [];
    assert SubdirectoriesOf(listings) == [[]];
    OneRootSeed();
  }

  /** The lookups the session's new-file step makes. */
  lemma OneFileRootEntries()
    ensures IsDirectory(ONE_FILE_ROOT, ["r"]) && !IsDirectory(ONE_FILE_ROOT, ["r", "a.txt"])
    ensures Parent(["r", "a.txt"]) == Some(["r"]) && Child(["r"], "sub") == ["r", "sub"]
    ensures Mkdir(ONE_FILE_ROOT, ["r", "sub"], true).value
  {
    var fs := ONE_FILE_ROOT;
    assert Lookup(fs, ["r"]) == Some(fs.entries[0]);
    assert Lookup(fs, ["r", "a.txt"]) == Some(fs.entries[1]);
    assert ["r", "a.txt"][..1] == ["r"] && ["r", "sub"][..1] == ["r"];
    assert !Exists(fs, ["r", "sub"]);
  }

  /** `r` lists no subdirectory. */
  lemma OneFileRootNoSubdirectory()
    ensures SubdirectoryPaths(Listing(ONE_FILE_ROOT, ["r"])) == []
  {
    OneFileRootListing();
    var es := [ONE_FILE_ROOT.entries[1]];
    assert es[..0] == [];
  }

  /** showChildren on `r` adds no node and shows `r/a.txt` in the table. */
  lemma OneRootShown(files: seq<Entry>)
    ensures WellFormed(ONE_ROOT_TREE)
    ensures ShownTree(ONE_ROOT_TREE, ONE_FILE_ROOT, 1) == ONE_ROOT_TREE
    ensures ShownTable(files, ONE_ROOT_TREE, ONE_FILE_ROOT, 1) == [ONE_FILE_ROOT.entries[1]]
  {
    var t := ONE_ROOT_TREE;
    OneRootRows();
    OneFileRootEntries();
    OneFileRootListing();
    OneFileRootNoSubdirectory();
    assert t[1].file == ["r"] && IsLeaf(t, 1);
    assert AddAll(t, 1, []) == t;
  }

  /** Start the file manager on ONE_FILE_ROOT and select `r` in the tree: the table lists `r/a.txt`. */
  method OpenRoot() returns (fm: FileManager)
    ensures fm.Valid() && fm.nodes == ONE_ROOT_TREE && fm.expanded == {}
    ensures fm.fs == ONE_FILE_ROOT && fm.currentFile == Some(["r"])
    ensures fm.table.files == [ONE_FILE_ROOT.entries[1]]
    ensures fresh(fm) && fresh(fm.table)
  {
    OneFileRootTree();
    OneRootRows();
    fm := new FileManager(ONE_FILE_ROOT);
    OneRootShown(fm.table.files);
    fm.SelectTreeNode(1);
  }

  /** Then select `r/a.txt` in the table: it becomes the current file, and it has no node. */
  method OpenFileRow() returns (fm: FileManager)
    ensures fm.Valid() && fm.nodes == ONE_ROOT_TREE && fm.expanded == {}
    ensures fm.fs == ONE_FILE_ROOT && fm.currentFile == Some(["r", "a.txt"])
    ensures fresh(fm) && fresh(fm.table)
  {
    fm := OpenRoot();
    fm.SelectTableRow(0);
  }

  /**
   * newFile as written, for a new directory `r/sub` from that row: `r/sub` is
   * created on disk, but the lookup of the current file's node fails and `r`
   * is left without a child for it.
   */
  method NewDirectoryFromFileRow() returns (o: Outcome, fm: FileManager)
    ensures o == NodeNotVisible && fm.Valid()
    ensures fm.nodes == ONE_ROOT_TREE && ChildFiles(fm.nodes, 1) == []
    ensures IsDirectory(fm.fs, ["r", "sub"])
  {
    fm := OpenFileRow();
    OneRootRows();
    OneFileRootEntries();
    o := fm.NewFile(true, "sub", false, true);
  }

  /** The same step without the stray lookup: `r/sub` becomes `r`'s child in the tree. */
  method NewDirectoryFromFileRowIntended() returns (o: Outcome, fm: FileManager)
    ensures o == Done && fm.Valid() && |fm.nodes| > 1
    ensures ChildFiles(fm.nodes, 1) == [["r", "sub"]]
    ensures IsDirectory(fm.fs, ["r", "sub"])
  {
    fm := OpenFileRow();
    OneRootRows();
    OneFileRootEntries();
    o := fm.NewFileIntended(true, "sub", false, true);
  }

  /** findTreePath on a fresh file manager: a file that does not exist has no row. */
  method FindAbsentFile(fs: FileSystem, p: Path) returns (r: Option<nat>)
    requires !Exists(fs, p)
    ensures r == None
  {
    var fm := new FileManager(fs);
    AbsentNotFound(fs, fm.expanded, p);
    r := fm.FindTreePath(Some(p));
  }

  /** One root directory `r` holding two directories, `r/c` and `r/d`. */
  const TWO_DIR_ROOT: FileSystem :=
    FileSystem([Entry(["r"], 0, 0, true, true, true, true, false),
                Entry(["r", "c"], 0, 0, true, true, true, true, false),
                Entry(["r", "d"], 0, 0, true, true, true, true, false)])

  /** The tree over TWO_DIR_ROOT with `r` filled: `r` is node 1, `r/c` node 2 and `r/d` node 3. */
  const TWO_DIR_TREE: seq<TreeNode> :=
    [TreeNode([], None, [1]), TreeNode(["r"], Some(0), [2, 3]),
     TreeNode(["r", "c"], Some(1), []), TreeNode(["r", "d"], Some(1), [])]

  /** TWO_DIR_ROOT after `r/d` is renamed to `r/e`. */
  const TWO_DIR_RENAMED: FileSystem :=
    FileSystem([Entry(["r"], 0, 0, true, true, true, true, false),
                Entry(["r", "c"], 0, 0, true, true, true, true, false),
                Entry(["r", "e"], 0, 0, true, true, true, true, false)])

  /** TWO_DIR_TREE after removeNodeFromParent on `r/d`'s node. */
  const TWO_DIR_PRUNED: seq<TreeNode> :=
    [TreeNode([], None, [1]), TreeNode(["r"], Some(0), [2]),
     TreeNode(["r", "c"], Some(1), []), TreeNode(["r", "d"], None, [])]

  lemma TwoDirLookups()
    ensures IsDirectory(TWO_DIR_ROOT, ["r", "d"]) && !Exists(TWO_DIR_ROOT, ["r", "e"])
    ensures Parent(["r", "d"]) == Some(["r"])
  {
    var fs := TWO_DIR_ROOT;
    assert Lookup(fs, ["r", "d"]) == Some(fs.entries[2]);
    assert ["r", "d"][..1] == ["r"];
  }

  lemma TwoDirNewName()
    ensures Child(Parent(["r", "d"]).value, "e") == ["r", "e"]
  {
    TwoDirLookups();
  }

  lemma TwoDirMoved()
    ensures MovedAll(TWO_DIR_ROOT.entries, ["r", "d"], ["r", "e"]) == TWO_DIR_RENAMED.entries
  {
    var es := TWO_DIR_ROOT.entries;
    var from, to := ["r", "d"], ["r", "e"];
    assert "c"[0] != "d"[0];
    assert es[1].path[..2] == ["r", "c"] && es[2].path[..2] == from;
    assert !IsPrefix(from, es[0].path) && !IsPrefix(from, es[1].path) && IsPrefix(from, es[2].path);
    assert to + es[2].path[|from|..] == to;
  }

  lemma TwoDirRenamedLookup()
    ensures IsDirectory(TWO_DIR_RENAMED, ["r", "e"])
  {
    var fs := TWO_DIR_RENAMED;
    assert "c"[0] != "e"[0];
    assert Lookup(fs, ["r", "e"]) == Some(fs.entries[2]);
  }

  /** Renaming `r/d` to `r/e` succeeds, and afterwards `r/e` is a directory. */
  lemma TwoDirRename()
    ensures RenameTo(TWO_DIR_ROOT, ["r", "d"], Child(["r"], "e"), true) == Returned(true, TWO_DIR_RENAMED)
    ensures IsDirectory(TWO_DIR_RENAMED, ["r", "e"])
  {
    TwoDirLookups();
    TwoDirMoved();
    TwoDirRenamedLookup();
    assert Child(["r"], "e") == ["r", "e"];
  }

  lemma TwoDirRemoved()
    ensures WellFormed(TWO_DIR_TREE) && Remove(TWO_DIR_TREE, 3) == TWO_DIR_PRUNED
  {
    var t := TWO_DIR_TREE;
    assert WellFormed(t);
    assert [2, 3][..1] == [2] && [2][..0] == [];
    assert Without([2, 3], 3) == [2];
  }

  lemma TwoDirRoots()
    ensures Roots(TWO_DIR_ROOT) == [["r"]]
  {
    var es := TWO_DIR_ROOT.entries;
    assert es[..2][..1] == es[..1] == [es[0]];
    assert [es[0]][..0] == [];
    assert RootPaths(es[..2]) == [["r"]];
  }

  lemma TwoDirListing()
    ensures Listing(TWO_DIR_ROOT, ["r"]) == TWO_DIR_ROOT.entries[1..]
  {
    var es := TWO_DIR_ROOT.entries;
    assert es[..2][..1] == es[..1] == [es[0]];
    assert [es[0]][..0] == [];
    assert ["r", "c"][..1] == ["r"] && ["r", "d"][..1] == ["r"];
    assert EntriesIn(es[..2], ["r"]) == [es[1]];
  }

  lemma TwoDirSubdirectories()
    ensures SubdirectoryPaths(TWO_DIR_ROOT.entries[1..]) == [["r", "c"], ["r", "d"]]
  {
    var es := TWO_DIR_ROOT.entries[1..];
    assert es[..1] == [es[0]] && [es[0]][..0] == [];
    assert SubdirectoryPaths(es[..1]) == [["r", "c"]];
  }

  /** The tree between the two subdirectories of `r` being added. */
  const TWO_DIR_HALF: seq<TreeNode> :=
    [TreeNode([], None, [1]), TreeNode(["r"], Some(0), [2]), TreeNode(["r", "c"], Some(1), [])]

  lemma TwoDirAddFirst()
    ensures WellFormed(ONE_ROOT_TREE) && Add(ONE_ROOT_TREE, 1, ["r", "c"]) == TWO_DIR_HALF
  {
    OneRootRows();
    var r := Add(ONE_ROOT_TREE, 1, ["r", "c"]);
    assert r[0] == TWO_DIR_HALF[0] && r[1] == TWO_DIR_HALF[1] && r[2] == TWO_DIR_HALF[2];
  }

  lemma TwoDirAddSecond()
    ensures WellFormed(TWO_DIR_HALF) && Add(TWO_DIR_HALF, 1, ["r", "d"]) == TWO_DIR_TREE
  {
    TwoDirAddFirst();
    var r := Add(TWO_DIR_HALF, 1, ["r", "d"]);
    assert r[0] == TWO_DIR_TREE[0] && r[1] == TWO_DIR_TREE[1];
    assert r[2] == TWO_DIR_TREE[2] && r[3] == TWO_DIR_TREE[3];
  }

  lemma TwoDirAddAll()
    ensures WellFormed(ONE_ROOT_TREE)
    ensures AddAll(ONE_ROOT_TREE, 1, [["r", "c"], ["r", "d"]]) == TWO_DIR_TREE
  {
    TwoDirAddFirst();
    TwoDirAddSecond();
    assert [["r", "c"], ["r", "d"]][..1] == [["r", "c"]] && [["r", "c"]][..0] == [];
    assert AddAll(ONE_ROOT_TREE, 1, [["r", "c"]]) == TWO_DIR_HALF;
  }

  lemma TwoDirSeed()
    ensures SeedTree([["r"]], [[["r", "c"], ["r", "d"]]]) == TWO_DIR_TREE
  {
    OneRootSeed();
    assert [["r"]][..0] == [];
    var one := Add([ROOT], 0, ["r"]);
    assert one == ONE_ROOT_TREE by {
      assert one[0] == ONE_ROOT_TREE[0] && one[1] == ONE_ROOT_TREE[1];
    }
    TwoDirAddAll();
  }

  /** getGui over TWO_DIR_ROOT builds TWO_DIR_TREE. */
  lemma TwoDirTree()
    ensures GuiTree(TWO_DIR_ROOT) == TWO_DIR_TREE
  {
    var fs := TWO_DIR_ROOT;
    TwoDirRoots();
    TwoDirListing();
    TwoDirSubdirectories();
    var listings := RootListings(fs, [["r"]]);
    assert listings == [fs.entries[1..]];
    assert SubdirectoriesOf(listings) == [[["r", "c"], ["r", "d"]]];
    TwoDirSeed();
  }

  /** The rows below `r`: its two leaves, in order. */
  lemma TwoDirChildRows()
    ensures WellFormed(TWO_DIR_TREE)
    ensures RowsOf(TWO_DIR_TREE, {1}, [2, 3], 1) == [2, 3]
  {
    TwoDirRemoved();
    var t := TWO_DIR_TREE;
    assert Rows(t, {1}, 2) == [2] && Rows(t, {1}, 3) == [3];
    assert [2, 3][1..] == [3] && [3][1..] == [];
  }

  /** With `r` expanded every node is a row. */
  lemma TwoDirRows()
    ensures WellFormed(TWO_DIR_TREE)
    ensures VisibleRows(TWO_DIR_TREE, {1}) == [1, 2, 3]
  {
    TwoDirChildRows();
    var t := TWO_DIR_TREE;
    assert Rows(t, {1}, 1) == [1, 2, 3];
    assert [1][1..] == [];
  }

  /** findTreePath over those rows finds `r` at node 1 and `r/d` at node 3. */
  lemma TwoDirFound()
    ensures WellFormed(TWO_DIR_TREE)
    ensures FirstMatch(TWO_DIR_TREE, [1, 2, 3], Some(["r"])) == Some(1)
    ensures FirstMatch(TWO_DIR_TREE, [1, 2, 3], Some(["r", "d"])) == Some(3)
  {
    TwoDirRemoved();
    assert "c"[0] != "d"[0];
    assert [1, 2, 3][1..] == [2, 3] && [2, 3][1..] == [3];
  }

  /** `r` keeps `r/c` after the removal, so showChildren on it changes nothing. */
  lemma PrunedShown(fs: FileSystem)
    ensures WellFormed(TWO_DIR_PRUNED)
    ensures ShownTree(TWO_DIR_PRUNED, fs, 1) == TWO_DIR_PRUNED
    ensures ChildFiles(TWO_DIR_PRUNED, 1) == [["r", "c"]]
  {
    TwoDirRemoved();
    assert !IsLeaf(TWO_DIR_PRUNED, 1);
  }

  /** With a node for `r/e` added under `r`, showChildren on `r` changes nothing. */
  lemma ReplacedShown(fs: FileSystem)
    ensures WellFormed(TWO_DIR_PRUNED)
    ensures var u := Add(TWO_DIR_PRUNED, 1, ["r", "e"]);
            ShownTree(u, fs, 1) == u && ChildFiles(u, 1) == [["r", "c"], ["r", "e"]]
  {
    PrunedShown(fs);
    var u := Add(TWO_DIR_PRUNED, 1, ["r", "e"]);
    assert !IsLeaf(u, 1);
  }

  /**
   * renameFile as written on `r/d`: its node is removed and `r`, which keeps
   * `r/c`, is refreshed without gaining a child, although `r/e` exists.
   */
  lemma RenamedSiblingLost()
    ensures WellFormed(TWO_DIR_TREE)
    ensures ChildFiles(ShownTree(Remove(TWO_DIR_TREE, 3), TWO_DIR_RENAMED, 1), 1) == [["r", "c"]]
  {
    TwoDirRemoved();
    PrunedShown(TWO_DIR_RENAMED);
  }

  /** renameFile as intended on `r/d`: `r/e` takes its place as `r`'s last child. */
  lemma RenamedSiblingKept()
    ensures WellFormed(TWO_DIR_TREE)
    ensures ChildFiles(ShownTree(Add(Remove(TWO_DIR_TREE, 3), 1, ["r", "e"]), TWO_DIR_RENAMED, 1), 1) ==
              [["r", "c"], ["r", "e"]]
  {
    TwoDirRemoved();
    ReplacedShown(TWO_DIR_RENAMED);
  }

  /** `r/d` lists nothing, so showChildren on its node adds no child. */
  lemma TwoDirLeafListing()
    ensures Listing(TWO_DIR_ROOT, ["r", "d"]) == []
  {
    var es := TWO_DIR_ROOT.entries;
    assert ["r", "c"][..1] == ["r"] && ["r", "d"][..1] == ["r"];
    assert es[..2][..1] == es[..1] == [es[0]] && [es[0]][..0] == [];
    assert EntriesIn(es[..2], ["r", "d"]) == [];
  }

  lemma TwoDirLeafShown()
    ensures WellFormed(TWO_DIR_TREE)
    ensures ShownTree(TWO_DIR_TREE, TWO_DIR_ROOT, 3) == TWO_DIR_TREE
  {
    TwoDirRemoved();
    TwoDirLeafListing();
    assert SubdirectoryPaths([]) == [];
    assert AddAll(TWO_DIR_TREE, 3, []) == TWO_DIR_TREE;
  }

  /** Start the file manager on TWO_DIR_ROOT: `r` is expanded and shows `r/c` and `r/d`. */
  method StartTwoDir() returns (fm: FileManager)
    ensures fm.Valid() && fm.nodes == TWO_DIR_TREE && fm.expanded == {1} && fm.fs == TWO_DIR_ROOT
    ensures fresh(fm) && fresh(fm.table)
  {
    TwoDirTree();
    TwoDirRemoved();
    fm := new FileManager(TWO_DIR_ROOT);
  }

  /** Then select `r/d` in the tree: it becomes the current file. */
  method SelectSubdirectory() returns (fm: FileManager)
    ensures fm.Valid() && fm.nodes == TWO_DIR_TREE && fm.expanded == {1} && fm.fs == TWO_DIR_ROOT
    ensures fm.currentFile == Some(["r", "d"])
    ensures fresh(fm) && fresh(fm.table)
  {
    fm := StartTwoDir();
    TwoDirRows();
    TwoDirLeafShown();
    fm.SelectTreeNode(3);
  }

  /** renameFile as written renames `r/d` to `r/e`, and `r` is left with `r/c` alone. */
  method RenameSubdirectory() returns (o: Outcome, fm: FileManager)
    ensures o == Done && fm.Valid() && |fm.nodes| > 1
    ensures ChildFiles(fm.nodes, 1) == [["r", "c"]]
    ensures IsDirectory(fm.fs, ["r", "e"])
  {
    fm := SelectSubdirectory();
    TwoDirRows();
    TwoDirFound();
    TwoDirLookups();
    TwoDirRename();
    assert fm.Row(Parent(["r", "d"])) == Some(1) && fm.Row(Some(["r", "d"])) == Some(3);
    o := fm.RenameFile(Some("e"), true);
    assert fm.fs == TWO_DIR_RENAMED;
    assert fm.nodes == ShownTree(Remove(TWO_DIR_TREE, 3), TWO_DIR_RENAMED, 1);
    RenamedSiblingLost();
  }

  /** renameFile as intended gives `r` the child `r/e` in place of `r/d`. */
  method RenameSubdirectoryIntended() returns (o: Outcome, fm: FileManager)
    ensures o == Done && fm.Valid() && |fm.nodes| > 1
    ensures ChildFiles(fm.nodes, 1) == [["r", "c"], ["r", "e"]]
    ensures IsDirectory(fm.fs, ["r", "e"])
  {
    fm := SelectSubdirectory();
    TwoDirRows();
    TwoDirFound();
    TwoDirLookups();
    TwoDirRename();
    assert fm.Row(Parent(["r", "d"])) == Some(1) && fm.Row(Some(["r", "d"])) == Some(3);
    TwoDirNewName();
    o := fm.RenameFileIntended(Some("e"), true);
    assert fm.fs == TWO_DIR_RENAMED;
    assert fm.nodes == ShownTree(Add(Remove(TWO_DIR_TREE, 3), 1, ["r", "e"]), TWO_DIR_RENAMED, 1);
    RenamedSiblingKept();
  }
}
