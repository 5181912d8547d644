# File manager tree, table and selection: a Dafny model

This project models the logic at the centre of the Swing file manager
(`com.github.filemanager`). That logic keeps three things in step:

- the directory tree the JTree shows;
- the listing table (`FileTableModel`);
- the "current file" whose details are shown.

It covers the actions that change them: seeding the tree in `getGui`,
`showChildren`, `findTreePath`, `setFileDetails`, and the rename, delete and
new-file actions. It also covers the boolean decision of the static `copyFile`.

The modules follow the program's structure:

- `Wrappers`: `Option`, standing in for a nullable reference.
- `Disk`: the host filesystem as `java.io.File` and `FileSystemView` present it.
  - A flat sequence of `Entry` records in enumeration order. A path is its list of name components, and a root has one component.
  - A one-level listing.
  - The four mutating calls the file manager makes: `createNewFile`, `mkdir`, `renameTo` and `FileUtils.deleteQuietly`.
  - Whether the operating system allows a call arrives as the parameter `permitted`.
- `TableModel`: `FileTableModel`, a class over a `seq<Entry>` with the ten-column schema.
- `DirectoryTree`: the `DefaultTreeModel` as an arena of nodes.
  - Node 0 is the invisible root; every node records its file, its parent index and its ordered children.
  - `WellFormed` says every child link has a matching parent link and points to a later index.
  - The JTree's visible rows are a pre-order walk through the set of expanded nodes.
  - The JTree never holds a leaf expanded (`ExpandsOnlyParents`): expanding a leaf does nothing, and a parent whose last child is removed collapses.
- `FileManager`: the class `FileManager` holding the tree, the expanded set, the current file, the filesystem and the table, with one method per action.
  - Dialog answers (the typed name, OK or cancel, file or directory) are method parameters.
  - What the original shows in a message box is returned as an `Outcome`; a `NullPointerException` caught by the action's `catch (Throwable)` is one of them.
  - This module also holds the seeding and `copyFile`.
- `Scenarios`: concrete sessions that exhibit the findings below, and `findTreePath` on a fresh file manager for a file that does not exist.

`showChildren` runs a `SwingWorker`. It is modelled as the single sequential
step that the worker's `doInBackground` / `publish` / `process` performs:
enumerate, add the subdirectories of a leaf, set the table.

## Model

| member | source | states |
|---|---|---|
| TableModel.FileTableModel.constructor | src/main/java/com/github/filemanager/FileTableModel.java:23-25 | the no-argument table holds no files and reports zero rows |
| TableModel.FileTableModel.FromFiles | src/main/java/com/github/filemanager/FileTableModel.java:27-29 | the array is stored as it is; the row count is its length |
| TableModel.FileTableModel.RowCount | src/main/java/com/github/filemanager/FileTableModel.java:110-112 | the row count is the number of files held |
| TableModel.FileTableModel.GetFile | src/main/java/com/github/filemanager/FileTableModel.java:119-121 | only a row inside the array may be asked for, and the file of row `i` is the `i`-th file |
| TableModel.FileTableModel.SetFiles | src/main/java/com/github/filemanager/FileTableModel.java:127-130 | the new rows replace the old wholesale: the row count is the new length and row `i` is the new `i`-th file |
| TableModel.FileTableModel.ColumnCount | src/main/java/com/github/filemanager/FileTableModel.java:70-72 | there are always ten columns |
| TableModel.FileTableModel.ColumnName | src/main/java/com/github/filemanager/FileTableModel.java:102-104 | columns 0 to 9 are named Icon, File, Path/name, Size, Last Modified, R, W, E, D, F; a column outside them may not be asked for |
| TableModel.FileTableModel.ColumnClass | src/main/java/com/github/filemanager/FileTableModel.java:79-95 | column 0 is an icon, 3 Long, 4 Date, 5 to 9 Boolean, every other column (negative ones included) String, each in both directions |
| TableModel.FileTableModel.ValueAt | src/main/java/com/github/filemanager/FileTableModel.java:37-64 | the row must be in range; columns 0 and 1 are the system icon and display name of the row's file, 2 to 9 its path, length, timestamp, the three permission bits, isDirectory and isFile; any other column gives the empty string |
| TableModel.FileTableModel.ValueMatchesColumnClass | src/main/java/com/github/filemanager/FileTableModel.java:48-49 | every cell holds a value of its column's declared class, except Last Modified: it declares Date and holds a Long |
| Disk.Parent | src/main/java/com/github/filemanager/FileManager.java:609 | getParentFile: there is a parent exactly when the path has more than one component, and it is the path without its last component |
| Disk.Child | src/main/java/com/github/filemanager/FileManager.java:611 | `new File(parent, name)` names `name` inside `parent`, and its parent is `parent` again |
| Disk.Lookup | src/main/java/com/github/filemanager/FileManager.java:497 | what a File reports is the first entry with its path; there is none exactly when no entry has that path |
| Disk.Listing | src/main/java/com/github/filemanager/FileManager.java:720 | getFiles lists exactly the entries whose parent is the directory |
| Disk.SubdirectoryPathsMembers | src/main/java/com/github/filemanager/FileManager.java:273-277 | the kept paths are exactly the directories of the listing |
| Disk.RootsExist | src/main/java/com/github/filemanager/FileManager.java:266 | every filesystem root is a one-component path that exists |
| Disk.CreateNewFile | src/main/java/com/github/filemanager/FileManager.java:613 | false exactly when the path exists, and then nothing changes; true exactly when the path is new, its parent a directory and the system allows it, and then the path is a fresh empty regular file; every other case (no parent directory, a refusal by the system) throws |
| Disk.Mkdir | src/main/java/com/github/filemanager/FileManager.java:615 | true exactly when the path is new, its parent a directory and the system allows it, and then the path is a directory; on false nothing changes |
| Disk.CreateKeepsOthers | src/main/java/com/github/filemanager/FileManager.java:612-616 | a successful create changes what no other path reports |
| Disk.DeleteQuietly | src/main/java/com/github/filemanager/FileManager.java:553 | true exactly when the path exists and the system allows it, and then the path and everything below it are gone and nothing else is; on false nothing changes |
| Disk.RenameTo | src/main/java/com/github/filemanager/FileManager.java:502-503 | true exactly when the source exists, the target does not and the system allows it; then every entry at or below the source moves below the target, in place, and every other entry is kept; on false nothing changes |
| Disk.RenameToSibling | src/main/java/com/github/filemanager/FileManager.java:502-503 | after a successful rename within the parent the new path exists, the old one does not, and the parent directory reports what it did before |
| DirectoryTree.Add | src/main/java/com/github/filemanager/FileManager.java:631 | insertNodeInto at getChildCount: the new node becomes the parent's last child, the tree stays well formed, and no other node changes |
| DirectoryTree.AddAll | src/main/java/com/github/filemanager/FileManager.java:734-737 | node.add for each path in order: the parent's children gain exactly those paths at the end, the new nodes are leaves under it, and no other node changes |
| DirectoryTree.AddAllKeepsOthers | src/main/java/com/github/filemanager/FileManager.java:734-737 | adding children under one node leaves the children of every other node as they were |
| DirectoryTree.SeedTree | src/main/java/com/github/filemanager/FileManager.java:252-279 | the seeded tree is well formed and the invisible root has exactly one child per filesystem root, in order |
| DirectoryTree.SeededShape | src/main/java/com/github/filemanager/FileManager.java:272-277 | the k-th root's node has exactly that root's subdirectories as children, in listing order |
| DirectoryTree.AddAllNewFiles | src/main/java/com/github/filemanager/FileManager.java:734-737 | the nodes added for the listed paths hold those paths, in order |
| DirectoryTree.SeedStepFiles | src/main/java/com/github/filemanager/FileManager.java:266-277 | a seeding step keeps the files of the earlier nodes, and its new nodes hold the root and then its subdirectories |
| DirectoryTree.SeededFiles | src/main/java/com/github/filemanager/FileManager.java:266-279 | every seeded node below the invisible root holds one of the roots or a subdirectory listed under one of them |
| DirectoryTree.AddKeepsParentsExpanded | src/main/java/com/github/filemanager/FileManager.java:631 | inserting a child keeps every expanded node a node with children |
| DirectoryTree.RemoveKeepsParentsExpanded | src/main/java/com/github/filemanager/FileManager.java:514 | after removeNodeFromParent, with the parent collapsed exactly when it lost its last child, every expanded node still has children |
| DirectoryTree.Remove | src/main/java/com/github/filemanager/FileManager.java:514 | removeNodeFromParent: the node leaves its parent's children and loses its parent link, the tree stays well formed, and no other node changes |
| DirectoryTree.RemovedSubtreeHidden | src/main/java/com/github/filemanager/FileManager.java:514 | after removeNodeFromParent neither the node nor anything below it is a visible row |
| DirectoryTree.VisibleRows | src/main/java/com/github/filemanager/FileManager.java:474-475 | every visible row is a real node below the invisible root |
| DirectoryTree.VisibleRowsAttached | src/main/java/com/github/filemanager/FileManager.java:474-475 | every visible row is connected to the invisible root through parent links |
| DirectoryTree.FirstMatch | src/main/java/com/github/filemanager/FileManager.java:473-486 | a found row is a visible row holding the file looked for |
| DirectoryTree.FirstMatchIsFirst | src/main/java/com/github/filemanager/FileManager.java:473-486 | nothing is found exactly when no row holds the file (so a null file finds nothing); otherwise the row found is the first that holds it |
| FileManager.ShownTree | src/main/java/com/github/filemanager/FileManager.java:719-737 | a directory node that is a leaf gets exactly its listing's subdirectories as children, in order; a node with children or a plain file is left alone; no other node changes |
| FileManager.ShownTable | src/main/java/com/github/filemanager/FileManager.java:719-728 | a directory node's full listing goes to the table; a plain file leaves the table as it was |
| FileManager.ShownTreeKeepsParentsExpanded | src/main/java/com/github/filemanager/FileManager.java:719-737 | showChildren only gives children to a leaf, so every expanded node keeps its children |
| FileManager.ShowChildrenIdempotent | src/main/java/com/github/filemanager/FileManager.java:721 | showing a node's children a second time adds nothing, so no child is duplicated |
| FileManager.WithSubdirectories | src/main/java/com/github/filemanager/FileManager.java:722-726 | the loop publishes one child per directory in the listing, in order, and skips the rest |
| FileManager.Seed | src/main/java/com/github/filemanager/FileManager.java:266-279 | the loop over the roots builds the seeded tree of the roots and their listings' subdirectories |
| FileManager.GuiTree | src/main/java/com/github/filemanager/FileManager.java:266-279 | getGui's tree is well formed and its top-level nodes are exactly the filesystem roots, in order |
| FileManager.SeedGui | src/main/java/com/github/filemanager/FileManager.java:266-279 | seeding over the filesystem's roots and listings builds getGui's tree |
| FileManager.GuiTreeFilesExist | src/main/java/com/github/filemanager/FileManager.java:266-279 | every node getGui seeds below the invisible root holds a path that exists |
| FileManager.AbsentNotFound | src/main/java/com/github/filemanager/FileManager.java:473-486 | over getGui's tree, a path that does not exist matches no visible row, whatever is expanded |
| FileManager.FileManager.constructor | src/main/java/com/github/filemanager/FileManager.java:252-285 | the manager starts on getGui's tree, no current file and an empty table; expandRow(0) expands the first root when it has children and nothing when it is a leaf (or there is no root) |
| FileManager.FileManager.ShowChildren | src/main/java/com/github/filemanager/FileManager.java:709-748 | the tree and the table become what showChildren makes of them; the filesystem, the current file and the expansion are untouched |
| FileManager.FileManager.FindTreePath | src/main/java/com/github/filemanager/FileManager.java:473-486 | the linear scan returns the first visible row holding the file, and nothing for a file with no visible node |
| FileManager.FileManager.SetFileDetails | src/main/java/com/github/filemanager/FileManager.java:751-752 | the file becomes the current file and nothing else changes |
| FileManager.FileManager.SelectTreeNode | src/main/java/com/github/filemanager/FileManager.java:257-261 | selecting a visible node shows its children, then makes its file the current file |
| FileManager.FileManager.SetExpanded | src/main/java/com/github/filemanager/FileManager.java:280-285 | expanding or collapsing node `n` adds it to or takes it from the expanded set and leaves the tree, the filesystem and the current file as they are; only a node with children may be expanded; the selection the JTree moves on a collapse is not modelled (see Left out) |
| FileManager.FileManager.SelectTableRow | src/main/java/com/github/filemanager/FileManager.java:232-235 | selecting a table row makes its file the current file; a row outside the table changes nothing |
| FileManager.FileManager.RemoveAndRefresh | src/main/java/com/github/filemanager/FileManager.java:504-519 | after a successful call a directory's node is looked up and removed (a missing node is reported and nothing changes), its parent collapsing when that was its last child; then the parent is refreshed; the removed node is no longer visible |
| FileManager.FileManager.RenameFile | src/main/java/com/github/filemanager/FileManager.java:488-529 | no current file or a cancelled dialog changes nothing; a parent with no visible node is reported before the filesystem is touched; otherwise the rename's result decides between a failure with the tree untouched and a success that removes a directory's node (collapsing its parent if that was the last child) and refreshes the parent, which adds no node for the new name unless the parent became a leaf; only that collapse changes the expanded set |
| FileManager.FileManager.ReplaceAndRefresh | src/main/java/com/github/filemanager/FileManager.java:504-519 | the tree edit of renameFile with the missing insertion: the directory's node is removed and a node for the new path becomes the parent's last child, then the parent is refreshed; the parent's child files are those left after the removal plus the new path |
| FileManager.FileManager.RenameFileIntended | src/main/java/com/github/filemanager/FileManager.java:488-529 | as RenameFile, except that after a successful rename of a visible directory the parent node's child files are those left after the removal followed by the new path |
| FileManager.FileManager.DeleteFile | src/main/java/com/github/filemanager/FileManager.java:531-574 | as for rename, with deleteQuietly, including the collapse of a parent that lost its last child; after a success the deleted path no longer exists and a deleted directory's node is no longer visible |
| FileManager.FileManager.InsertAndRefresh | src/main/java/com/github/filemanager/FileManager.java:631-634 | a created directory becomes the parent node's last child, with the parent's earlier children kept in order; then the parent is refreshed |
| FileManager.FileManager.NewFile | src/main/java/com/github/filemanager/FileManager.java:576-644 | the parent is the current file if it is a directory, otherwise its parent; the entry is created before the parent's node is looked up; a created directory is inserted only when the current file also has a visible node |
| FileManager.FileManager.NewFileIntended | src/main/java/com/github/filemanager/FileManager.java:576-644 | as above without the lookup of the current file's node: a created directory always becomes the parent node's last child |
| FileManager.CopyFile | src/main/java/com/github/filemanager/FileManager.java:774-802 | an existing destination gives false and nothing changes; createNewFile's exception propagates; every return is false |
| FileManager.CopyFileIntended | src/main/java/com/github/filemanager/FileManager.java:774-802 | true exactly when the destination was created and filled from a regular file, which then carries the source's size and permissions; nothing else changes |
| FileManager.CopyFileDiscardsSuccess | src/main/java/com/github/filemanager/FileManager.java:798 | whenever the intended copy succeeds, the copy as written does the same work and still returns false |
| FileManager.CopyFileFalseAfterCopy | src/main/java/com/github/filemanager/FileManager.java:798 | a concrete copy of r/a.txt to r/b.txt that succeeds yet returns false |
| FileManager.RenamedDirectoryDropped | src/main/java/com/github/filemanager/FileManager.java:504-519 | as written, when the renamed directory's parent keeps another child the refresh adds nothing, so a path none of its children held before (the new name) is still not among them |
| FileManager.RemovedStaysHidden | src/main/java/com/github/filemanager/FileManager.java:514-519 | refreshing the parent after a removal does not bring the removed node back |
| Scenarios.OneRootRows | src/main/java/com/github/filemanager/FileManager.java:627-629 | with only the root `r` visible, findTreePath finds `r` and does not find the file `r/a.txt` |
| Scenarios.OneFileRootTree | src/main/java/com/github/filemanager/FileManager.java:266-285 | getGui over one directory holding one plain file builds a single leaf node for the directory |
| Scenarios.NewDirectoryFromFileRow | src/main/java/com/github/filemanager/FileManager.java:623-631 | with a table file current, creating a directory succeeds on disk yet is reported as a NullPointerException, and the tree stays as it was |
| Scenarios.NewDirectoryFromFileRowIntended | src/main/java/com/github/filemanager/FileManager.java:623-631 | the same step without the stray lookup adds the new directory under its parent's node |
| Scenarios.TwoDirTree | src/main/java/com/github/filemanager/FileManager.java:266-279 | getGui over a directory `r` holding the directories `r/c` and `r/d` builds `r` with those two children |
| Scenarios.TwoDirRename | src/main/java/com/github/filemanager/FileManager.java:502-503 | renaming `r/d` to `r/e` succeeds and leaves `r/e` a directory |
| Scenarios.RenamedSiblingLost | src/main/java/com/github/filemanager/FileManager.java:504-519 | removing `r/d`'s node and refreshing `r` leaves `r` with `r/c` alone |
| Scenarios.RenamedSiblingKept | src/main/java/com/github/filemanager/FileManager.java:504-519 | with the missing insertion `r` has `r/c` and then `r/e` |
| Scenarios.RenameSubdirectory | src/main/java/com/github/filemanager/FileManager.java:488-529 | start, select `r/d` in the tree and rename it to `e`: the rename succeeds and `r/e` is a directory, yet `r`'s only child is `r/c` |
| Scenarios.RenameSubdirectoryIntended | src/main/java/com/github/filemanager/FileManager.java:488-529 | the same session with the missing insertion: `r`'s children are `r/c` and `r/e` |
| Scenarios.FindAbsentFile | src/test/java/com/github/filemanager/FileManagerTest.java:198-210 | right after getGui, findTreePath of a file that does not exist returns nothing |

## Left out

- Swing construction and layout, the toolbar, the details panel, the cell renderer, row heights and column widths, and `main`: none of them decides anything the model states.
- Dialogs: the typed name, the confirmations and the file-or-directory choice are parameters; messages are `Outcome` values.
- `Desktop` open, edit and print are launcher calls into the operating system.
- Icons and display names: table columns 0 and 1 only record whose icon or name they are.
- Threading: `SwingWorker`, `invokeLater` and the progress bar. `showChildren` is one sequential step, and the tree is not disabled while it runs.
- The JTree's row cache: `node.add` in `process` does not notify the tree model. The model treats the visible rows as always up to date with the nodes.
- The table's row sorter: the selected view index is used as the model index, as the table would be with no sort applied.
- Live `File` queries: a table row is a snapshot of the entry when it was listed, whereas `getValueAt` asks the file each time.
- Hidden-file filtering in `getFiles(dir, true)`: every entry is listed.
- The timestamp and permission bits of newly created entries come from the clock and the umask, so they are fixed constants here.
- `renameTo` onto an existing path depends on the platform; it is treated as a refused call.
- A partly failed `deleteQuietly` is treated as all or nothing.
- Names containing a path separator are single components here, and so are `.` and `..`: `Child` makes a new component of them instead of resolving them.
- The eager creation of the table model, and the first-time cell sizing in `setTableData`.
- The `setFileDetails` display fields other than the current file.
- newFile with a current file that is a plain file with no parent: Java then names the new entry relative to the working directory, which lies outside the modelled namespace. The model reports the creation as `ParentNotVisible` when the system allows it, as the parent lookup then fails; when it refuses, a file's `createNewFile` throws (`CreateThrew`) and a directory's `mkdir` fails (`Failed`). The entry itself is not recorded.
- `FileManager.FileManager.SetExpanded`: the model does not track the JTree selection. In the JTree, collapsing a proper ancestor of the selected node selects the collapsed node, and the selection listener then runs showChildren on it and makes its file the current file; the model leaves both the table and the current file as they were.
- `FileManager.FileManager.SelectTreeNode`: selecting the node that is already selected fires no selection event in the JTree, whereas the model runs showChildren and setFileDetails again.
- `FileManager.CopyFileIntended`: when the transfer fails it reports the exception and does not record the empty destination left on disk.

## Findings

| source | as written | input that shows it | evidently intended | confidence | as-written member | corrected member |
|---|---|---|---|---|---|---|
| src/main/java/com/github/filemanager/FileManager.java:798 | `return false` inside `finally` overrides the normal result and any exception from the copy | copying an existing regular file r/a.txt to a new r/b.txt: the bytes and permissions are copied, yet the result is false | true after a successful copy, an exception when the transfer fails | not executed | FileManager.CopyFileFalseAfterCopy | FileManager.CopyFileIntended |
| src/main/java/com/github/filemanager/FileManager.java:516 | a renamed directory's node is removed and `// add a new node..` has no code; the refresh of the parent fills only a leaf, so a renamed directory whose parent keeps another child disappears from the tree | a filesystem with directory r holding directories r/c and r/d: select r/d in the tree, rename it to "e": r/e exists, yet r's only child node is r/c | r/e appears as r's child, so that expanding the parent shows the new name | not executed | Scenarios.RenameSubdirectory | FileManager.FileManager.RenameFileIntended |
| src/main/java/com/github/filemanager/FileManager.java:627-629 | for a new directory, newFile looks up the current file's node and dereferences it, although the node is never used | a filesystem with directory r holding file r/a.txt: select r in the tree, then r/a.txt in the table, then create directory "sub" | r/sub appears as r's last child in the tree | not executed | Scenarios.NewDirectoryFromFileRow | FileManager.FileManager.NewFileIntended |
