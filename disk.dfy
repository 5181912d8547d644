/**
 * The host filesystem as the file manager reaches it through java.io.File and
 * FileSystemView: a flat collection of entries in enumeration order, the
 * parent/child relation between paths, a one-level directory listing, and the
 * four mutating calls the file manager makes. Whether the operating system
 * permits a call is not modelled; it arrives as the boolean `permitted`.
 */
module Disk {
  import opened Wrappers

  /** A path as its name components; [r] is a filesystem root and [] names nothing. */
  type Path = seq<string>

  /** What java.io.File reports about one path. */
  datatype Entry = Entry(
    path: Path,
    length: int,
    lastModified: int,
    canRead: bool,
    canWrite: bool,
    canExecute: bool,
    isDirectory: bool,
    isFile: bool)

  /** Every entry on the host, in the order a directory enumeration returns them. */
  datatype FileSystem = FileSystem(entries: seq<Entry>)

  /** The result of one filesystem call: the boolean the call returned and the filesystem after it, or an IOException. */
  datatype Call = Returned(value: bool, after: FileSystem) | Threw

  predicate IsPrefix(a: Path, b: Path) {
    |a| <= |b| && b[..|a|] == a
  }

  /** File.getParentFile: null for a root. */
  function Parent(p: Path): (r: Option<Path>)
    ensures r.Some? <==> |p| > 1
    ensures r.Some? ==> |r.value| + 1 == |p| && IsPrefix(r.value, p)
  {
    if |p| > 1 then Some(p[..|p| - 1]) else None
  }

  /** new File(dir, name): an empty name denotes dir itself. */
  function Child(dir: Path, name: string): (r: Path)
    ensures name == "" ==> r == dir
    ensures name != "" && |dir| > 0 ==> Parent(r) == Some(dir) && r[|dir|] == name
  {
    if name == "" then dir else dir + [name]
  }

  /** The first entry in `es` whose path is `p`. */
  function FirstWithPath(es: seq<Entry>, p: Path): (r: Option<Entry>)
    ensures r.None? <==> forall e :: e in es ==> e.path != p
    ensures r.Some? ==> exists i :: 0 <= i < |es| && es[i] == r.value && r.value.path == p &&
                                    forall j :: 0 <= j < i ==> es[j].path != p
  {
    if es == [] then None
    else if es[0].path == p then Some(es[0])
    else
      var r := FirstWithPath(es[1..], p);
      assert forall e :: e in es ==> e == es[0] || e in es[1..];
      if r.Some? then
        var i :| 0 <= i < |es[1..]| && es[1..][i] == r.value && r.value.path == p &&
                 forall j :: 0 <= j < i ==> es[1..][j].path != p;
        assert es[i + 1] == r.value && forall j :: 0 <= j < i + 1 ==> es[j].path != p;
        r
      else r
  }

  /** What new File(p) reports, as of this filesystem. */
  function Lookup(fs: FileSystem, p: Path): (r: Option<Entry>)
    ensures r.Some? ==> r.value in fs.entries && r.value.path == p
    ensures r.None? <==> forall e :: e in fs.entries ==> e.path != p
  {
    FirstWithPath(fs.entries, p)
  }

  /** File.exists */
  predicate Exists(fs: FileSystem, p: Path) {
    Lookup(fs, p).Some?
  }

  /** File.isDirectory: false for a path that does not exist. */
  predicate IsDirectory(fs: FileSystem, p: Path) {
    Lookup(fs, p).Some? && Lookup(fs, p).value.isDirectory
  }

  /** File.isFile: false for a path that does not exist. */
  predicate IsRegularFile(fs: FileSystem, p: Path) {
    Lookup(fs, p).Some? && Lookup(fs, p).value.isFile
  }

  /** The entries of `es` directly inside `dir`, in their order. */
  function EntriesIn(es: seq<Entry>, dir: Path): (r: seq<Entry>)
    ensures |r| <= |es|
    ensures forall e :: e in r <==> e in es && Parent(e.path) == Some(dir)
  {
    if es == [] then []
    else
      var init, last := es[..|es| - 1], es[|es| - 1];
      assert es == init + [last];
      EntriesIn(init, dir) + if Parent(last.path) == Some(dir) then [last] else []
  }

  /** FileSystemView.getFiles(dir, true): one level of `dir`, in enumeration order. */
  function Listing(fs: FileSystem, dir: Path): (r: seq<Entry>)
    ensures forall e :: e in r <==> e in fs.entries && Parent(e.path) == Some(dir)
  {
    EntriesIn(fs.entries, dir)
  }

  /** The paths of the directories among `es`, in their order. */
  function SubdirectoryPaths(es: seq<Entry>): (r: seq<Path>)
    ensures |r| <= |es|
  {
    if es == [] then []
    else
      var init, last := es[..|es| - 1], es[|es| - 1];
      assert es == init + [last];
      SubdirectoryPaths(init) + if last.isDirectory then [last.path] else []
  }

  /** A path is listed as a subdirectory exactly when some directory entry of `es` has it. */
  lemma {:induction false} SubdirectoryPathsMembers(es: seq<Entry>, p: Path)
    ensures p in SubdirectoryPaths(es) <==> exists e :: e in es && e.isDirectory && e.path == p
  {
    if es != [] {
      var init, last := es[..|es| - 1], es[|es| - 1];
      assert es == init + [last];
      SubdirectoryPathsMembers(init, p);
    }
  }

  lemma SubdirectoryPathsSnoc(es: seq<Entry>, i: nat)
    requires i < |es|
    ensures SubdirectoryPaths(es[..i + 1]) ==
              SubdirectoryPaths(es[..i]) + if es[i].isDirectory then [es[i].path] else []
  {
    assert es[..i + 1][..i] == es[..i];
  }

  /** The paths of the root entries among `es`, in their order. */
  function RootPaths(es: seq<Entry>): (r: seq<Path>)
    ensures |r| <= |es|
  {
    if es == [] then []
    else
      var init, last := es[..|es| - 1], es[|es| - 1];
      assert es == init + [last];
      RootPaths(init) + if |last.path| == 1 then [last.path] else []
  }

  /** A path is a root path exactly when some entry of `es` has it and it has one component. */
  lemma {:induction false} RootPathsMembers(es: seq<Entry>, p: Path)
    ensures p in RootPaths(es) <==> exists e :: e in es && |e.path| == 1 && e.path == p
  {
    if es != [] {
      var init, last := es[..|es| - 1], es[|es| - 1];
      assert es == init + [last];
      RootPathsMembers(init, p);
    }
  }

  /** FileSystemView.getRoots */
  function Roots(fs: FileSystem): (r: seq<Path>)
    ensures |r| <= |fs.entries|
  {
    RootPaths(fs.entries)
  }

  /** Every root is a one-component path that exists. */
  lemma RootsExist(fs: FileSystem, p: Path)
    requires p in Roots(fs)
    ensures |p| == 1 && Exists(fs, p)
  {
    RootPathsMembers(fs.entries, p);
  }

  /**
   * What a freshly created entry reports. Its timestamp and permission bits
   * come from the clock and the umask, neither of which is modelled.
   */
  function NewEntry(p: Path, directory: bool): Entry {
    Entry(p, 0, 0, true, true, directory, directory, !directory)
  }

  lemma {:induction false} FirstWithPathAppend(es: seq<Entry>, e: Entry, p: Path)
    ensures FirstWithPath(es + [e], p) ==
              if FirstWithPath(es, p).Some? then FirstWithPath(es, p)
              else if e.path == p then Some(e) else None
  {
    if es != [] {
      assert (es + [e])[1..] == es[1..] + [e];
      if es[0].path != p {
        FirstWithPathAppend(es[1..], e, p);
      }
    }
  }

  /** Creating an entry that did not exist makes it visible at its path and leaves every other path as it was. */
  lemma CreatedLookup(fs: FileSystem, e: Entry, q: Path)
    requires !Exists(fs, e.path)
    ensures Lookup(FileSystem(fs.entries + [e]), q) == if q == e.path then Some(e) else Lookup(fs, q)
  {
    FirstWithPathAppend(fs.entries, e, q);
  }

  /** A created entry is listed last in its parent directory, after everything listed there before. */
  lemma CreatedListing(fs: FileSystem, e: Entry, dir: Path)
    ensures Listing(FileSystem(fs.entries + [e]), dir) ==
              Listing(fs, dir) + if Parent(e.path) == Some(dir) then [e] else []
  {
    assert (fs.entries + [e])[..|fs.entries|] == fs.entries;
  }

  /**
   * File.createNewFile: false exactly when the path exists; every other
   * failure (no parent directory, a refusal by the system) is an IOException.
   */
  function CreateNewFile(fs: FileSystem, p: Path, permitted: bool): (r: Call)
    ensures Exists(fs, p) <==> r == Returned(false, fs)
    ensures r.Threw? <==> !Exists(fs, p) && !(Parent(p).Some? && IsDirectory(fs, Parent(p).value) && permitted)
    ensures r.Returned? && r.value <==>
              !Exists(fs, p) && Parent(p).Some? && IsDirectory(fs, Parent(p).value) && permitted
    ensures r.Returned? && r.value ==>
              r.after == FileSystem(fs.entries + [NewEntry(p, false)]) &&
              Lookup(r.after, p) == Some(NewEntry(p, false)) && IsRegularFile(r.after, p) && !IsDirectory(r.after, p)
    ensures r.Returned? && !r.value ==> r.after == fs
  {
    if Exists(fs, p) then Returned(false, fs)
    else if Parent(p).None? || !IsDirectory(fs, Parent(p).value) || !permitted then Threw
    else
      CreatedLookup(fs, NewEntry(p, false), p);
      Returned(true, FileSystem(fs.entries + [NewEntry(p, false)]))
  }

  /** File.mkdir: false if the path exists or its parent is not a directory. */
  function Mkdir(fs: FileSystem, p: Path, permitted: bool): (r: Call)
    ensures r.Returned?
    ensures r.value <==> !Exists(fs, p) && Parent(p).Some? && IsDirectory(fs, Parent(p).value) && permitted
    ensures r.value ==>
              r.after == FileSystem(fs.entries + [NewEntry(p, true)]) &&
              Lookup(r.after, p) == Some(NewEntry(p, true)) && IsDirectory(r.after, p)
    ensures !r.value ==> r.after == fs
  {
    if !Exists(fs, p) && Parent(p).Some? && IsDirectory(fs, Parent(p).value) && permitted then
      CreatedLookup(fs, NewEntry(p, true), p);
      Returned(true, FileSystem(fs.entries + [NewEntry(p, true)]))
    else Returned(false, fs)
  }

  /** A successful createNewFile or mkdir changes what no other path reports. */
  lemma CreateKeepsOthers(fs: FileSystem, p: Path, directory: bool, permitted: bool, q: Path)
    requires q != p
    ensures var r := if directory then Mkdir(fs, p, permitted) else CreateNewFile(fs, p, permitted);
            r.Returned? && r.value ==> Lookup(r.after, q) == Lookup(fs, q)
  {
    if !Exists(fs, p) {
      CreatedLookup(fs, NewEntry(p, directory), q);
    }
  }

  /** The entries of `es` outside `p`, in their order. */
  function EntriesOutside(es: seq<Entry>, p: Path): (r: seq<Entry>)
    ensures forall e :: e in r <==> e in es && !IsPrefix(p, e.path)
  {
    if es == [] then []
    else
      var init, last := es[..|es| - 1], es[|es| - 1];
      assert es == init + [last];
      EntriesOutside(init, p) + if IsPrefix(p, last.path) then [] else [last]
  }

  /** FileUtils.deleteQuietly: removes `p` and everything below it; false if `p` does not exist or the removal is refused. */
  function DeleteQuietly(fs: FileSystem, p: Path, permitted: bool): (r: Call)
    ensures r.Returned?
    ensures r.value <==> Exists(fs, p) && permitted
    ensures r.value ==> !Exists(r.after, p) &&
                        forall e :: e in r.after.entries <==> e in fs.entries && !IsPrefix(p, e.path)
    ensures !r.value ==> r.after == fs
  {
    if Exists(fs, p) && permitted then
      var after := FileSystem(EntriesOutside(fs.entries, p));
      assert IsPrefix(p, p);
      Returned(true, after)
    else Returned(false, fs)
  }

  /** The entry `e` after its ancestor-or-self `from` has been renamed to `to`. */
  function Moved(e: Entry, from: Path, to: Path): Entry {
    if IsPrefix(from, e.path) then e.(path := to + e.path[|from|..]) else e
  }

  /** The entries of `es` after `from` has been renamed to `to`. */
  function MovedAll(es: seq<Entry>, from: Path, to: Path): (r: seq<Entry>)
    ensures |r| == |es|
    ensures forall i :: 0 <= i < |es| ==> r[i] == Moved(es[i], from, to)
  {
    seq(|es|, i requires 0 <= i < |es| => Moved(es[i], from, to))
  }

  /**
   * File.renameTo: moves `from`, with everything below it, to `to`. A rename
   * onto a path that already exists is modelled as refused.
   */
  function RenameTo(fs: FileSystem, from: Path, to: Path, permitted: bool): (r: Call)
    ensures r.Returned?
    ensures r.value <==> Exists(fs, from) && !Exists(fs, to) && permitted
    ensures r.value ==>
              |r.after.entries| == |fs.entries| &&
              forall i :: 0 <= i < |fs.entries| ==>
                var e := fs.entries[i];
                if IsPrefix(from, e.path) then r.after.entries[i] == e.(path := to + e.path[|from|..])
                else r.after.entries[i] == e
    ensures !r.value ==> r.after == fs
  {
    if Exists(fs, from) && !Exists(fs, to) && permitted then
      Returned(true, FileSystem(MovedAll(fs.entries, from, to)))
    else Returned(false, fs)
  }

  /**
   * Renaming one entry to a sibling name: afterwards the new path exists, the
   * old path does not, and the parent directory is untouched.
   */
  lemma RenameToSibling(fs: FileSystem, from: Path, name: string, permitted: bool)
    requires Parent(from).Some? && name != ""
    requires RenameTo(fs, from, Child(Parent(from).value, name), permitted).value
    ensures var after := RenameTo(fs, from, Child(Parent(from).value, name), permitted).after;
            Exists(after, Child(Parent(from).value, name)) && !Exists(after, from) &&
            Lookup(after, Parent(from).value) == Lookup(fs, Parent(from).value)
  {
    var dir := Parent(from).value;
    var to := Child(dir, name);
    var after := RenameTo(fs, from, to, permitted).after;
    assert |to| == |from|;
    var old_ := Lookup(fs, from).value;
    var i :| 0 <= i < |fs.entries| && fs.entries[i] == old_;
    assert after.entries[i].path == to + old_.path[|from|..];
    assert old_.path[|from|..] == [];
    assert after.entries[i].path == to;
    forall e | e in after.entries ensures e.path != from {
      var k :| 0 <= k < |after.entries| && after.entries[k] == e;
      var src := fs.entries[k];
      if IsPrefix(from, src.path) {
        assert e.path[..|to|] == to;
        assert to != from;
      } else {
        assert e.path == src.path;
      }
    }
    forall e | e in after.entries ensures e.path == dir <==> e in fs.entries && e.path == dir {
      var k :| 0 <= k < |after.entries| && after.entries[k] == e;
      if IsPrefix(from, fs.entries[k].path) {
        assert |e.path| >= |to| > |dir|;
      }
    }
    AfterKeepsFirst(fs.entries, after.entries, from, to, dir);
  }

  /** Moving entries below `from` does not change which entry comes first at a path shorter than `from`. */
  lemma {:induction false} AfterKeepsFirst(es: seq<Entry>, moved: seq<Entry>, from: Path, to: Path, q: Path)
    requires |q| < |from| == |to| && |moved| == |es|
    requires forall i :: 0 <= i < |es| ==> moved[i] == Moved(es[i], from, to)
    ensures FirstWithPath(moved, q) == FirstWithPath(es, q)
  {
    if es != [] {
      assert moved[0].path == q <==> es[0].path == q by {
        if IsPrefix(from, es[0].path) { assert |moved[0].path| >= |to|; }
      }
      AfterKeepsFirst(es[1..], moved[1..], from, to, q);
    }
  }
}
