/**
 Writing a parsed bundle into a temporary directory (`materialize_parsed` of `api/bundle.py`): the files are
 written in order, the directory is handed to the caller, and it is gone afterwards on every exit.
 */
module BundleDisk {
  import opened Wrappers
  import opened SafePath
  import opened BundleIngest

  datatype Node = Dir | File(data: Bytes)

  /** What is below a directory, by path; the directory itself is the empty path. */
  type DiskTree = map<Path, Node>

  const EMPTY_DIR: DiskTree := map[[] := Dir]

  predicate IsProperPrefix(a: Path, b: Path) { |a| < |b| && b[..|a|] == a }

  /** `mkdir(parents=True, exist_ok=True)`: fails on a file in the way. */
  function MakeDirs(tree: DiskTree, path: Path): Option<DiskTree> {
    if path == [] then Some(tree)
    else
      match MakeDirs(tree, path[..|path| - 1])
      case None => None
      case Some(made) =>
        if path in made && made[path].File? then None else Some(made[path := Dir])
  }

  /** Make the parent, then write the file; writing over a directory fails. */
  function WriteEntry(tree: DiskTree, entry: Entry): Option<DiskTree>
    requires entry.path != []
  {
    match MakeDirs(tree, entry.path[..|entry.path| - 1])
    case None => None
    case Some(made) =>
      if entry.path in made && made[entry.path].Dir? then None else Some(made[entry.path := File(entry.data)])
  }

  predicate HavePaths(entries: seq<Entry>) {
    forall i :: 0 <= i < |entries| ==> entries[i].path != []
  }

  function WriteAll(entries: seq<Entry>): Option<DiskTree>
    requires HavePaths(entries)
  {
    if entries == [] then Some(EMPTY_DIR)
    else
      match WriteAll(entries[..|entries| - 1])
      case None => None
      case Some(tree) => WriteEntry(tree, entries[|entries| - 1])
  }

  // What is on disk, said without the writes.

  /** The data of the last entry at this path. */
  function LastWritten(entries: seq<Entry>, path: Path): Option<Bytes> {
    if entries == [] then None
    else if entries[|entries| - 1].path == path then Some(entries[|entries| - 1].data)
    else LastWritten(entries[..|entries| - 1], path)
  }

  ghost predicate IsAncestor(entries: seq<Entry>, path: Path) {
    exists i :: 0 <= i < |entries| && IsProperPrefix(path, entries[i].path)
  }

  /** No entry's path leads through another entry's file. */
  ghost predicate NoClash(entries: seq<Entry>) {
    forall i, j :: 0 <= i < |entries| && 0 <= j < |entries| ==> !IsProperPrefix(entries[i].path, entries[j].path)
  }

  /** Exactly the entries' files and the directories leading to them. */
  ghost predicate HoldsBundle(entries: seq<Entry>, tree: DiskTree) {
    forall path ::
      && (path in tree && tree[path].File? <==> LastWritten(entries, path).Some?)
      && (path in tree && tree[path].File? ==> LastWritten(entries, path) == Some(tree[path].data))
      && (path in tree && tree[path].Dir? <==> path == [] || IsAncestor(entries, path))
  }

  lemma {:induction false} MakeDirsIs(tree: DiskTree, path: Path)
    ensures MakeDirs(tree, path).Some?
            <==> forall p :: p in tree && tree[p].File? ==> !(p == path || IsProperPrefix(p, path)) || p == []
    ensures MakeDirs(tree, path).Some? ==>
              var made := MakeDirs(tree, path).value;
              forall p :: if p != [] && (p == path || IsProperPrefix(p, path)) then p in made && made[p] == Dir
                          else (p in made <==> p in tree) && (p in tree ==> made[p] == tree[p])
  {
    if path != [] {
      var parent := path[..|path| - 1];
      MakeDirsIs(tree, parent);
      forall p ensures IsProperPrefix(p, path) <==> p == parent || IsProperPrefix(p, parent) {
        if |p| <= |parent| {
          assert path[..|p|] == parent[..|p|];
        }
      }
    }
  }

  lemma {:induction false} WrittenIsNamed(entries: seq<Entry>, path: Path)
    ensures LastWritten(entries, path).Some? <==> exists i :: 0 <= i < |entries| && entries[i].path == path
  {
    if entries != [] {
      WrittenIsNamed(entries[..|entries| - 1], path);
      assert entries[..|entries| - 1] + [entries[|entries| - 1]] == entries;
    }
  }

  /** One write, path by path: the file, the directories leading to it, and nothing else. */
  lemma WriteEntryIs(tree: DiskTree, entry: Entry)
    requires entry.path != [] && [] in tree && tree[[]].Dir?
    ensures WriteEntry(tree, entry).Some? <==>
            && (forall p :: p in tree && tree[p].File? ==> !IsProperPrefix(p, entry.path))
            && !(entry.path in tree && tree[entry.path].Dir?)
    ensures WriteEntry(tree, entry).Some? ==>
              var after := WriteEntry(tree, entry).value;
              forall p ::
                if p == entry.path then p in after && after[p] == File(entry.data)
                else if p != [] && IsProperPrefix(p, entry.path) then p in after && after[p] == Dir
                else (p in after <==> p in tree) && (p in tree ==> after[p] == tree[p])
  {
    var parent := entry.path[..|entry.path| - 1];
    MakeDirsIs(tree, parent);
    forall p ensures IsProperPrefix(p, entry.path) <==> p == parent || IsProperPrefix(p, parent) {
      if |p| <= |parent| {
        assert entry.path[..|p|] == parent[..|p|];
      }
    }
  }

  lemma AncestorOfMore(entries: seq<Entry>, entry: Entry, path: Path)
    ensures IsAncestor(entries + [entry], path) <==> IsAncestor(entries, path) || IsProperPrefix(path, entry.path)
  {
    var more := entries + [entry];
    if IsAncestor(entries, path) {
      var i :| 0 <= i < |entries| && IsProperPrefix(path, entries[i].path);
      assert more[i] == entries[i];
    }
    assert more[|entries|] == entry;
  }

  lemma ClashOfMore(entries: seq<Entry>, entry: Entry)
    ensures NoClash(entries + [entry]) <==>
            && NoClash(entries) && !IsAncestor(entries, entry.path)
            && forall i :: 0 <= i < |entries| ==> !IsProperPrefix(entries[i].path, entry.path)
  {
    var more := entries + [entry];
    assert more[|entries|] == entry && forall i :: 0 <= i < |entries| ==> more[i] == entries[i];
  }

  /** One more write keeps the disk at exactly the entries written, and succeeds exactly when it meets no clash. */
  lemma WriteHoldsMore(entries: seq<Entry>, entry: Entry, tree: DiskTree)
    requires HavePaths(entries) && entry.path != [] && HoldsBundle(entries, tree)
    ensures WriteEntry(tree, entry).Some? <==>
            !IsAncestor(entries, entry.path) && forall i :: 0 <= i < |entries| ==>
              !IsProperPrefix(entries[i].path, entry.path)
    ensures WriteEntry(tree, entry).Some? ==> HoldsBundle(entries + [entry], WriteEntry(tree, entry).value)
  {
    WriteEntryIs(tree, entry);
    forall path ensures LastWritten(entries, path).Some?
      <==> exists i :: 0 <= i < |entries| && entries[i].path == path {
      WrittenIsNamed(entries, path);
    }
    if WriteEntry(tree, entry).Some? {
      var after := WriteEntry(tree, entry).value;
      assert (entries + [entry])[..|entries|] == entries;
      forall path
        ensures path in after && after[path].File? <==> LastWritten(entries + [entry], path).Some?
        ensures path in after && after[path].File? ==> LastWritten(entries + [entry], path) == Some(after[path].data)
        ensures path in after && after[path].Dir? <==> path == [] || IsAncestor(entries + [entry], path)
      {
        AncestorOfMore(entries, entry, path);
      }
    }
  }

  /**
   Writing a bundle succeeds exactly when no path is a proper prefix of another, and then the directory
   holds, at each path, the last entry written there, and otherwise only the directories leading to them.
   */
  lemma {:induction false} WritingIsExact(entries: seq<Entry>)
    requires HavePaths(entries)
    ensures WriteAll(entries).Some? <==> NoClash(entries)
    ensures WriteAll(entries).Some? ==> HoldsBundle(entries, WriteAll(entries).value)
  {
    if entries != [] {
      var n := |entries| - 1;
      WritingIsExact(entries[..n]);
      assert entries[..n] + [entries[n]] == entries;
      ClashOfMore(entries[..n], entries[n]);
      if WriteAll(entries[..n]).Some? {
        WriteHoldsMore(entries[..n], entries[n], WriteAll(entries[..n]).value);
      }
    }
  }

  lemma OneEntryMore(entries: seq<Entry>, i: nat)
    requires HavePaths(entries) && i < |entries|
    ensures WriteAll(entries[..i + 1]) ==
            match WriteAll(entries[..i]) case None => None case Some(tree) => WriteEntry(tree, entries[i])
    ensures forall relpaths :: Printed(entries[..i], relpaths) ==>
            Printed(entries[..i + 1], relpaths + [Print(entries[i].path)])
  {
    assert entries[..i + 1][..i] == entries[..i];
  }

  lemma OthersUntouched(dirs: map<DirName, DiskTree>, name: DirName, tree: DiskTree)
    ensures dirs[name := tree] - {name} == dirs - {name}
  {
  }

  /** The resolved target is the resolved root or lies under it. */
  predicate StaysBelow(root: seq<string>, path: Path) { Resolve(root) <= Resolve(root + path) }

  lemma EntryStaysBelow(root: seq<string>, path: Path)
    ensures Descends(path) ==> StaysBelow(root, path)
  {
    if Descends(path) {
      SafePathStaysBelow(root, path);
    }
  }

  /** The entries' paths, printed, in order. */
  ghost predicate Printed(entries: seq<Entry>, relpaths: seq<string>) {
    |relpaths| == |entries| && forall i :: 0 <= i < |entries| ==> relpaths[i] == Print(entries[i].path)
  }

  type DirName = string

  datatype Materialized = Materialized(tree: DiskTree, relpaths: seq<string>)

  /** What the consumer leaves of the directory it is handed, if anything, and whether it fails. */
  datatype Use = Use(left: Option<DiskTree>, fails: bool)

  datatype Exit = Finished | WriteFailed | OutsideRoot | ConsumerFailed

  /** The temporary directories of the machine. */
  class TempDisk {
    var dirs: map<DirName, DiskTree>
    // how many temporary directories were ever made
    var made: nat

    constructor (dirs: map<DirName, DiskTree>)
      ensures this.dirs == dirs && made == 0
    {
      this.dirs, made := dirs, 0;
    }

    /** The writes: a finished loop leaves exactly the bundle in the directory, and no other directory changes. */
    method WriteEntries(entries: seq<Entry>, name: DirName, root: seq<string>)
      returns (relpaths: seq<string>, exit: Exit)
      requires HavePaths(entries) && name in dirs && dirs[name] == EMPTY_DIR
      modifies this`dirs
      ensures name in dirs && dirs - {name} == old(dirs) - {name}
      ensures exit.Finished? || exit.WriteFailed? || exit.OutsideRoot?
      ensures exit.Finished? ==> WriteAll(entries) == Some(dirs[name]) && Printed(entries, relpaths)
      ensures exit.WriteFailed? ==> WriteAll(entries).None?
      ensures exit.OutsideRoot? ==> exists k :: 0 <= k < |entries| && !Descends(entries[k].path)
    {
      relpaths := [];
      for i := 0 to |entries|
        invariant name in dirs && dirs - {name} == old(dirs) - {name}
        invariant WriteAll(entries[..i]) == Some(dirs[name]) && Printed(entries[..i], relpaths)
      {
        OneEntryMore(entries, i);
        EntryStaysBelow(root, entries[i].path);
        if !StaysBelow(root, entries[i].path) {
          return relpaths, OutsideRoot;
        }
        var written := WriteEntry(dirs[name], entries[i]);
        if written.None? {
          FailureIsFinal(entries, i + 1);
          return relpaths, WriteFailed;
        }
        OthersUntouched(dirs, name, written.value);
        dirs := dirs[name := written.value];
        relpaths := relpaths + [Print(entries[i].path)];
      }
      assert entries[..|entries|] == entries;
      exit := Finished;
    }

    /**
     The context manager around its consumer: what the consumer is handed is exactly the bundle, and on every
     exit, whatever the consumer did to the directory and its failures included, the disk is what it was.
     Entries of a parsed bundle never resolve outside the root.
     */
    method WithMaterialized(entries: seq<Entry>, name: DirName, root: seq<string>, consumer: Materialized -> Use)
      returns (handed: Option<Materialized>, exit: Exit)
      requires HavePaths(entries) && name !in dirs
      modifies this
      ensures dirs == old(dirs) && made == old(made) + 1
      ensures handed.Some? ==> WriteAll(entries) == Some(handed.value.tree) && Printed(entries, handed.value.relpaths)
      ensures (forall i :: 0 <= i < |entries| ==> Descends(entries[i].path)) ==>
                && (handed.Some? <==> WriteAll(entries).Some?)
                && exit == (if handed.None? then WriteFailed else if consumer(handed.value).fails then ConsumerFailed
                  else Finished)
    {
      dirs, made := dirs[name := EMPTY_DIR], made + 1;
      handed := None;
      var relpaths;
      relpaths, exit := WriteEntries(entries, name, root);
      if exit.Finished? {
        handed := Some(Materialized(dirs[name], relpaths));
        var use := consumer(handed.value);
        if use.left.Some? {
          OthersUntouched(dirs, name, use.left.value);
          dirs := dirs[name := use.left.value];
        } else {
          dirs := dirs - {name};
        }
        if use.fails {
          exit := ConsumerFailed;
        }
      }
      dirs := dirs - {name};
    }
  }

  lemma {:induction false} FailureIsFinal(entries: seq<Entry>, k: nat)
    requires HavePaths(entries) && k <= |entries| && WriteAll(entries[..k]).None?
    ensures WriteAll(entries).None?
    decreases |entries| - k
  {
    if k < |entries| {
      assert entries[..k + 1][..k] == entries[..k];
      FailureIsFinal(entries, k + 1);
    } else {
      assert entries[..k] == entries;
    }
  }
}
