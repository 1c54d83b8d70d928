/** Which files of a fetched package are taken (`_package_files` of `api/method_source.py`). */
module MethodPackage {
  import opened Wrappers
  import opened SafePath
  import opened BundleIngest
  import opened FileTree

  /** One line of the package directory's sorted recursive listing. */
  datatype Listed = Listed(path: Path, isFile: bool, data: Bytes)

  predicate IsSkipped(path: Path) { ".git" in path || "__pycache__" in path }

  /** The listing of the package directory at `dir` in a tree: what lies below it, by relative path. */
  function PackageListing(tree: Tree, dir: Path): seq<Listed> {
    if tree == [] then []
    else
      var last := tree[|tree| - 1];
      PackageListing(tree[..|tree| - 1], dir) + if |dir| < |last.path| && dir <= last.path then [Line(last, dir)]
        else []
  }

  /** A link to a regular file is a file here. */
  function Line(node: FsNode, dir: Path): Listed
    requires |dir| < |node.path|
  {
    match node
    case File(path, data) => Listed(path[|dir|..], true, data)
    case Symlink(path, Some(data)) => Listed(path[|dir|..], true, data)
    case _ => Listed(node.path[|dir|..], false, [])
  }

  /** What a listing says of a node: its content, if it is a regular file or a link to one. */
  ghost predicate Shows(line: Listed, node: FsNode) {
    match node
    case File(_, data) => line.isFile && line.data == data
    case Symlink(_, Some(data)) => line.isFile && line.data == data
    case _ => !line.isFile && line.data == []
  }

  /** The listing has a line for exactly the nodes below the directory, under their paths from it. */
  lemma {:induction false} ListingIsBelowTheDirectory(tree: Tree, dir: Path)
    ensures forall line :: line in PackageListing(tree, dir) <==>
              line.path != [] && exists node :: node in tree && node.path == dir + line.path && Shows(line, node)
  {
    if tree != [] {
      var n := |tree| - 1;
      ListingIsBelowTheDirectory(tree[..n], dir);
      assert forall node :: node in tree <==> node in tree[..n] || node == tree[n];
      LineIsShown(tree[n], dir);
    }
  }

  lemma LineIsShown(node: FsNode, dir: Path)
    ensures forall line: Listed :: line.path != [] && node.path == dir + line.path && Shows(line, node) <==>
              |dir| < |node.path| && dir <= node.path && line == Line(node, dir)
  {
    if |dir| < |node.path| && dir <= node.path {
      assert node.path == dir + node.path[|dir|..];
      assert forall line: Listed :: node.path == dir + line.path ==> line.path == node.path[|dir|..];
    }
  }

  /** It keeps the order of the tree. */
  lemma {:induction false} ListingOfConcat(a: Tree, b: Tree, dir: Path)
    ensures PackageListing(a + b, dir) == PackageListing(a, dir) + PackageListing(b, dir)
  {
    if b == [] {
      assert a + b == a;
    } else {
      assert (a + b)[..|a + b| - 1] == a + b[..|b| - 1];
      ListingOfConcat(a, b[..|b| - 1], dir);
    }
  }

  /** The package's files, in listing order, without version-control and tooling residue. */
  function PackageFiles(listing: seq<Listed>): seq<Entry> {
    if listing == [] then []
    else
      var last := listing[|listing| - 1];
      PackageFiles(listing[..|listing| - 1]) + if last.isFile && !IsSkipped(last.path)
        then [Entry(last.path, last.data)] else []
  }

  method ListPackageFiles(listing: seq<Listed>) returns (files: seq<Entry>)
    ensures files == PackageFiles(listing)
  {
    files := [];
    for i := 0 to |listing|
      invariant files == PackageFiles(listing[..i])
    {
      assert listing[..i + 1][..i] == listing[..i];
      if IsSkipped(listing[i].path) {
        continue;
      }
      if listing[i].isFile {
        files := files + [Entry(listing[i].path, listing[i].data)];
      }
    }
    assert listing[..|listing|] == listing;
  }

  /** The files keep the listing's order. */
  lemma {:induction false} FilesOfConcat(a: seq<Listed>, b: seq<Listed>)
    ensures PackageFiles(a + b) == PackageFiles(a) + PackageFiles(b)
  {
    if b == [] {
      assert a + b == a;
    } else {
      assert (a + b)[..|a + b| - 1] == a + b[..|b| - 1];
      FilesOfConcat(a, b[..|b| - 1]);
    }
  }

  /** They are exactly the listed files without a component of version control or tooling. */
  lemma {:induction false} PackageFilesAreListed(listing: seq<Listed>)
    ensures forall entry :: entry in PackageFiles(listing) <==>
              && ".git" !in entry.path && "__pycache__" !in entry.path
              && Listed(entry.path, true, entry.data) in listing
  {
    if listing != [] {
      var n := |listing| - 1;
      PackageFilesAreListed(listing[..n]);
      assert forall line :: line in listing <==> line in listing[..n] || line == listing[n];
    }
  }

  /** This content stands at this path of the tree: a regular file's, or that of the file a link leads to. */
  predicate HoldsFile(tree: Tree, path: Path, data: Bytes) {
    File(path, data) in tree || Symlink(path, Some(data)) in tree
  }

  /** The files of the package at `dir`, said by the tree's own paths. */
  lemma PackageFilesAreTheTrees(tree: Tree, dir: Path)
    ensures forall entry :: entry in PackageFiles(PackageListing(tree, dir)) <==>
              && entry.path != [] && ".git" !in entry.path && "__pycache__" !in entry.path
              && HoldsFile(tree, dir + entry.path, entry.data)
  {
    PackageFilesAreListed(PackageListing(tree, dir));
    ListingIsBelowTheDirectory(tree, dir);
    forall path, data
      ensures HoldsFile(tree, path, data) <==>
              exists node :: node in tree && node.path == path && Shows(Listed(path, true, data), node)
    {
      if node :| node in tree && node.path == path && Shows(Listed(path, true, data), node) {
        assert node == File(path, data) || node == Symlink(path, Some(data));
      }
    }
    forall entry: Entry
      ensures entry.path != [] && HoldsFile(tree, dir + entry.path, entry.data) <==>
              Listed(entry.path, true, entry.data) in PackageListing(tree, dir)
    {
      assert forall node :: Shows(Listed(dir + entry.path, true, entry.data), node) <==>
                            Shows(Listed(entry.path, true, entry.data), node);
    }
  }
}
