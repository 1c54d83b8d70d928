/** The files below a directory, as a recursive listing gives them. */
module FileTree {
  import opened Wrappers
  import opened SafePath

  /** A symbolic link carries the content of the regular file it leads to, if it leads to one. */
  datatype FsNode = File(path: Path, data: Bytes) | Symlink(path: Path, target: Option<Bytes>) | Directory(path: Path)

  /** A directory tree, as its nodes in path order. */
  type Tree = seq<FsNode>
}
