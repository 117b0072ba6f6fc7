/**
 * The part of the file system the script touches: directories as maps from
 * entry names to entries, `os.listdir`, `os.path.isfile` and `os.rename`.
 * Operating-system failures (permissions, renaming across devices or onto
 * a directory) are not modelled.
 */
module FileSystem {
  import opened Strings

  /** A directory entry, as far as `os.path.isfile` tells entries apart. */
  datatype Entry = RegularFile(content: seq<bv8>) | NotRegular

  /** The entries of one directory, by name. */
  type Directory = map<string, Entry>

  /** The directories of the volume, by path. */
  type Tree = map<string, Directory>

  /** `os.path.isfile(os.path.join(dir, name))`: false for a missing entry. */
  predicate IsFile(t: Tree, dir: string, name: string)
  {
    dir in t && name in t[dir] && t[dir][name].RegularFile?
  }

  /**
   * `os.rename(os.path.join(srcDir, src), os.path.join(dstDir, dst))`:
   * the entry leaves its old name and replaces whatever the destination
   * held; renaming an entry onto itself changes nothing.
   */
  function Move(t: Tree, srcDir: string, src: string, dstDir: string, dst: string): (r: Tree)
    requires srcDir in t && src in t[srcDir] && dstDir in t
    ensures r.Keys == t.Keys
    ensures dst in r[dstDir] && r[dstDir][dst] == t[srcDir][src]
    ensures srcDir != dstDir || src != dst ==> src !in r[srcDir]
    ensures forall d | d in t && d != srcDir && d != dstDir :: r[d] == t[d]
    ensures forall n | n in t[srcDir] && n != src && (srcDir != dstDir || n != dst) ::
      n in r[srcDir] && r[srcDir][n] == t[srcDir][n]
    ensures forall n | n in t[dstDir] && n != dst && (srcDir != dstDir || n != src) ::
      n in r[dstDir] && r[dstDir][n] == t[dstDir][n]
    ensures forall n | n in r[dstDir] :: n == dst || n in t[dstDir]
    ensures forall n | n in r[srcDir] :: n in t[srcDir] || (srcDir == dstDir && n == dst)
  {
    if srcDir == dstDir && src == dst then t
    else
      var entry := t[srcDir][src];
      var emptied := t[srcDir := t[srcDir] - {src}];
      emptied[dstDir := emptied[dstDir][dst := entry]]
  }

  /** The mounted file system, which the script changes in place. */
  class Volume {
    var tree: Tree

    constructor (t: Tree)
      ensures tree == t
    {
      tree := t;
    }

    /** `os.listdir(dir)`: every entry name once, in an order the system chooses. */
    method ListDir(dir: string) returns (names: seq<string>)
      requires dir in tree
      ensures Distinct(names)
      ensures forall n :: n in names <==> n in tree[dir]
    {
      names := [];
      var rest := tree[dir].Keys;
      while rest != {}
        invariant rest <= tree[dir].Keys
        invariant Distinct(names)
        invariant forall n :: n in names <==> n in tree[dir] && n !in rest
        decreases |rest|
      {
        var n :| n in rest;
        names := names + [n];
        rest := rest - {n};
      }
    }

    /** `os.rename`, as `Move` describes it. */
    method Rename(srcDir: string, src: string, dstDir: string, dst: string)
      requires srcDir in tree && src in tree[srcDir] && dstDir in tree
      modifies this
      ensures tree == Move(old(tree), srcDir, src, dstDir, dst)
    {
      tree := Move(tree, srcDir, src, dstDir, dst);
    }
  }
}
