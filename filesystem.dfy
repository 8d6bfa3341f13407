/** The part of the operating system's file tree that the adapters touch:
    a map from absolute paths (lists of path components) to regular files
    and directories.  The root `[]` is always a directory and is never a
    key.  The operations mirror the `os`/`shutil` calls the adapters make
    (`os.path.exists`, `os.path.isdir`, `os.listdir`, `shutil.rmtree`,
    `os.makedirs`, `os.remove`, `open(...,'w')`, `shutil.copy2`,
    `shutil.move`). */
module FileSystem {
  import opened Wrappers

  type Path = seq<string>

  datatype Node = File(data: string) | Dir

  /** `q` is `root` itself or lies below it. */
  predicate Within(root: Path, q: Path) {
    |root| <= |q| && q[..|root|] == root
  }

  /** `a` and `b` lie apart: neither holds the other. */
  predicate Apart(a: Path, b: Path) {
    !Within(a, b) && !Within(b, a)
  }

  lemma WithinWithin(a: Path, b: Path, c: Path)
    requires Within(a, b) && Within(b, c)
    ensures Within(a, c)
  {
    assert c[..|a|] == c[..|b|][..|a|];
  }

  /** The tree after `shutil.rmtree(p)`: `p` and everything below it gone. */
  function RemovedTree(m: map<Path, Node>, p: Path): (r: map<Path, Node>)
    ensures forall q :: q in r <==> q in m && !Within(p, q)
    ensures forall q :: q in r ==> r[q] == m[q]
  {
    map q | q in m && !Within(p, q) :: m[q]
  }

  /** `os.makedirs(p)` succeeds: `p` does not exist yet and no proper
      ancestor of it is a regular file. */
  predicate CanMakeDirs(m: map<Path, Node>, p: Path) {
    && p != []
    && p !in m
    && forall k :: 0 < k < |p| ==> p[..k] !in m || m[p[..k]].Dir?
  }

  /** The proper ancestors of `p` and `p` itself, without the root. */
  function Prefixes(p: Path): set<Path> {
    set k | 0 < k <= |p| :: p[..k]
  }

  /** The tree after `os.makedirs(p)`: every missing prefix of `p` is a new
      directory. */
  function WithDirs(m: map<Path, Node>, p: Path): (r: map<Path, Node>)
    ensures forall q :: q in Prefixes(p) ==> q in r
    ensures forall q :: q in m ==> q in r && r[q] == m[q]
    ensures forall q :: q in r && q !in m ==> q in Prefixes(p) && r[q] == Dir
  {
    map q | q in m.Keys + Prefixes(p) :: if q in m then m[q] else Dir
  }

  /** Every entry sits in a directory: its parent is the root or a
      directory entry.  Real file trees have this shape. */
  ghost predicate WellFormed(m: map<Path, Node>) {
    forall q :: q in m ==> q != [] && (|q| > 1 ==> q[..|q| - 1] in m && m[q[..|q| - 1]].Dir?)
  }

  /** In a well-formed tree every proper non-empty prefix of an entry is a
      directory entry. */
  lemma {:induction false} AncestorIsDir(m: map<Path, Node>, q: Path, k: nat)
    requires WellFormed(m) && q in m && 0 < k < |q|
    ensures q[..k] in m && m[q[..k]].Dir?
    decreases |q| - k
  {
    var parent := q[..|q| - 1];
    if k < |q| - 1 {
      AncestorIsDir(m, parent, k);
      assert parent[..k] == q[..k];
    }
  }

  /** Nothing lies below a path that is not in a well-formed tree. */
  lemma NothingBelowMissing(m: map<Path, Node>, d: Path)
    requires WellFormed(m) && d != [] && d !in m
    ensures forall q :: q in m ==> !Within(d, q)
  {
    forall q | q in m ensures !Within(d, q) {
      assert q[..|q|] == q;
      if |d| < |q| && q[..|d|] == d {
        AncestorIsDir(m, q, |d|);
      }
    }
  }

  /** No name occurs twice in `names`. */
  predicate Distinct(names: seq<string>) {
    forall i, j :: 0 <= i < j < |names| ==> names[i] != names[j]
  }

  /** `listing` names every entry of `p` in `m` once, in any order. */
  ghost predicate Listing(m: map<Path, Node>, p: Path, listing: seq<string>) {
    && Distinct(listing)
    && (forall n :: n in listing <==> p + [n] in m)
  }

  /** `p` is the root or a directory entry. */
  predicate DirIn(m: map<Path, Node>, p: Path) {
    p == [] || (p in m && m[p].Dir?)
  }

  /** The places below `dst` that the entries at or below `src` take when
      `src` is renamed to `dst`. */
  function Relocated(m: map<Path, Node>, src: Path, dst: Path): (s: set<Path>)
    ensures forall q :: q in s <==> Within(dst, q) && src + q[|dst|..] in m
  {
    var s := set p | p in m && Within(src, p) :: dst + p[|src|..];
    forall q ensures q in s <==> Within(dst, q) && src + q[|dst|..] in m {
      if q in s {
        var p :| p in m && Within(src, p) && q == dst + p[|src|..];
        assert q[..|dst|] == dst && q[|dst|..] == p[|src|..];
        assert src + q[|dst|..] == p;
      }
      if Within(dst, q) && src + q[|dst|..] in m {
        var p := src + q[|dst|..];
        assert p[..|src|] == src && p[|src|..] == q[|dst|..];
        assert q == dst + p[|src|..];
      }
    }
    s
  }

  /** The tree after `os.rename(src, dst)`: everything at or below `src`
      sits at the same place below `dst`, and what was at or below `dst`
      is gone. */
  function Renamed(m: map<Path, Node>, src: Path, dst: Path): map<Path, Node> {
    map q | q in (set p | p in m && !Within(src, p) && !Within(dst, p)) + Relocated(m, src, dst) ::
      if Within(dst, q) then m[src + q[|dst|..]] else m[q]
  }

  /** `shutil.move(src, dst)`: whether it succeeds, and the tree afterwards.
      Into an existing directory `dst` the entry keeps its name, and an
      entry of that name already there makes it raise; otherwise `src` is
      renamed to `dst`, replacing a regular file there only when `src` is
      one too.  Moving a directory into itself, or onto one of its
      ancestors, raises, and so does a target whose parent is no
      directory. */
  function Moved(m: map<Path, Node>, src: Path, dst: Path): (bool, map<Path, Node>)
    requires src != []
  {
    var target := if DirIn(m, dst) then dst + [src[|src| - 1]] else dst;
    if src !in m then (false, m)
    else if DirIn(m, dst) && src == dst then (true, m)
    else if DirIn(m, dst) && target in m then (false, m)
    else if Within(src, target) || Within(target, src) then (false, m)
    else if target in m && m[src].Dir? then (false, m)
    else if !DirIn(m, target[..|target| - 1]) then (false, m)
    else (true, Renamed(m, src, target))
  }

  /** `shutil.move(src, dst)` changes nothing outside `src` and `dst`. */
  lemma MovedFrame(m: map<Path, Node>, src: Path, dst: Path)
    requires src != []
    ensures var r := Moved(m, src, dst).1;
      forall q :: !Within(src, q) && !Within(dst, q) ==> (q in r <==> q in m) && (q in m ==> r[q] == m[q])
  {
    var target := if DirIn(m, dst) then dst + [src[|src| - 1]] else dst;
    assert target[..|dst|] == dst;
    forall q | Within(target, q) ensures Within(dst, q) {
      WithinWithin(dst, target, q);
    }
  }

  class FileSystem {
    var nodes: map<Path, Node>

    constructor (initial: map<Path, Node>)
      ensures nodes == initial
    {
      nodes := initial;
    }

    /** `os.path.exists(p)`. */
    predicate Exists(p: Path)
      reads this
    {
      p == [] || p in nodes
    }

    /** `os.path.isdir(p)`. */
    predicate IsDir(p: Path)
      reads this
    {
      p == [] || (p in nodes && nodes[p].Dir?)
    }

    /** `os.path.isfile(p)`. */
    predicate IsFile(p: Path)
      reads this
    {
      p in nodes && nodes[p].File?
    }

    /** The names `os.listdir(p)` reports, as a set. */
    function Children(p: Path): (names: set<string>)
      reads this
      ensures forall n :: n in names <==> p + [n] in nodes
    {
      var names := set q | q in nodes && |q| == |p| + 1 && q[..|p|] == p :: q[|p|];
      assert forall n :: p + [n] in nodes ==> (p + [n])[..|p|] == p && (p + [n])[|p|] == n;
      assert forall q :: q in nodes && |q| == |p| + 1 && q[..|p|] == p ==> q == p + [q[|p|]];
      names
    }

    /** `listing` is what `os.listdir(p)` returns: every entry of `p` once,
        in the order the operating system chooses. */
    ghost predicate Lists(p: Path, listing: seq<string>)
      reads this
    {
      Listing(nodes, p, listing)
    }

    /** `os.listdir(p)` of a directory: its entries, each once, in some
        order. */
    method ListDir(p: Path) returns (listing: seq<string>)
      ensures Lists(p, listing)
    {
      var names := Children(p);
      listing := [];
      while names != {}
        invariant forall n :: n in listing || n in names <==> p + [n] in nodes
        invariant forall n :: n in names ==> n !in listing
        invariant Distinct(listing)
        decreases names
      {
        var n :| n in names;
        listing := listing + [n];
        names := names - {n};
      }
    }

    /** `shutil.rmtree(p)`; it raises unless `p` is a directory. */
    method RemoveTree(p: Path) returns (ok: bool)
      modifies this
      ensures ok <==> old(IsDir(p))
      ensures nodes == if ok then RemovedTree(old(nodes), p) else old(nodes)
    {
      ok := IsDir(p);
      if ok {
        nodes := RemovedTree(nodes, p);
      }
    }

    /** `os.makedirs(p)`. */
    method MakeDirs(p: Path) returns (ok: bool)
      modifies this
      ensures ok <==> CanMakeDirs(old(nodes), p)
      ensures nodes == if ok then WithDirs(old(nodes), p) else old(nodes)
    {
      ok := CanMakeDirs(nodes, p);
      if ok {
        nodes := WithDirs(nodes, p);
      }
    }

    /** `os.remove(p)`; it raises unless `p` is a regular file. */
    method RemoveFile(p: Path) returns (ok: bool)
      modifies this
      ensures ok <==> old(IsFile(p))
      ensures nodes == if ok then old(nodes) - {p} else old(nodes)
    {
      ok := IsFile(p);
      if ok {
        nodes := nodes - {p};
      }
    }

    /** Reading the whole content of `p`; `None` where `open` raises. */
    function ReadFile(p: Path): (r: Option<string>)
      reads this
      ensures r.Some? <==> IsFile(p)
    {
      if IsFile(p) then Some(nodes[p].data) else None
    }

    /** `open(p, 'w')` followed by writing `data`; it raises when the
        parent is not a directory or `p` is a directory. */
    method WriteFile(p: Path, data: string) returns (ok: bool)
      modifies this
      ensures ok <==> old(p != [] && IsDir(p[..|p| - 1]) && !IsDir(p))
      ensures nodes == if ok then old(nodes)[p := File(data)] else old(nodes)
    {
      ok := p != [] && IsDir(p[..|p| - 1]) && !IsDir(p);
      if ok {
        nodes := nodes[p := File(data)];
      }
    }

    /** `shutil.copy2(source, dir)`: the file keeps its name inside `dir`. */
    method CopyFileInto(source: Path, dir: Path) returns (ok: bool)
      requires source != []
      modifies this
      ensures ok <==> old(IsFile(source) && IsDir(dir) && !IsDir(dir + [source[|source| - 1]]))
      ensures ok ==> nodes == old(nodes)[dir + [source[|source| - 1]] := old(nodes)[source]]
      ensures !ok ==> nodes == old(nodes)
    {
      ok := IsFile(source) && IsDir(dir);
      if ok {
        var target := dir + [source[|source| - 1]];
        ok := !IsDir(target);
        if ok {
          nodes := nodes[target := nodes[source]];
        }
      }
    }

    /** `shutil.move(src, dst)`. */
    method Move(src: Path, dst: Path) returns (ok: bool)
      requires src != []
      modifies this
      ensures (ok, nodes) == Moved(old(nodes), src, dst)
    {
      ok, nodes := Moved(nodes, src, dst).0, Moved(nodes, src, dst).1;
    }
  }
}
