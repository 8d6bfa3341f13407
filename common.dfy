/** Steps that several adapters write out in the same way: the bounded
    attempt loop, copying a few files into a folder (`shutil.copy2`),
    deleting the regular files of a folder, and distutils' `copy_tree`. */
module AdapterCommon {
  import opened Wrappers
  import opened Strings
  import opened FileSystem
  import opened BaseRefData

  // ---------------------------------------------------------------------
  // The attempt loop

  /** `attempt = 0; while attempt < max and not ok: attempt += 1; ok = ...`,
      where `ok(k)` is the outcome of attempt `k`: the loop stops at the first
      successful attempt, or after `max` attempts (none when `max <= 0`). */
  method RetryUntil(max: int, ok: nat -> bool) returns (success: bool, attempts: nat)
    ensures success <==> exists k :: 1 <= k <= max && ok(k)
    ensures success ==> 1 <= attempts <= max && ok(attempts)
    ensures forall k :: 1 <= k < attempts ==> !ok(k)
    ensures !success ==> attempts == if max < 0 then 0 else max
  {
    attempts := 0;
    success := false;
    while attempts < max && !success
      invariant attempts == 0 || attempts <= max
      invariant success ==> 1 <= attempts && ok(attempts)
      invariant forall k :: 1 <= k < attempts ==> !ok(k)
      invariant !success ==> forall k :: 1 <= k <= attempts ==> !ok(k)
      decreases max - attempts
    {
      attempts := attempts + 1;
      success := ok(attempts);
    }
  }

  // ---------------------------------------------------------------------
  // Copying files into a folder

  /** The place `shutil.copy2(source, dir)` writes to. */
  function Target(source: Path, dir: Path): Path
    requires source != []
  {
    dir + [source[|source| - 1]]
  }

  /** `shutil.copy2(s, dir)` for each `s` of `sources` in turn, stopping at
      the first one that raises: whether all were copied, and the tree
      afterwards. */
  function CopiedAll(m: map<Path, Node>, sources: seq<Path>, dir: Path): (bool, map<Path, Node>)
    decreases |sources|
  {
    if sources == [] then (true, m)
    else
      var s := sources[0];
      if s != [] && s in m && m[s].File? && DirIn(m, dir) && !DirIn(m, Target(s, dir)) then
        CopiedAll(m[Target(s, dir) := m[s]], sources[1..], dir)
      else (false, m)
  }

  method CopyFilesInto(fs: FileSystem, sources: seq<Path>, dir: Path) returns (ok: bool)
    modifies fs
    ensures (ok, fs.nodes) == CopiedAll(old(fs.nodes), sources, dir)
  {
    ok := true;
    var k := 0;
    while k < |sources|
      invariant k <= |sources|
      invariant CopiedAll(old(fs.nodes), sources, dir) == CopiedAll(fs.nodes, sources[k..], dir)
    {
      if sources[k] == [] {
        assert sources[k..][0] == sources[k];
        return false;
      }
      ok := fs.CopyFileInto(sources[k], dir);
      assert sources[k..][0] == sources[k] && sources[k..][1..] == sources[k + 1..];
      if !ok {
        return;
      }
      k := k + 1;
    }
  }

  /** A successful run leaves a regular file in `dir` for every source, and
      changes nothing but those copies. */
  lemma {:induction false} CopiedAllPlacesCopies(m: map<Path, Node>, sources: seq<Path>, dir: Path)
    requires CopiedAll(m, sources, dir).0
    ensures var r := CopiedAll(m, sources, dir).1;
      && (forall k :: 0 <= k < |sources| ==> sources[k] != [] && Target(sources[k], dir) in r
                                              && r[Target(sources[k], dir)].File?)
      && (forall q :: q in m && (forall k :: 0 <= k < |sources| ==> sources[k] == [] || q != Target(sources[k], dir))
                      ==> q in r && r[q] == m[q])
    decreases |sources|
  {
    if sources != [] {
      var s := sources[0];
      var m' := m[Target(s, dir) := m[s]];
      CopiedAllPlacesCopies(m', sources[1..], dir);
      var r := CopiedAll(m, sources, dir).1;
      assert r == CopiedAll(m', sources[1..], dir).1;
      forall k | 0 <= k < |sources|
        ensures sources[k] != [] && Target(sources[k], dir) in r && r[Target(sources[k], dir)].File?
      {
        if k == 0 {
          CopiedAllKeepsFiles(m', sources[1..], dir, Target(s, dir));
        } else {
          assert sources[k] == sources[1..][k - 1];
        }
      }
      forall q | q in m && (forall k :: 0 <= k < |sources| ==> sources[k] == [] || q != Target(sources[k], dir))
        ensures q in r && r[q] == m[q]
      {
        assert q != Target(sources[0], dir);
        forall k | 0 <= k < |sources[1..]| ensures sources[1..][k] == [] || q != Target(sources[1..][k], dir) {
          assert sources[1..][k] == sources[k + 1];
        }
      }
    }
  }

  /** The entries `names` of `dir` as paths. */
  function Under(dir: Path, names: seq<string>): (ps: seq<Path>)
    ensures |ps| == |names| && forall k :: 0 <= k < |ps| ==> ps[k] == dir + [names[k]]
  {
    seq(|names|, k requires 0 <= k < |names| => dir + [names[k]])
  }

  /** Copying the entries `names` of `src`, none of them inside `dir`, all
      successfully: `dir/n` holds what `src/n` held for every `n` of
      `names`, any other entry of `dir` is as before, and nothing outside
      `dir` changes. */
  lemma CopiedNames(m: map<Path, Node>, src: Path, dir: Path, names: seq<string>)
    requires CopiedAll(m, Under(src, names), dir).0
    requires Distinct(names)
    requires forall k :: 0 <= k < |names| ==> !Within(dir, src + [names[k]])
    ensures var r := CopiedAll(m, Under(src, names), dir).1;
      && (forall n :: n in names ==> src + [n] in m && dir + [n] in r && r[dir + [n]] == m[src + [n]])
      && (forall n :: n !in names ==> (dir + [n] in r <==> dir + [n] in m))
      && (forall n :: n !in names && dir + [n] in m ==> r[dir + [n]] == m[dir + [n]])
      && (forall q :: q in m && !Within(dir, q) ==> q in r && r[q] == m[q])
  {
    var sources := Under(src, names);
    forall k | 0 <= k < |sources| ensures sources[k] != [] && Target(sources[k], dir) == dir + [names[k]] {
    }
    forall i, j | 0 <= i < j < |sources| ensures Target(sources[i], dir) != Target(sources[j], dir) {
      assert Target(sources[i], dir)[|dir|] == names[i];
    }
    CopiedAllCarries(m, sources, dir);
    CopiedAllFrame(m, sources, dir);
    forall n | n in names ensures src + [n] in m && dir + [n] in CopiedAll(m, sources, dir).1 {
      var k :| 0 <= k < |names| && names[k] == n;
    }
    forall n | n !in names
      ensures dir + [n] in CopiedAll(m, sources, dir).1 <==> dir + [n] in m
      ensures dir + [n] in m ==> CopiedAll(m, sources, dir).1[dir + [n]] == m[dir + [n]]
    {
      forall k | 0 <= k < |sources| ensures sources[k] == [] || dir + [n] != Target(sources[k], dir) {
        assert Target(sources[k], dir)[|dir|] == names[k];
      }
      CopiedAllUntargeted(m, sources, dir, dir + [n]);
    }
  }

  /** A place no copy goes to holds after the copies what it held before,
      or is still missing. */
  lemma {:induction false} CopiedAllUntargeted(m: map<Path, Node>, sources: seq<Path>, dir: Path, q: Path)
    requires forall k :: 0 <= k < |sources| ==> sources[k] == [] || q != Target(sources[k], dir)
    ensures q in CopiedAll(m, sources, dir).1 <==> q in m
    ensures q in m ==> CopiedAll(m, sources, dir).1[q] == m[q]
    decreases |sources|
  {
    if sources != [] {
      var s := sources[0];
      if s != [] && s in m && m[s].File? && DirIn(m, dir) && !DirIn(m, Target(s, dir)) {
        forall k | 0 <= k < |sources[1..]| ensures sources[1..][k] == [] || q != Target(sources[1..][k], dir) {
          assert sources[1..][k] == sources[k + 1];
        }
        CopiedAllUntargeted(m[Target(s, dir) := m[s]], sources[1..], dir, q);
      }
    }
  }

  /** Every place the copies add lies in `dir`. */
  lemma {:induction false} CopiedAllAddsInside(m: map<Path, Node>, sources: seq<Path>, dir: Path)
    ensures forall q :: q in CopiedAll(m, sources, dir).1 && q !in m ==> Within(dir, q)
    decreases |sources|
  {
    if sources != [] {
      var s := sources[0];
      if s != [] && s in m && m[s].File? && DirIn(m, dir) && !DirIn(m, Target(s, dir)) {
        CopiedAllAddsInside(m[Target(s, dir) := m[s]], sources[1..], dir);
        assert Within(dir, Target(s, dir));
      }
    }
  }

  /** Copying never removes a regular file. */
  lemma {:induction false} CopiedAllKeepsFiles(m: map<Path, Node>, sources: seq<Path>, dir: Path, q: Path)
    requires q in m && m[q].File?
    ensures q in CopiedAll(m, sources, dir).1 && CopiedAll(m, sources, dir).1[q].File?
    decreases |sources|
  {
    if sources != [] {
      var s := sources[0];
      if s != [] && s in m && m[s].File? && DirIn(m, dir) && !DirIn(m, Target(s, dir)) {
        CopiedAllKeepsFiles(m[Target(s, dir) := m[s]], sources[1..], dir, q);
      }
    }
  }

  /** `copy2` succeeds for every source when each source is a regular file
      outside `dir`, `dir` is a directory and no place a copy goes to is a
      directory. */
  lemma {:induction false} CopiedAllSucceeds(m: map<Path, Node>, sources: seq<Path>, dir: Path)
    requires DirIn(m, dir)
    requires forall k :: 0 <= k < |sources| ==> sources[k] != [] && sources[k] in m && m[sources[k]].File? && !Within(dir, sources[k])
    requires forall k :: 0 <= k < |sources| ==> !DirIn(m, Target(sources[k], dir))
    ensures CopiedAll(m, sources, dir).0
    decreases |sources|
  {
    if sources != [] {
      var s := sources[0];
      var t := Target(s, dir);
      var m' := m[t := m[s]];
      assert Within(dir, t);
      forall k | 0 <= k < |sources[1..]|
        ensures sources[1..][k] != [] && sources[1..][k] in m' && m'[sources[1..][k]].File? && !Within(dir, sources[1..][k])
        ensures !DirIn(m', Target(sources[1..][k], dir))
      {
        assert sources[1..][k] == sources[k + 1];
      }
      CopiedAllSucceeds(m', sources[1..], dir);
    }
  }

  /** When every copy succeeds, no source lies in `dir` and the copies go to
      different places, each place holds what its source held. */
  lemma {:induction false} CopiedAllCarries(m: map<Path, Node>, sources: seq<Path>, dir: Path)
    requires CopiedAll(m, sources, dir).0
    requires forall k :: 0 <= k < |sources| ==> sources[k] != [] && !Within(dir, sources[k])
    requires forall i, j :: 0 <= i < j < |sources| ==> Target(sources[i], dir) != Target(sources[j], dir)
    ensures var r := CopiedAll(m, sources, dir).1;
      forall k :: 0 <= k < |sources| ==> sources[k] in m && Target(sources[k], dir) in r && r[Target(sources[k], dir)] == m[sources[k]]
    decreases |sources|
  {
    if sources != [] {
      var s := sources[0];
      var t := Target(s, dir);
      var m' := m[t := m[s]];
      var rest := sources[1..];
      assert Within(dir, t);
      forall i, j | 0 <= i < j < |rest| ensures Target(rest[i], dir) != Target(rest[j], dir) {
        assert rest[i] == sources[i + 1] && rest[j] == sources[j + 1];
      }
      CopiedAllCarries(m', rest, dir);
      CopiedAllPlacesCopies(m', rest, dir);
      var r := CopiedAll(m, sources, dir).1;
      assert r == CopiedAll(m', rest, dir).1;
      forall k | 0 <= k < |sources|
        ensures sources[k] in m && Target(sources[k], dir) in r && r[Target(sources[k], dir)] == m[sources[k]]
      {
        if k == 0 {
          forall j | 0 <= j < |rest| ensures rest[j] == [] || t != Target(rest[j], dir) {
            assert rest[j] == sources[j + 1];
          }
        } else {
          assert sources[k] == rest[k - 1];
        }
      }
    }
  }

  // ---------------------------------------------------------------------
  // Deleting regular files

  /** A regular file directly inside `dir` whose name is not in `keep`. */
  predicate Unwanted(m: map<Path, Node>, dir: Path, keep: set<string>, q: Path) {
    q in m && m[q].File? && |q| == |dir| + 1 && q[..|dir|] == dir && q[|dir|] !in keep
  }

  /** The tree after `for f in os.listdir(dir): if os.path.isfile(f) and f
      not in keep: os.remove(f)`. */
  function WithoutFiles(m: map<Path, Node>, dir: Path, keep: set<string>): map<Path, Node> {
    map q | q in m && !Unwanted(m, dir, keep, q) :: m[q]
  }

  /** Only regular files directly inside `dir` and not in `keep` go:
      subdirectories with all they contain, kept names and everything
      elsewhere survive unchanged. */
  lemma WithoutFilesRemovesExactly(m: map<Path, Node>, dir: Path, keep: set<string>)
    ensures var r := WithoutFiles(m, dir, keep);
      && (forall n :: dir + [n] in r && r[dir + [n]].File? ==> n in keep)
      && (forall q :: q in m ==> (q in r <==> !Unwanted(m, dir, keep, q)))
      && (forall q :: q in r ==> r[q] == m[q])
  {
    var r := WithoutFiles(m, dir, keep);
    forall n | dir + [n] in r && r[dir + [n]].File? ensures n in keep {
      var q := dir + [n];
      assert q[..|dir|] == dir && q[|dir|] == n;
      assert !Unwanted(m, dir, keep, q);
    }
  }

  /** The files already deleted after visiting the names in `done`. */
  function WithoutFilesSome(m: map<Path, Node>, dir: Path, keep: set<string>, done: set<string>): map<Path, Node> {
    map q | q in m && !(Unwanted(m, dir, keep, q) && q[|dir|] in done) :: m[q]
  }

  /** `only_files = [f for f in os.listdir(dir) if os.path.isfile(f)]` and
      the loop deleting those not in `keep`; `false` when `dir` is not a
      directory (`os.chdir` or `os.listdir` raises). */
  method RemoveRegularFiles(fs: FileSystem, dir: Path, keep: set<string>) returns (ok: bool)
    modifies fs
    ensures ok <==> old(fs.IsDir(dir))
    ensures fs.nodes == if ok then WithoutFiles(old(fs.nodes), dir, keep) else old(fs.nodes)
  {
    if !fs.IsDir(dir) {
      return false;
    }
    ghost var m0 := fs.nodes;
    var names := fs.Children(dir);
    ghost var done: set<string> := {};
    assert fs.nodes == WithoutFilesSome(m0, dir, keep, done);
    while names != {}
      invariant fs.nodes == WithoutFilesSome(m0, dir, keep, done)
      invariant names !! done
      invariant forall n :: dir + [n] in m0 ==> n in names || n in done
      decreases names
    {
      var n :| n in names;
      RemoveStep(m0, dir, keep, done, n);
      if fs.IsFile(dir + [n]) && n !in keep {
        var _ := fs.RemoveFile(dir + [n]);
      }
      names := names - {n};
      done := done + {n};
    }
    forall q | q in m0 && Unwanted(m0, dir, keep, q) ensures q[|dir|] in done {
      assert q == dir + [q[|dir|]];
    }
    assert WithoutFilesSome(m0, dir, keep, done) == WithoutFiles(m0, dir, keep);
    ok := true;
  }

  /** One step of the deleting loop, visiting the entry `n` of `dir`. */
  lemma RemoveStep(m: map<Path, Node>, dir: Path, keep: set<string>, done: set<string>, n: string)
    requires n !in done
    ensures var cur := WithoutFilesSome(m, dir, keep, done);
      var next := WithoutFilesSome(m, dir, keep, done + {n});
      var q := dir + [n];
      && (q in cur <==> q in m)
      && (q in cur ==> cur[q] == m[q])
      && (Unwanted(m, dir, keep, q) ==> next == cur - {q})
      && (!Unwanted(m, dir, keep, q) ==> next == cur)
  {
    var q := dir + [n];
    assert q[..|dir|] == dir && q[|dir|] == n;
    var cur := WithoutFilesSome(m, dir, keep, done);
    var next := WithoutFilesSome(m, dir, keep, done + {n});
    forall p | p in m && Unwanted(m, dir, keep, p) && p[|dir|] == n ensures p == q {
      assert p == p[..|dir|] + [p[|dir|]];
    }
  }

  // ---------------------------------------------------------------------
  // copy_tree

  /** `q` is the place below `dst` of an entry below `src`. */
  predicate MirrorOf(m: map<Path, Node>, src: Path, dst: Path, q: Path) {
    |q| > |dst| && q[..|dst|] == dst && src + q[|dst|..] in m
  }

  function Mirrors(m: map<Path, Node>, src: Path, dst: Path): (s: set<Path>)
    ensures forall q :: q in s ==> MirrorOf(m, src, dst, q)
  {
    var s := set r | r in m && |r| > |src| && r[..|src|] == src :: dst + r[|src|..];
    forall q | q in s ensures MirrorOf(m, src, dst, q) {
      var r :| r in m && |r| > |src| && r[..|src|] == src && q == dst + r[|src|..];
      assert q[|dst|..] == r[|src|..];
      assert src + q[|dst|..] == r;
    }
    s
  }

  /** The tree after distutils' `copy_tree(src, dst)`: every entry below
      `src` appears at the same relative place below `dst`, replacing what
      was there; the source stays where it is. */
  function CopiedTree(m: map<Path, Node>, src: Path, dst: Path): map<Path, Node> {
    map q | q in m.Keys + Mirrors(m, src, dst) ::
      if MirrorOf(m, src, dst, q) then m[src + q[|dst|..]] else m[q]
  }

  /** Every entry below `src` has its copy below `dst`; entries outside
      `dst` are untouched. */
  lemma CopiedTreeMirrors(m: map<Path, Node>, src: Path, dst: Path)
    ensures var r := CopiedTree(m, src, dst);
      && (forall p :: p in m && |p| > |src| && p[..|src|] == src ==>
            dst + p[|src|..] in r && r[dst + p[|src|..]] == m[p])
      && (forall q :: q in m && !Within(dst, q) ==> q in r && r[q] == m[q])
      && (forall q :: q in r ==> q in m || MirrorOf(m, src, dst, q))
  {
    var r := CopiedTree(m, src, dst);
    forall p | p in m && |p| > |src| && p[..|src|] == src
      ensures dst + p[|src|..] in r && r[dst + p[|src|..]] == m[p]
    {
      var q := dst + p[|src|..];
      assert q in Mirrors(m, src, dst);
      assert q[|dst|..] == p[|src|..];
      assert src + q[|dst|..] == p;
    }
  }

  /** distutils' `copy_tree(src, dst)`; it raises unless `src` is a
      directory. */
  method CopyTree(fs: FileSystem, src: Path, dst: Path) returns (ok: bool)
    modifies fs
    ensures ok <==> old(fs.IsDir(src))
    ensures fs.nodes == if ok then CopiedTree(old(fs.nodes), src, dst) else old(fs.nodes)
  {
    ok := fs.IsDir(src);
    if ok {
      fs.nodes := CopiedTree(fs.nodes, src, dst);
    }
  }
  // ---------------------------------------------------------------------
  // Checksum sidecars read by their first token

  /** `text` starts with the non-empty, space-free `digest`, alone or
      followed by a space. */
  predicate DigestLeads(text: string, digest: string) {
    digest != "" && ' ' !in digest && (text == digest || StartsWith(text, digest + " "))
  }

  /** `checksum` of the taxonomy and BLAST adapters: the digest is
      `f.read().split(' ')[0]` of the `.md5` sidecar (`md5Text`, `None` when it
      cannot be read), checked against the data file (`data`) by
      `check_md5`.  It passes exactly when the sidecar leads with the data's
      MD5 hex digest. */
  function FirstTokenChecksum(md5Text: Option<string>, data: Option<string>, md5: string -> string): (ok: bool)
    ensures ok <==> md5Text.Some? && data.Some? && DigestLeads(md5Text.value, md5(data.value))
  {
    if md5Text.None? then false
    else
      var token := Split(md5Text.value, " ")[0];
      FirstToken(md5Text.value, ' ');
      if data.Some? then
        FirstTokenIff(md5Text.value, ' ', md5(data.value));
        CheckMd5(token, data, md5)
      else CheckMd5(token, data, md5)
  }

  // ---------------------------------------------------------------------
  // Backing up the readme files

  /** `checksum(md5_file, file_name)` of the taxonomy and BLAST adapters
      on the file system: the sidecar is read (a missing one returns
      `False`), its first token taken, the sidecar deleted, and only then
      the data file compared. */
  method FirstTokenChecksumFile(fs: FileSystem, md5Path: Path, dataPath: Path, md5: string -> string)
    returns (ok: bool)
    modifies fs
    ensures var data := if dataPath == md5Path then None else old(fs.ReadFile(dataPath));
      ok <==> FirstTokenChecksum(old(fs.ReadFile(md5Path)), data, md5)
    ensures fs.nodes == if old(fs.IsFile(md5Path)) then old(fs.nodes) - {md5Path} else old(fs.nodes)
  {
    var text := fs.ReadFile(md5Path);
    if text.None? {
      return false;
    }
    var token := Split(text.value, " ")[0];
    var removed := fs.RemoveFile(md5Path);
    ok := CheckMd5(token, fs.ReadFile(dataPath), md5);
    if dataPath != md5Path {
      FirstToken(text.value, ' ');
      FirstTokenIff(text.value, ' ', token);
    }
  }

  /** `create_backup_dir()` followed by `shutil.copy2(f, backup_folder)` for
      each of `sources` (the README+ manifest and the provider's readme):
      `false` when the folder cannot be made or a copy raises. */
  method BackupFiles(fs: FileSystem, backupDir: Path, today: string, sources: seq<Path>) returns (ok: bool)
    modifies fs
    ensures var made := Recreate(old(fs.nodes), backupDir + [today]);
      && (ok <==> made.0 && CopiedAll(made.1, sources, backupDir + [today]).0)
      && fs.nodes == if made.0 then CopiedAll(made.1, sources, backupDir + [today]).1 else made.1
  {
    var folder := CreateBackupDir(fs, backupDir, today);
    if folder.None? {
      return false;
    }
    ok := CopyFilesInto(fs, sources, folder.value);
  }

  /** A backup changes nothing outside the dated folder. */
  lemma BackupFilesFrame(m: map<Path, Node>, backupDir: Path, today: string, sources: seq<Path>)
    ensures var d := backupDir + [today];
      var made := Recreate(m, d);
      var r := if made.0 then CopiedAll(made.1, sources, d).1 else made.1;
      forall q :: q in m && !Within(d, q) ==> q in r && r[q] == m[q]
  {
    var d := backupDir + [today];
    var made := Recreate(m, d);
    if made.0 {
      CopiedAllFrame(made.1, sources, d);
    }
  }

  /** `copy2` into `dir` only writes directly inside `dir`. */
  lemma {:induction false} CopiedAllFrame(m: map<Path, Node>, sources: seq<Path>, dir: Path)
    ensures var r := CopiedAll(m, sources, dir).1;
      forall q :: q in m && !Within(dir, q) ==> q in r && r[q] == m[q]
    decreases |sources|
  {
    if sources != [] {
      var s := sources[0];
      if s != [] && s in m && m[s].File? && DirIn(m, dir) && !DirIn(m, Target(s, dir)) {
        var m' := m[Target(s, dir) := m[s]];
        CopiedAllFrame(m', sources[1..], dir);
        forall q | q in m && !Within(dir, q) ensures q != Target(s, dir) {
          assert Target(s, dir)[..|dir|] == dir;
        }
      }
    }
  }

  // ---------------------------------------------------------------------
  // Converting a text file line by line

  /** The output lines for the input lines from `i` on, converted one by one
      by `convert`, and whether all of them converted; conversion stops at
      the first line `convert` refuses. */
  function FormatFrom(convert: string -> Option<string>, lines: seq<string>, i: nat): (bool, seq<string>)
    decreases |lines| - i
  {
    if i >= |lines| then (true, [])
    else
      match convert(lines[i])
      case None => (false, [])
      case Some(o) =>
        var rest := FormatFrom(convert, lines, i + 1);
        (rest.0, [o] + rest.1)
  }

  /** The conversion keeps the order of the lines: output line `k` is line
      `k` converted, it succeeds exactly when every line converts, and
      otherwise it stops right at the first line that does not. */
  lemma {:induction false} FormatFromShape(convert: string -> Option<string>, lines: seq<string>, i: nat)
    requires i <= |lines|
    ensures var r := FormatFrom(convert, lines, i);
      && |r.1| <= |lines| - i
      && (forall k :: 0 <= k < |r.1| ==> convert(lines[i + k]) == Some(r.1[k]))
      && (r.0 <==> |r.1| == |lines| - i)
      && (!r.0 ==> convert(lines[i + |r.1|]).None?)
    decreases |lines| - i
  {
    if i < |lines| && convert(lines[i]).Some? {
      FormatFromShape(convert, lines, i + 1);
      var rest := FormatFrom(convert, lines, i + 1);
      var r := FormatFrom(convert, lines, i);
      forall k | 0 < k < |r.1| ensures convert(lines[i + k]) == Some(r.1[k]) {
        assert r.1[k] == rest.1[k - 1];
      }
    }
  }

  /** One converted line moves from what is left to convert to what has
      been written. */
  lemma FormatStep(convert: string -> Option<string>, lines: seq<string>, i: nat, out: seq<string>)
    requires i < |lines| && convert(lines[i]).Some?
    ensures var r := FormatFrom(convert, lines, i);
      var r' := FormatFrom(convert, lines, i + 1);
      r.0 == r'.0 && out + r.1 == (out + [convert(lines[i]).value]) + r'.1
  {
  }

  /** The loop writing one converted line per input line. */
  method FormatLines(convert: string -> Option<string>, lines: seq<string>) returns (ok: bool, text: string)
    ensures var r := FormatFrom(convert, lines, 0);
      ok == r.0 && text == Concat(r.1)
  {
    text := "";
    ghost var out: seq<string> := [];
    assert [] + FormatFrom(convert, lines, 0).1 == FormatFrom(convert, lines, 0).1;
    var i := 0;
    while i < |lines|
      invariant i <= |lines|
      invariant text == Concat(out)
      invariant FormatFrom(convert, lines, 0) == (FormatFrom(convert, lines, i).0, out + FormatFrom(convert, lines, i).1)
      decreases |lines| - i
    {
      var o := convert(lines[i]);
      if o.None? {
        assert out + [] == out;
        return false, text;
      }
      ConcatAppend(out, o.value);
      FormatStep(convert, lines, i, out);
      text := text + o.value;
      out := out + [o.value];
      i := i + 1;
    }
    assert out + [] == out;
    ok := true;
  }

  /** A header line followed by converted lines reads back as those lines,
      when the conversion turns every line into one line. */
  lemma ConvertedReadBack(header: string, convert: string -> Option<string>, lines: seq<string>)
    requires IsLine(header)
    requires forall k :: 0 <= k < |lines| ==> NewlineOnlyAtEnd(lines[k])
    requires forall l :: NewlineOnlyAtEnd(l) && convert(l).Some? ==> IsLine(convert(l).value)
    ensures var out := FormatFrom(convert, lines, 0).1;
      ReadLines(header + Concat(out)) == [header] + out
  {
    var out := FormatFrom(convert, lines, 0).1;
    assert forall k :: 0 <= k < |out| ==> IsLine(out[k]) by {
      FormatFromShape(convert, lines, 0);
      forall k | 0 <= k < |out| ensures IsLine(out[k]) {
        assert convert(lines[0 + k]) == Some(out[k]);
      }
    }
    HeaderLines(header, out);
  }

  lemma HeaderLines(header: string, out: seq<string>)
    requires IsLine(header)
    requires forall k :: 0 <= k < |out| ==> IsLine(out[k])
    ensures ReadLines(header + Concat(out)) == [header] + out
  {
    var all := [header] + out;
    assert Concat(all) == header + Concat(out) by {
      assert all[1..] == out;
    }
    ReadLinesConcat(all);
  }

  /** `backup` of the whole-genome and GreenGenes adapters: the dated folder
      gets a copy of the README+ manifest and of the provider's readme, both
      from the staging folder (the working directory at that point). */
  method BackupReadmes(fs: FileSystem, backupDir: Path, today: string, temp: Path, readme: string, info: string)
    returns (ok: bool)
    modifies fs
    ensures var d := backupDir + [today];
      var made := Recreate(old(fs.nodes), d);
      var sources := [temp + [readme], temp + [info]];
      && (ok <==> made.0 && CopiedAll(made.1, sources, d).0)
      && fs.nodes == if made.0 then CopiedAll(made.1, sources, d).1 else made.1
  {
    ok := BackupFiles(fs, backupDir, today, [temp + [readme], temp + [info]]);
  }

  /** Whether `q` is left alone by an update: outside the staging folder
      and outside the dated backup folder. */
  predicate Outside(dest: Path, backupDir: Path, today: string, q: Path) {
    !Within(dest + ["temp"], q) && !Within(backupDir + [today], q)
  }

  /** The README+ manifest `text` written into the staging folder
      `dest/temp` (a failed write is ignored), then the manifest and the
      provider's readme copied from there into the dated backup folder:
      whether the backup came through, and the tree. */
  function ReadmeBackedUp(m: map<Path, Node>, dest: Path, backupDir: Path, today: string, readme: string, info: string,
                          text: string): (bool, map<Path, Node>) {
    var temp := dest + ["temp"];
    var d := backupDir + [today];
    var made := Recreate(Manifested(m, temp, readme, text), d);
    if made.0 then CopiedAll(made.1, [temp + [readme], temp + [info]], d) else made
  }

  /** The README+ manifest written into the staging folder `dest/temp`,
      then the two readmes backed up (the whole-genome, GreenGenes and
      BLAST adapters): the answer and the tree are `ReadmeBackedUp`'s, and
      nothing outside the staging and dated backup folders changes. */
  method ReadmeAndBackup(fs: FileSystem, dest: Path, backupDir: Path, today: string, readme: string, info: string,
                         comment: string, entries: seq<string>, now: string, url: string, elapsed: Elapsed)
    returns (ok: bool)
    modifies fs
    ensures (ok, fs.nodes) == ReadmeBackedUp(old(fs.nodes), dest, backupDir, today, readme, info,
                                             ReadmeText(comment, now, url, elapsed, entries, []))
    ensures forall q :: q in old(fs.nodes) && Outside(dest, backupDir, today, q) ==> q in fs.nodes && fs.nodes[q] == old(fs.nodes)[q]
  {
    var temp := dest + ["temp"];
    var path := temp + [readme];
    assert Within(temp, path) by {
      assert path[..|temp|] == temp;
    }
    assert path[..|path| - 1] == temp;
    var _ := WriteReadme(fs, path, comment, now, url, elapsed, entries, []);
    ghost var m1 := fs.nodes;
    ok := BackupReadmes(fs, backupDir, today, temp, readme, info);
    BackupFilesFrame(m1, backupDir, today, [path, temp + [info]]);
  }

  /** The backup of the readmes changes nothing outside the dated folder
      but the manifest, and every regular file it leaves outside the dated
      folder was there before or is the manifest. */
  lemma ReadmeBackedUpKeeps(m: map<Path, Node>, dest: Path, backupDir: Path, today: string, readme: string, info: string,
                            text: string)
    ensures var w := Manifested(m, dest + ["temp"], readme, text);
      var r := ReadmeBackedUp(m, dest, backupDir, today, readme, info, text).1;
      && (forall q :: q in w && !Within(backupDir + [today], q) ==> q in r && r[q] == w[q])
      && (forall q :: q in r && r[q].File? && !Within(backupDir + [today], q) ==> q in w)
  {
    var temp := dest + ["temp"];
    var d := backupDir + [today];
    var w := Manifested(m, temp, readme, text);
    BackupFilesFrame(w, backupDir, today, [temp + [readme], temp + [info]]);
    var made := Recreate(w, d);
    assert forall q :: q in made.1 && q !in w ==> made.1[q] == Dir;
    if made.0 {
      CopiedAllAddsInside(made.1, [temp + [readme], temp + [info]], d);
      CopiedAllFrame(made.1, [temp + [readme], temp + [info]], d);
    }
  }

  // ---------------------------------------------------------------------
  // Replacing the destination's files by the staged ones

  /** Deleting the regular files directly in `dest`, then distutils'
      `copy_tree(temp, dest)` and `shutil.rmtree(temp)`, stopping at the
      first that raises: whether all three ran, and the tree afterwards. */
  function Promoted(m: map<Path, Node>, dest: Path, temp: Path): (bool, map<Path, Node>) {
    if !DirIn(m, dest) then (false, m)
    else
      var cleared := WithoutFiles(m, dest, {});
      if !DirIn(cleared, temp) then (false, cleared)
      else
        var copied := CopiedTree(cleared, temp, dest);
        if !DirIn(copied, temp) then (false, copied)
        else (true, RemovedTree(copied, temp))
  }

  method Promote(fs: FileSystem, dest: Path, temp: Path) returns (ok: bool)
    modifies fs
    ensures (ok, fs.nodes) == Promoted(old(fs.nodes), dest, temp)
  {
    ok := RemoveRegularFiles(fs, dest, {});
    if !ok {
      return;
    }
    ok := CopyTree(fs, temp, dest);
    if !ok {
      return;
    }
    ok := fs.RemoveTree(temp);
  }

  /** After a promotion from `dest/temp` the staging folder is gone, every
      staged entry sits directly in `dest`, every regular file directly in
      `dest` was staged, and nothing outside `dest` has changed. */
  lemma PromotedFiles(m: map<Path, Node>, dest: Path)
    requires Promoted(m, dest, dest + ["temp"]).0
    ensures var r := Promoted(m, dest, dest + ["temp"]).1;
      var temp := dest + ["temp"];
      && (forall q :: q in r ==> !Within(temp, q))
      && (forall n :: n != "temp" && temp + [n] in m ==> dest + [n] in r && r[dest + [n]] == m[temp + [n]])
      && (forall n :: dest + [n] in r && r[dest + [n]].File? ==> temp + [n] in m)
      && (forall q :: q in m && !Within(dest, q) ==> q in r && r[q] == m[q])
  {
    var temp := dest + ["temp"];
    var cleared := WithoutFiles(m, dest, {});
    WithoutFilesRemovesExactly(m, dest, {});
    var copied := CopiedTree(cleared, temp, dest);
    assert Promoted(m, dest, temp).1 == RemovedTree(copied, temp);
    PromotedStaged(m, dest);
    PromotedOnlyStaged(m, dest);
    PromotedFrame(m, dest);
  }

  lemma PromotedStaged(m: map<Path, Node>, dest: Path)
    requires DirIn(m, dest)
    ensures var temp := dest + ["temp"];
      var cleared := WithoutFiles(m, dest, {});
      var r := RemovedTree(CopiedTree(cleared, temp, dest), temp);
      forall n :: n != "temp" && temp + [n] in m ==> dest + [n] in r && r[dest + [n]] == m[temp + [n]]
  {
    var temp := dest + ["temp"];
    var cleared := WithoutFiles(m, dest, {});
    CopiedTreeMirrors(cleared, temp, dest);
    forall n | n != "temp" && temp + [n] in m
      ensures temp + [n] in cleared && !Within(temp, dest + [n])
      ensures var p := temp + [n]; p[..|temp|] == temp && dest + p[|temp|..] == dest + [n]
    {
      var p := temp + [n];
      assert !Unwanted(m, dest, {}, p);
      assert p[..|temp|] == temp && dest + p[|temp|..] == dest + [n];
      assert (dest + [n])[|dest|] != temp[|dest|];
    }
  }

  lemma PromotedOnlyStaged(m: map<Path, Node>, dest: Path)
    requires DirIn(m, dest)
    ensures var temp := dest + ["temp"];
      var cleared := WithoutFiles(m, dest, {});
      var r := CopiedTree(cleared, temp, dest);
      forall n :: dest + [n] in r && r[dest + [n]].File? ==> temp + [n] in m
  {
    var temp := dest + ["temp"];
    var cleared := WithoutFiles(m, dest, {});
    WithoutFilesRemovesExactly(m, dest, {});
    var r := CopiedTree(cleared, temp, dest);
    forall n | dest + [n] in r && r[dest + [n]].File? ensures temp + [n] in m {
      var q := dest + [n];
      if MirrorOf(cleared, temp, dest, q) {
        assert q[|dest|..] == [n];
      }
    }
  }

  /** Promoting changes nothing outside `dest`, whether or not it gets
      through. */
  lemma PromotedFrame(m: map<Path, Node>, dest: Path)
    ensures var r := Promoted(m, dest, dest + ["temp"]).1;
      forall q :: q in m && !Within(dest, q) ==> q in r && r[q] == m[q]
  {
    var temp := dest + ["temp"];
    if DirIn(m, dest) {
      var cleared := WithoutFiles(m, dest, {});
      assert KeepsOutside(m, cleared, dest) by {
        WithoutFilesRemovesExactly(m, dest, {});
        forall q | q in m && !Within(dest, q) ensures !Unwanted(m, dest, {}, q) {
        }
      }
      if DirIn(cleared, temp) {
        var copied := CopiedTree(cleared, temp, dest);
        assert KeepsOutside(cleared, copied, dest) by {
          CopiedTreeMirrors(cleared, temp, dest);
        }
        assert KeepsOutside(m, copied, dest);
        if DirIn(copied, temp) {
          var r := RemovedTree(copied, temp);
          assert KeepsOutside(copied, r, dest) by {
            forall q | !Within(dest, q) ensures !Within(temp, q) {
              if Within(temp, q) {
                assert Within(dest, temp);
                WithinWithin(dest, temp, q);
              }
            }
          }
          assert KeepsOutside(m, r, dest);
        }
      }
    }
  }

  /** Every entry outside `dest` in `m` is still in `r`, unchanged. */
  ghost predicate KeepsOutside(m: map<Path, Node>, r: map<Path, Node>, dest: Path) {
    forall q :: q in m && !Within(dest, q) ==> q in r && r[q] == m[q]
  }

  /** A promotion keeps the destination a folder. */
  lemma PromotedKeepsDest(m: map<Path, Node>, dest: Path)
    requires Promoted(m, dest, dest + ["temp"]).0
    ensures DirIn(Promoted(m, dest, dest + ["temp"]).1, dest)
  {
    var temp := dest + ["temp"];
    if dest != [] {
      var cleared := WithoutFiles(m, dest, {});
      assert dest in cleared && cleared[dest] == Dir;
      var copied := CopiedTree(cleared, temp, dest);
      assert !MirrorOf(cleared, temp, dest, dest);
      assert dest in copied && copied[dest] == Dir;
      assert !Within(temp, dest);
    }
  }

  /** distutils' `copy_tree` only adds and overwrites, and only regular
      files are deleted first, so a folder directly in `dest` that has no
      staged counterpart is still a folder after a promotion. */
  lemma PromotedKeepsFolders(m: map<Path, Node>, dest: Path)
    requires Promoted(m, dest, dest + ["temp"]).0
    ensures var r := Promoted(m, dest, dest + ["temp"]).1;
      forall n :: n != "temp" && dest + [n] in m && m[dest + [n]].Dir? && dest + ["temp", n] !in m ==>
        dest + [n] in r && r[dest + [n]] == Dir
  {
    var temp := dest + ["temp"];
    WithoutFilesRemovesExactly(m, dest, {});
    var cleared := WithoutFiles(m, dest, {});
    var copied := CopiedTree(cleared, temp, dest);
    forall n | n != "temp" && dest + [n] in m && m[dest + [n]].Dir? && dest + ["temp", n] !in m
      ensures dest + [n] in copied && copied[dest + [n]] == Dir && !Within(temp, dest + [n])
    {
      var q := dest + [n];
      assert q[|dest|..] == [n] && temp + [n] == dest + ["temp", n];
      assert !MirrorOf(cleared, temp, dest, q);
      assert q[|dest|] != temp[|dest|];
    }
  }
}
