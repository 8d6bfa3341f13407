/** The NCBI BLAST adapter (brdm/NcbiBlastData.py): the filter over the
    listing page, the readme loop and the rounds of `download`, `unzip`,
    and `update` with its clean, copy and removal of the staging folder. */
module NcbiBlastData {
  import opened Wrappers
  import opened Strings
  import opened FileSystem
  import opened BaseRefData
  import opened AdapterCommon

  // ---------------------------------------------------------------------
  // get_all_file

  /** A name `re.match("(nr|nt)\.\d{2}\.tar\.gz$", name)` accepts: `nr` or
      `nt`, a dot, two digits and `.tar.gz`, from the first character on;
      `$` also matches just before a final newline. */
  predicate IsArchiveName(name: string) {
    && (|name| == 12 || (|name| == 13 && name[12] == '\n'))
    && name[0] == 'n' && (name[1] == 'r' || name[1] == 't') && name[2] == '.'
    && IsAsciiDigit(name[3]) && IsAsciiDigit(name[4])
    && name[5..12] == ".tar.gz"
  }

  /** The names `get_all_file` returns for the link texts of the page in
      order; a link without text (`None`) makes `match` raise, and the
      names found before it are returned. */
  function ArchiveNames(links: seq<Option<string>>): seq<string> {
    if links == [] || links[0].None? then []
    else (if IsArchiveName(links[0].value) then [links[0].value] else []) + ArchiveNames(links[1..])
  }

  /** The loop of `get_all_file` over the links. */
  method GetAllFile(links: seq<Option<string>>) returns (result: seq<string>)
    ensures result == ArchiveNames(links)
  {
    result := [];
    var i := 0;
    while i < |links|
      invariant i <= |links|
      invariant result + ArchiveNames(links[i..]) == ArchiveNames(links)
    {
      assert links[i..][1..] == links[i + 1..];
      if links[i].None? {
        assert result + [] == result;
        return;
      }
      if IsArchiveName(links[i].value) {
        result := result + [links[i].value];
      } else {
        assert result + ([] + ArchiveNames(links[i + 1..])) == result + ArchiveNames(links[i + 1..]);
      }
      i := i + 1;
    }
    assert links[i..] == [];
    assert result + [] == result;
  }

  /** How many links come before the first one without text. */
  function WithText(links: seq<Option<string>>): (n: nat)
    ensures n <= |links|
    ensures forall j :: 0 <= j < n ==> links[j].Some?
    ensures n < |links| ==> links[n].None?
  {
    if links == [] || links[0].None? then 0 else 1 + WithText(links[1..])
  }

  /** The names returned are exactly the archive names among the links
      before the first link without text. */
  lemma {:induction false} ArchiveNamesExact(links: seq<Option<string>>, name: string)
    ensures name in ArchiveNames(links) <==> IsArchiveName(name) && Some(name) in links[..WithText(links)]
  {
    if links != [] && links[0].Some? {
      ArchiveNamesExact(links[1..], name);
      assert links[..WithText(links)] == [links[0]] + links[1..][..WithText(links[1..])];
    }
  }

  /** The names keep the order of the page. */
  lemma {:induction false} ArchiveNamesOrdered(links: seq<Option<string>>)
    ensures var names := ArchiveNames(links);
      exists ks: seq<nat> :: |ks| == |names| && Increasing(ks, links, names)
  {
    if links == [] || links[0].None? {
      assert Increasing([], links, []);
    } else {
      ArchiveNamesOrdered(links[1..]);
      var rest := ArchiveNames(links[1..]);
      var ks: seq<nat> :| |ks| == |rest| && Increasing(ks, links[1..], rest);
      var shifted := Shifted(ks);
      ShiftedIncreasing(ks, links, rest);
      if IsArchiveName(links[0].value) {
        assert Increasing([0] + shifted, links, [links[0].value] + rest) by {
          ConsIncreasing(shifted, links, rest);
        }
      } else {
        assert [] + rest == rest;
      }
    }
  }

  function Shifted(ks: seq<nat>): (r: seq<nat>)
    ensures |r| == |ks| && forall k :: 0 <= k < |ks| ==> r[k] == ks[k] + 1
  {
    seq(|ks|, k requires 0 <= k < |ks| => ks[k] + 1)
  }

  lemma ShiftedIncreasing(ks: seq<nat>, links: seq<Option<string>>, names: seq<string>)
    requires links != [] && |ks| == |names| && Increasing(ks, links[1..], names)
    ensures Increasing(Shifted(ks), links, names)
  {
    var r := Shifted(ks);
    forall k | 0 <= k < |r| ensures r[k] < |links| && links[r[k]] == Some(names[k]) {
      assert links[r[k]] == links[1..][ks[k]];
    }
  }

  lemma ConsIncreasing(ks: seq<nat>, links: seq<Option<string>>, names: seq<string>)
    requires links != [] && links[0].Some? && |ks| == |names| && Increasing(ks, links, names)
    requires forall k :: 0 <= k < |ks| ==> ks[k] > 0
    ensures Increasing([0] + ks, links, [links[0].value] + names)
  {
  }

  /** `ks` picks, in increasing order, the links the names came from. */
  predicate Increasing(ks: seq<nat>, links: seq<Option<string>>, names: seq<string>)
    requires |ks| == |names|
  {
    && (forall k :: 0 <= k < |ks| ==> ks[k] < |links| && links[ks[k]] == Some(names[k]))
    && (forall k, l :: 0 <= k < l < |ks| ==> ks[k] < ks[l])
  }

  // ---------------------------------------------------------------------
  // download

  datatype Net = Net(
    readme: nat -> bool,                        // the readme arrives on attempt `a`
    links: seq<Option<string>>,                 // the link texts of the listing page
    md5Text: (string, nat) -> Option<string>,   // a file's sidecar as `checksum` reads it in round `a`
    data: (string, nat) -> Option<string>,      // the file as `check_md5` reads it in round `a`
    md5: string -> string)                      // the MD5 hex digest (RFC 1321)

  /** Whether `checksum` passes for file `f` in round `a`. */
  predicate Verified(net: Net, f: string, a: nat) {
    FirstTokenChecksum(net.md5Text(f, a), net.data(f, a), net.md5)
  }

  /** The `for file in all_file` pass of round `a` from position `j` on:
      a file already downloaded is skipped, a file whose checksum passes is
      added, and the pass breaks as soon as `target` files are in. */
  function Pass(net: Net, files: seq<string>, a: nat, target: int, j: nat, done: seq<string>): seq<string>
    decreases |files| - j
  {
    if j >= |files| then done
    else
      var done' := if files[j] !in done && Verified(net, files[j], a) then done + [files[j]] else done;
      if |done'| == target then done' else Pass(net, files, a, target, j + 1, done')
  }

  /** `while attempt < max_download_attempts and len(downloaded_file) <
      download_file_number`, from round `a` on. */
  function Rounds(net: Net, files: seq<string>, max: int, target: int, a: nat, done: seq<string>): seq<string>
    decreases max - a
  {
    if a < max && |done| < target then Rounds(net, files, max, target, a + 1, Pass(net, files, a + 1, target, 0, done))
    else done
  }

  /** `download(download_file_number)`: whether it returns `True`, and the
      files it downloaded. */
  function DownloadResult(net: Net, max: int, number: int): (bool, seq<string>) {
    if !exists a :: 1 <= a <= max && net.readme(a) then (false, [])
    else
      var files := ArchiveNames(net.links);
      if |files| == 0 then (false, [])
      else
        var target := if number == 0 then |files| else number;
        var done := Rounds(net, files, max, target, 0, []);
        (|done| >= target, done)
  }

  /** One round: the pass over the listed files. */
  method PassLoop(net: Net, files: seq<string>, a: nat, target: int, done0: seq<string>) returns (done: seq<string>)
    ensures done == Pass(net, files, a, target, 0, done0)
  {
    done := done0;
    var j := 0;
    while j < |files|
      invariant j <= |files|
      invariant Pass(net, files, a, target, 0, done0) == Pass(net, files, a, target, j, done)
    {
      if files[j] !in done {
        var verified := Verified(net, files[j], a);
        if verified {
          done := done + [files[j]];
        }
      }
      if |done| == target {
        return;
      }
      j := j + 1;
    }
  }

  method Download(net: Net, max: int, number: int) returns (ok: bool, done: seq<string>)
    ensures (ok, done) == DownloadResult(net, max, number)
  {
    var readmeOk, _ := RetryUntil(max, net.readme);
    if !readmeOk {
      return false, [];
    }
    var files := GetAllFile(net.links);
    if |files| == 0 {
      return false, [];
    }
    var target := if number == 0 then |files| else number;
    done := RoundsLoop(net, files, max, target);
    ok := |done| >= target;
  }

  /** The rounds `1..max`, stopping early once `target` files are in. */
  method RoundsLoop(net: Net, files: seq<string>, max: int, target: int) returns (done: seq<string>)
    ensures done == Rounds(net, files, max, target, 0, [])
  {
    done := [];
    var attempt := 0;
    while attempt < max && |done| < target
      invariant Rounds(net, files, max, target, 0, []) == Rounds(net, files, max, target, attempt, done)
      decreases max - attempt
    {
      attempt := attempt + 1;
      done := PassLoop(net, files, attempt, target, done);
    }
  }

  /** What a download list keeps: no name twice, every name listed, and
      every name verified in one of the rounds `1..max`. */
  predicate Sound(net: Net, files: seq<string>, max: int, done: seq<string>) {
    && (forall i, j :: 0 <= i < j < |done| ==> done[i] != done[j])
    && (forall k :: 0 <= k < |done| ==> Earned(net, files, max, done[k]))
  }

  /** `name` is listed and its checksum passed in one of the rounds `1..max`. */
  predicate Earned(net: Net, files: seq<string>, max: int, name: string) {
    name in files && exists a :: 1 <= a <= max && Verified(net, name, a)
  }

  lemma {:induction false} PassSound(net: Net, files: seq<string>, max: int, a: nat, target: int, j: nat, done: seq<string>)
    requires 1 <= a <= max
    requires Sound(net, files, max, done)
    ensures Sound(net, files, max, Pass(net, files, a, target, j, done))
    decreases |files| - j
  {
    if j < |files| {
      var done' := if files[j] !in done && Verified(net, files[j], a) then done + [files[j]] else done;
      if done' != done {
        SoundSnoc(net, files, max, a, done, files[j]);
      }
      if |done'| != target {
        PassSound(net, files, max, a, target, j + 1, done');
      }
    }
  }

  /** Adding a new listed name verified in round `a` keeps a list sound. */
  lemma SoundSnoc(net: Net, files: seq<string>, max: int, a: nat, done: seq<string>, x: string)
    requires 1 <= a <= max && Sound(net, files, max, done)
    requires x in files && x !in done && Verified(net, x, a)
    ensures Sound(net, files, max, done + [x])
  {
    var d := done + [x];
    forall k | 0 <= k < |d| ensures Earned(net, files, max, d[k]) {
      if k == |done| {
        assert d[k] == x && 1 <= a <= max && Verified(net, d[k], a);
      } else {
        assert d[k] == done[k];
      }
    }
    forall i, j | 0 <= i < j < |d| ensures d[i] != d[j] {
      if j == |done| {
        assert d[i] == done[i] && done[i] in done;
      } else {
        assert d[i] == done[i] && d[j] == done[j];
      }
    }
  }

  lemma {:induction false} RoundsSound(net: Net, files: seq<string>, max: int, target: int, a: nat, done: seq<string>)
    requires Sound(net, files, max, done)
    ensures Sound(net, files, max, Rounds(net, files, max, target, a, done))
    decreases max - a
  {
    if a < max && |done| < target {
      PassSound(net, files, max, a + 1, target, 0, done);
      RoundsSound(net, files, max, target, a + 1, Pass(net, files, a + 1, target, 0, done));
    }
  }

  /** A pass never overshoots: started below the target it ends at most at
      the target. */
  lemma {:induction false} PassBounded(net: Net, files: seq<string>, a: nat, target: int, j: nat, done: seq<string>)
    requires |done| < target
    ensures |Pass(net, files, a, target, j, done)| <= target
    decreases |files| - j
  {
    if j < |files| {
      var done' := if files[j] !in done && Verified(net, files[j], a) then done + [files[j]] else done;
      if |done'| != target {
        PassBounded(net, files, a, target, j + 1, done');
      }
    }
  }

  lemma {:induction false} RoundsBounded(net: Net, files: seq<string>, max: int, target: int, a: nat, done: seq<string>)
    requires |done| <= target
    ensures |Rounds(net, files, max, target, a, done)| <= target
    decreases max - a
  {
    if a < max && |done| < target {
      PassBounded(net, files, a + 1, target, 0, done);
      RoundsBounded(net, files, max, target, a + 1, Pass(net, files, a + 1, target, 0, done));
    }
  }

  /** `download` returns `True` only with the readme and exactly `target`
      distinct listed files whose checksum passed in some round, where the
      target is the whole list for `download_file_number == 0`; it returns
      `False` with no readme or an empty list. */
  lemma DownloadOutcome(net: Net, max: int, number: int)
    ensures var r := DownloadResult(net, max, number);
      var files := ArchiveNames(net.links);
      var target := if number == 0 then |files| else number;
      && Sound(net, files, max, r.1)
      && (r.0 ==> (exists a :: 1 <= a <= max && net.readme(a)) && files != []
                  && |r.1| == (if target < 0 then 0 else target))
      && ((!exists a :: 1 <= a <= max && net.readme(a)) || files == [] ==> !r.0)
  {
    var files := ArchiveNames(net.links);
    if (exists a :: 1 <= a <= max && net.readme(a)) && files != [] {
      var target := if number == 0 then |files| else number;
      RoundsSound(net, files, max, target, 0, []);
      if target >= 0 {
        RoundsBounded(net, files, max, target, 0, []);
      }
    }
  }

  // ---------------------------------------------------------------------
  // unzip

  /** `unzip()` over the regular files of the folder in listing order:
      `True` when every one unpacks; otherwise it stops at the first that
      does not, after trying `tried + 1` of them. */
  method Unzip(names: seq<string>, extracts: string -> bool) returns (ok: bool, tried: nat)
    ensures ok <==> forall k :: 0 <= k < |names| ==> UnzipFile(names[k], extracts(names[k]))
    ensures ok ==> tried == |names|
    ensures !ok ==> tried < |names| && !UnzipFile(names[tried], extracts(names[tried]))
    ensures forall k :: 0 <= k < tried ==> UnzipFile(names[k], extracts(names[k]))
  {
    tried := 0;
    while tried < |names|
      invariant tried <= |names|
      invariant forall k :: 0 <= k < tried ==> UnzipFile(names[k], extracts(names[k]))
    {
      var unzipped := UnzipFile(names[tried], extracts(names[tried]));
      if !unzipped {
        return false, tried;
      }
      tried := tried + 1;
    }
    ok := true;
  }

  // ---------------------------------------------------------------------
  // update

  /** `clean_destination_dir(dest)`, `copy_tree(temp, dest)` and
      `shutil.rmtree(temp)`: whether all three succeed, and the tree after
      the last one that ran. */
  function InstallResult(m: map<Path, Node>, dest: Path): (bool, map<Path, Node>) {
    var temp := dest + ["temp"];
    if !DirIn(m, dest) then (false, m)
    else
      var cleaned := Cleaned(m, dest);
      if !(temp in cleaned && cleaned[temp].Dir?) then (false, cleaned)
      else
        var copied := CopiedTree(cleaned, temp, dest);
        if !(temp in copied && copied[temp].Dir?) then (false, copied)
        else (true, RemovedTree(copied, temp))
  }

  method Install(fs: FileSystem, dest: Path) returns (ok: bool)
    modifies fs
    ensures (ok, fs.nodes) == InstallResult(old(fs.nodes), dest)
  {
    ok := CleanDestinationDir(fs, dest);
    if !ok {
      return;
    }
    var temp := dest + ["temp"];
    ok := CopyTree(fs, temp, dest);
    if !ok {
      return;
    }
    ok := fs.RemoveTree(temp);
  }

  /** After a successful install the top level of the destination is the
      staging folder's: a name other than `temp` is there exactly when it
      was in the staging folder, with the same entry; the staging folder is
      gone and nothing outside the destination has changed. */
  lemma InstalledTop(m: map<Path, Node>, dest: Path)
    requires InstallResult(m, dest).0
    ensures var r := InstallResult(m, dest).1;
      var temp := dest + ["temp"];
      && temp !in r
      && (forall n :: n != "temp" ==> (dest + [n] in r <==> temp + [n] in m))
      && (forall n :: n != "temp" && dest + [n] in r ==> r[dest + [n]] == m[temp + [n]])
      && (forall q :: q in m && !Within(dest, q) ==> q in r && r[q] == m[q])
  {
    var temp := dest + ["temp"];
    var cleaned := Cleaned(m, dest);
    var copied := CopiedTree(cleaned, temp, dest);
    assert InstallResult(m, dest).1 == RemovedTree(copied, temp);
    assert forall q :: q in cleaned ==> q in m && cleaned[q] == m[q];
    assert temp in m && m[temp] == Dir;
    CleanedSparesOnlyTemp(m, dest);
    CopiedTreeMirrors(cleaned, temp, dest);
    InstalledTopOf(m, cleaned, copied, RemovedTree(copied, temp), dest);
  }

  /** `InstalledTop` over the three trees of the install: after cleaning,
      after the copy, after the removal of the staging folder. */
  lemma InstalledTopOf(m: map<Path, Node>, cleaned: map<Path, Node>, copied: map<Path, Node>, r: map<Path, Node>, dest: Path)
    requires dest + ["temp"] in m && m[dest + ["temp"]] == Dir
    requires forall q :: q in cleaned ==> q in m && cleaned[q] == m[q]
    requires forall n :: dest + [n] in cleaned ==> n == "temp"
    requires forall q :: q in m && !Within(dest, q) ==> q in cleaned && cleaned[q] == m[q]
    requires forall q :: q in m && Within(dest + ["temp"], q) ==> q in cleaned && cleaned[q] == m[q]
    requires forall p :: p in cleaned && |p| > |dest + ["temp"]| && p[..|dest + ["temp"]|] == dest + ["temp"] ==>
               dest + p[|dest + ["temp"]|..] in copied && copied[dest + p[|dest + ["temp"]|..]] == cleaned[p]
    requires forall q :: q in cleaned && !Within(dest, q) ==> q in copied && copied[q] == cleaned[q]
    requires forall q :: q in copied ==> q in cleaned || MirrorOf(cleaned, dest + ["temp"], dest, q)
    requires forall q :: q in r <==> q in copied && !Within(dest + ["temp"], q)
    requires forall q :: q in r ==> r[q] == copied[q]
    ensures var temp := dest + ["temp"];
      && temp !in r
      && (forall n :: n != "temp" ==> (dest + [n] in r <==> temp + [n] in m))
      && (forall n :: n != "temp" && dest + [n] in r ==> r[dest + [n]] == m[temp + [n]])
      && (forall q :: q in m && !Within(dest, q) ==> q in r && r[q] == m[q])
  {
    var temp := dest + ["temp"];
    assert Within(temp, temp);
    forall n | n != "temp" ensures (dest + [n] in r <==> temp + [n] in m) {
      var q := dest + [n];
      assert !Within(temp, q) by {
        assert q[|dest|] != temp[|dest|];
      }
      var p := temp + [n];
      assert p[..|temp|] == temp;
      assert temp + p[|temp|..] == p;
      assert dest + p[|temp|..] == q;
      if q in copied && q !in cleaned {
        assert MirrorOf(cleaned, temp, dest, q);
        assert q[|dest|..] == [n];
      }
      if p in m {
        assert Within(temp, p);
      }
    }
    forall n | n != "temp" && dest + [n] in r ensures r[dest + [n]] == m[temp + [n]] {
      var q := dest + [n];
      var p := temp + [n];
      assert p[..|temp|] == temp;
      assert dest + p[|temp|..] == q;
      assert Within(temp, p);
    }
    forall q | q in m && !Within(dest, q) ensures q in r && r[q] == m[q] {
      assert !Within(temp, q);
    }
  }

  /** The comment `download` writes into the README+ manifest. */
  const Comment: string := "This folder contains a reference blast database (nr and nt datasets) downloaded from NCBI."

  /** The end of `download` and the rest of `update` once the staging
      folder holds the archives: the README+ manifest `text` and the
      backup of the two readmes, then the install. */
  function PublishResult(m: map<Path, Node>, dest: Path, backupDir: Path, today: string, readme: string, info: string,
                         text: string): (bool, map<Path, Node>) {
    var b := ReadmeBackedUp(m, dest, backupDir, today, readme, info, text);
    if !b.0 then b else InstallResult(b.1, dest)
  }

  /** Nothing outside the staging folder and the dated backup folder has
      changed from `m` to `r`. */
  predicate UnchangedOutside(m: map<Path, Node>, r: map<Path, Node>, dest: Path, backupDir: Path, today: string) {
    forall q :: q in m && Outside(dest, backupDir, today, q) ==> q in r && r[q] == m[q]
  }

  /** What `update` promises when it answers `True`, from the tree `m`
      before it and the archives `staged`: the staging folder is gone; each
      entry staged directly in it (but the manifest, and what the dated
      backup folder covers) is now directly in the destination; in a
      well-formed tree every regular file directly in the destination was
      staged or is the manifest; the destination holds the manifest `text`;
      nothing outside the destination and the backup folder has changed. */
  ghost predicate InstalledFrom(r: map<Path, Node>, m: map<Path, Node>, staged: map<Path, Node>, dest: Path,
                                backupDir: Path, today: string, readme: string, text: string) {
    var temp := dest + ["temp"];
    var d := backupDir + [today];
    && temp !in r
    && (forall n :: n != "temp" && n != readme && temp + [n] in staged && !Within(d, temp + [n]) ==>
          dest + [n] in r && r[dest + [n]] == staged[temp + [n]])
    && (WellFormed(m) ==>
          forall n :: n != "temp" && dest + [n] in r && r[dest + [n]].File? && !Within(d, temp + [n]) ==>
            n == readme || temp + [n] in staged)
    && (readme != "temp" && !Within(d, temp + [readme]) ==> dest + [readme] in r && r[dest + [readme]] == File(text))
    && (forall q :: q in m && !Within(dest, q) && !Within(d, q) ==> q in r && r[q] == m[q])
  }

  /** `update()`.  A failed `create_tmp_dir` is logged with the name `e`,
      which `update` never binds, so it raises `NameError`.  `staged` is
      what the downloads leave in the staging folder.  Every outcome is
      given as a tree; a failure before the destination is cleaned changes
      nothing outside the staging and dated backup folders. */
  method Update(fs: FileSystem, dest: Path, backupDir: Path, today: string, readme: string, info: string,
                net: Net, max: int, number: int,
                staged: map<Path, Node>, now: string, url: string, elapsed: Elapsed)
    returns (r: Exit)
    requires forall q :: q in staged ==> Within(dest + ["temp"], q) && q != dest + ["temp"]
    modifies fs
    ensures var made := Recreate(old(fs.nodes), dest + ["temp"]);
      var got := DownloadResult(net, max, number);
      var p := PublishResult(made.1 + staged, dest, backupDir, today, readme, info, ReadmeText(Comment, now, url, elapsed, got.1, []));
      && (!made.0 ==> r == Raise && fs.nodes == made.1)
      && (made.0 && !got.0 ==> r == Return(false) && fs.nodes == made.1 + staged)
      && (made.0 && got.0 ==> r == Return(p.0) && fs.nodes == p.1)
    ensures var made := Recreate(old(fs.nodes), dest + ["temp"]);
      var got := DownloadResult(net, max, number);
      r == Raise || !got.0 || !ReadmeBackedUp(made.1 + staged, dest, backupDir, today, readme, info, ReadmeText(Comment, now, url, elapsed, got.1, [])).0 ==>
        UnchangedOutside(old(fs.nodes), fs.nodes, dest, backupDir, today)
    ensures r == Return(true) ==>
      InstalledFrom(fs.nodes, old(fs.nodes), staged, dest, backupDir, today, readme,
                    ReadmeText(Comment, now, url, elapsed, DownloadResult(net, max, number).1, []))
  {
    ghost var m0 := fs.nodes;
    var temp := CreateTmpDir(fs, dest);
    RecreateFrame(m0, dest + ["temp"]);
    if temp.None? {
      return Raise;
    }
    var downloaded, done := Download(net, max, number);
    fs.nodes := fs.nodes + staged;
    if !downloaded {
      return Return(false);
    }
    r := Publish(fs, dest, backupDir, today, readme, info, done, now, url, elapsed);
    var text := ReadmeText(Comment, now, url, elapsed, done, []);
    if !ReadmeBackedUp(Recreate(m0, dest + ["temp"]).1 + staged, dest, backupDir, today, readme, info, text).0 {
      FailedBeforeInstall(m0, staged, dest, backupDir, today, readme, info, text);
    } else if r == Return(true) {
      InstalledAfterUpdate(m0, staged, dest, backupDir, today, readme, info, text);
    }
  }

  /** A failed backup, after the staging folder was recreated and the
      download landed, leaves everything outside the staging and backup
      folders as it was. */
  lemma FailedBeforeInstall(m: map<Path, Node>, staged: map<Path, Node>, dest: Path, backupDir: Path, today: string,
                            readme: string, info: string, text: string)
    requires forall q :: q in staged ==> Within(dest + ["temp"], q)
    requires !ReadmeBackedUp(Recreate(m, dest + ["temp"]).1 + staged, dest, backupDir, today, readme, info, text).0
    ensures UnchangedOutside(m, PublishResult(Recreate(m, dest + ["temp"]).1 + staged, dest, backupDir, today, readme, info, text).1,
                             dest, backupDir, today)
  {
    var m1 := Recreate(m, dest + ["temp"]).1 + staged;
    RecreateFrame(m, dest + ["temp"]);
    PublishFailFrame(m1, dest, backupDir, today, readme, info, text);
  }

  /** A successful end of `update`, after the staging folder was recreated
      and the download landed, keeps the promise `InstalledFrom` states. */
  lemma InstalledAfterUpdate(m: map<Path, Node>, staged: map<Path, Node>, dest: Path, backupDir: Path, today: string,
                             readme: string, info: string, text: string)
    requires forall q :: q in staged ==> Within(dest + ["temp"], q) && q != dest + ["temp"]
    requires Recreate(m, dest + ["temp"]).0
    requires PublishResult(Recreate(m, dest + ["temp"]).1 + staged, dest, backupDir, today, readme, info, text).0
    ensures InstalledFrom(PublishResult(Recreate(m, dest + ["temp"]).1 + staged, dest, backupDir, today, readme, info, text).1,
                          m, staged, dest, backupDir, today, readme, text)
  {
    var temp := dest + ["temp"];
    var m1 := Recreate(m, temp).1 + staged;
    var r := PublishResult(m1, dest, backupDir, today, readme, info, text).1;
    PublishedTop(m1, dest, backupDir, today, readme, info, text);
    StagedDir(m, staged, dest);
    if readme != "temp" && !Within(backupDir + [today], temp + [readme]) {
      PublishedManifest(m1, dest, backupDir, today, readme, info, text);
    }
    if WellFormed(m) {
      StagedOnly(m, staged, dest);
    }
    KeptBeyond(m, m1, r, dest, backupDir + [today]);
  }

  /** What lies outside the destination and the backup folder survives
      the recreation of the staging folder and the end of `update`. */
  lemma KeptBeyond(m: map<Path, Node>, m1: map<Path, Node>, r: map<Path, Node>, dest: Path, d: Path)
    requires forall q :: q in m && !Within(dest + ["temp"], q) ==> q in m1 && m1[q] == m[q]
    requires forall q :: q in m1 && !Within(dest, q) && !Within(d, q) ==> q in r && r[q] == m1[q]
    ensures forall q :: q in m && !Within(dest, q) && !Within(d, q) ==> q in r && r[q] == m[q]
  {
    var temp := dest + ["temp"];
    assert Within(dest, temp);
    forall q | q in m && !Within(dest, q) ensures !Within(temp, q) {
      if Within(temp, q) {
        WithinWithin(dest, temp, q);
      }
    }
  }

  /** After the staging folder is recreated and the download lands in it,
      the staging folder is a folder. */
  lemma StagedDir(m: map<Path, Node>, staged: map<Path, Node>, dest: Path)
    requires forall q :: q in staged ==> q != dest + ["temp"]
    requires Recreate(m, dest + ["temp"]).0
    ensures DirIn(Recreate(m, dest + ["temp"]).1 + staged, dest + ["temp"])
  {
    var temp := dest + ["temp"];
    assert temp[..|temp|] == temp;
    assert temp in Prefixes(temp);
  }

  /** In a well-formed tree, what lies directly in the recreated staging
      folder after the download is what was downloaded. */
  lemma StagedOnly(m: map<Path, Node>, staged: map<Path, Node>, dest: Path)
    requires WellFormed(m) && Recreate(m, dest + ["temp"]).0
    ensures forall n :: dest + ["temp"] + [n] in Recreate(m, dest + ["temp"]).1 + staged ==> dest + ["temp"] + [n] in staged
  {
    var temp := dest + ["temp"];
    RecreateGivesEmptyDir(m, temp);
    forall n | temp + [n] in Recreate(m, temp).1 ensures false {
      assert Within(temp, temp + [n]);
    }
  }

  /** The end of `download` and the rest of `update`: the README+ manifest
      goes into the staging folder, the two readmes are backed up, and the
      staging folder is installed. */
  method Publish(fs: FileSystem, dest: Path, backupDir: Path, today: string, readme: string, info: string,
                 done: seq<string>, now: string, url: string, elapsed: Elapsed)
    returns (r: Exit)
    modifies fs
    ensures var p := PublishResult(old(fs.nodes), dest, backupDir, today, readme, info, ReadmeText(Comment, now, url, elapsed, done, []));
      r == Return(p.0) && fs.nodes == p.1
  {
    var backedUp := ReadmeAndBackup(fs, dest, backupDir, today, readme, info, Comment, done, now, url, elapsed);
    if !backedUp {
      return Return(false);
    }
    var installed := Install(fs, dest);
    r := Return(installed);
  }

  /** A failed backup of the readmes is `False` and changes nothing outside
      the staging and dated backup folders. */
  lemma PublishFailFrame(m: map<Path, Node>, dest: Path, backupDir: Path, today: string, readme: string, info: string,
                         text: string)
    requires !ReadmeBackedUp(m, dest, backupDir, today, readme, info, text).0
    ensures var r := PublishResult(m, dest, backupDir, today, readme, info, text);
      && !r.0
      && forall q :: q in m && Outside(dest, backupDir, today, q) ==> q in r.1 && r.1[q] == m[q]
  {
    var temp := dest + ["temp"];
    ReadmeBackedUpKeeps(m, dest, backupDir, today, readme, info, text);
    ManifestedOnly(m, temp, readme, text);
    assert Within(temp, temp + [readme]) by {
      assert (temp + [readme])[..|temp|] == temp;
    }
  }

  /** After a successful end of `update` the staging folder is gone; each
      entry staged directly in it (but the manifest, and what the dated
      backup folder covers) is now directly in the destination; every
      regular file directly in the destination was staged or is the
      manifest; and nothing outside the destination and the backup folder
      has changed. */
  lemma PublishedTop(m: map<Path, Node>, dest: Path, backupDir: Path, today: string, readme: string, info: string,
                     text: string)
    requires PublishResult(m, dest, backupDir, today, readme, info, text).0
    ensures var r := PublishResult(m, dest, backupDir, today, readme, info, text).1;
      var temp := dest + ["temp"];
      var d := backupDir + [today];
      && temp !in r
      && (forall n :: n != "temp" && n != readme && temp + [n] in m && !Within(d, temp + [n]) ==>
            dest + [n] in r && r[dest + [n]] == m[temp + [n]])
      && (forall n :: n != "temp" && dest + [n] in r && r[dest + [n]].File? && !Within(d, temp + [n]) ==>
            n == readme || temp + [n] in m)
      && (forall q :: q in m && !Within(dest, q) && !Within(d, q) ==> q in r && r[q] == m[q])
  {
    var temp := dest + ["temp"];
    var staging := ReadmeBackedUp(m, dest, backupDir, today, readme, info, text).1;
    InstalledTop(staging, dest);
    ReadmeBackedUpKeeps(m, dest, backupDir, today, readme, info, text);
    ManifestedOnly(m, temp, readme, text);
    forall n | n != "temp" && temp + [n] == temp + [readme] ensures n == readme {
      assert (temp + [n])[|temp|] == n;
    }
    forall q | q in m && !Within(dest, q) ensures q != temp + [readme] {
      assert (temp + [readme])[..|dest|] == dest;
    }
  }

  /** After a successful end of `update` the destination holds the manifest
      `text`, when the staging folder was a folder. */
  lemma PublishedManifest(m: map<Path, Node>, dest: Path, backupDir: Path, today: string, readme: string, info: string,
                          text: string)
    requires PublishResult(m, dest, backupDir, today, readme, info, text).0
    requires readme != "temp" && DirIn(m, dest + ["temp"]) && !Within(backupDir + [today], dest + ["temp"] + [readme])
    ensures var r := PublishResult(m, dest, backupDir, today, readme, info, text).1;
      dest + [readme] in r && r[dest + [readme]] == File(text)
  {
    var staging := ReadmeBackedUp(m, dest, backupDir, today, readme, info, text).1;
    InstalledTop(staging, dest);
    PublishedReadme(m, dest, backupDir, today, readme, info, text);
  }

  /** A successful backup copied the manifest, so the manifest was written. */
  lemma PublishedReadme(m: map<Path, Node>, dest: Path, backupDir: Path, today: string, readme: string, info: string,
                        text: string)
    requires ReadmeBackedUp(m, dest, backupDir, today, readme, info, text).0
    requires DirIn(m, dest + ["temp"]) && !Within(backupDir + [today], dest + ["temp"] + [readme])
    ensures var r := ReadmeBackedUp(m, dest, backupDir, today, readme, info, text).1;
      dest + ["temp"] + [readme] in r && r[dest + ["temp"] + [readme]] == File(text)
  {
    var temp := dest + ["temp"];
    var d := backupDir + [today];
    var w := Manifested(m, temp, readme, text);
    var made := Recreate(w, d);
    ReadmeBackedUpKeeps(m, dest, backupDir, today, readme, info, text);
    assert made.0;
    assert temp + [readme] in made.1 && made.1[temp + [readme]].File?;
    RecreateFrame(w, d);
    assert !DirIn(m, temp + [readme]);
  }
}
