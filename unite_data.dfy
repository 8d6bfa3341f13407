/** The UNITE adapter (brdm/UniteData.py): the `dir | name` entries of its
    configuration, the attempt loops of `download` with the folders they
    create, the copies and the folder surgery of `backup`, and the
    sequencing of `update`.  `restore` does nothing. */
module UniteData {
  import opened Wrappers
  import opened Strings
  import opened FileSystem
  import opened BaseRefData
  import opened AdapterCommon

  // ---------------------------------------------------------------------
  // Configuration entries

  /** `entry.split("|")[0].strip()` and `entry.split("|")[1].strip()`: the
      folder (empty for none) and the file name of a `download_file` or
      `info_file_name` entry; `None` when the entry has no `|` and the
      second index raises `IndexError`.  Fields after a second `|` are
      ignored. */
  function EntryFields(entry: string): Option<(string, string)> {
    var parts := Split(entry, "|");
    if |parts| < 2 then None else Some((Strip(parts[0]), Strip(parts[1])))
  }

  /** An entry written `dir | name`, or ` | name` for no folder, gives its
      folder and name back. */
  lemma EntryFieldsReadBack(dir: string, name: string)
    requires '|' !in dir && '|' !in name
    requires dir == "" || (!IsSpace(dir[0]) && !IsSpace(dir[|dir| - 1]))
    requires name != "" && !IsSpace(name[0]) && !IsSpace(name[|name| - 1])
    ensures EntryFields(dir + " | " + name) == Some((dir, name))
  {
    var x, y := dir + " ", " " + name;
    assert dir + " | " + name == x + "|" + y;
    SplitPair(x, y);
    assert Strip(y) == name by {
      StripPadded(name);
    }
    assert Strip(x) == dir by {
      if dir == "" {
        assert LeadSpaces(" ") == 1;
      } else {
        StripPadded(dir);
      }
    }
  }

  /** `(x + "|" + y).split("|")` for two pieces without `|`. */
  lemma SplitPair(x: string, y: string)
    requires '|' !in x && '|' !in y
    ensures Split(x + "|" + y, "|") == [x, y]
  {
    assert [x, y][1..] == [y];
    assert Join([x, y], "|") == x + "|" + y;
    SplitJoin([x, y], "|");
  }

  /** An entry without `|` has no fields. */
  lemma EntryWithoutBar(entry: string)
    requires '|' !in entry
    ensures EntryFields(entry) == None
  {
    SplitJoin([entry], "|");
  }

  // ---------------------------------------------------------------------
  // download

  datatype Net = Net(
    fetches: (string, nat) -> bool,    // `download_a_file(name, url)` on attempt `a`
    extracts: (string, nat) -> bool)   // unpacking the file succeeds after attempt `a`

  /** Attempt `a` at file `name` gets it and unpacks it. */
  predicate Fetched(net: Net, name: string, a: nat) {
    net.fetches(name, a) && UnzipFile(name, net.extracts(name, a))
  }

  /** Some attempt at `name` within the bound gets it and unpacks it. */
  predicate Passes(net: Net, max: int, name: string) {
    exists a :: 1 <= a <= max && Fetched(net, name, a)
  }

  /** One attempt as written, in the working folder `here`: with a folder,
      `os.makedirs(file_dir)` comes first and raises when the folder (or a
      regular file of that name) exists, which the attempt loop catches;
      then the download and, when it succeeds, the unpacking.  The result
      is `completed` and the tree. */
  function AttemptAsWritten(m: map<Path, Node>, here: Path, net: Net, dir: string, name: string, a: nat)
    : (bool, map<Path, Node>)
  {
    if dir == "" then (Fetched(net, name, a), m)
    else if !CanMakeDirs(m, here + [dir]) then (false, m)
    else (Fetched(net, name, a), WithDirs(m, here + [dir]))
  }

  /** `while attempt < max_download_attempts and not completed` as written,
      from attempt `a` on. */
  function AttemptsAsWritten(m: map<Path, Node>, here: Path, net: Net, max: int, dir: string, name: string, a: nat)
    : (bool, map<Path, Node>)
    decreases max - a
  {
    if a >= max then (false, m)
    else
      var s := AttemptAsWritten(m, here, net, dir, name, a + 1);
      if s.0 then s else AttemptsAsWritten(s.1, here, net, max, dir, name, a + 1)
  }

  /** Once `os.makedirs` of the folder raises, it raises on every later
      attempt as written, and nothing changes. */
  lemma {:induction false} AsWrittenStuck(m: map<Path, Node>, here: Path, net: Net, max: int, dir: string, name: string, a: nat)
    requires dir != "" && !CanMakeDirs(m, here + [dir])
    ensures AttemptsAsWritten(m, here, net, max, dir, name, a) == (false, m)
    decreases max - a
  {
    if a < max {
      AsWrittenStuck(m, here, net, max, dir, name, a + 1);
    }
  }

  /** As written, a file with a folder completes exactly when its first
      attempt does: every retry raises in `os.makedirs` on the folder the
      first attempt made. */
  lemma OnlyFirstAttemptCounts(m: map<Path, Node>, here: Path, net: Net, max: int, dir: string, name: string)
    requires dir != ""
    ensures AttemptsAsWritten(m, here, net, max, dir, name, 0).0
      <==> 1 <= max && CanMakeDirs(m, here + [dir]) && Fetched(net, name, 1)
  {
    if 0 < max {
      var s := AttemptAsWritten(m, here, net, dir, name, 1);
      if !s.0 {
        if CanMakeDirs(m, here + [dir]) {
          assert here + [dir] in Prefixes(here + [dir]) by {
            assert (here + [dir])[..|here + [dir]|] == here + [dir];
          }
        }
        AsWrittenStuck(s.1, here, net, max, dir, name, 1);
      }
    }
  }

  /** The folder of an entry can be worked in: there is none, it is a
      directory already, or `os.makedirs` can make it. */
  predicate FolderUsable(m: map<Path, Node>, here: Path, dir: string) {
    dir == "" || DirIn(m, here + [dir]) || CanMakeDirs(m, here + [dir])
  }

  /** The tree once the folder of an entry exists. */
  function WithFolder(m: map<Path, Node>, here: Path, dir: string): map<Path, Node> {
    if dir != "" && !DirIn(m, here + [dir]) && CanMakeDirs(m, here + [dir]) then WithDirs(m, here + [dir]) else m
  }

  /** One attempt with the folder made only when missing
      (`os.makedirs(file_dir, exist_ok=True)`). */
  function Attempt(m: map<Path, Node>, here: Path, net: Net, dir: string, name: string, a: nat)
    : (bool, map<Path, Node>)
  {
    if !FolderUsable(m, here, dir) then (false, m)
    else (Fetched(net, name, a), WithFolder(m, here, dir))
  }

  /** The attempt loop for one entry from attempt `a` on, each attempt as
      `Attempt`. */
  function Attempts(m: map<Path, Node>, here: Path, net: Net, max: int, dir: string, name: string, a: nat)
    : (bool, map<Path, Node>)
    decreases max - a
  {
    if a >= max then (false, m)
    else
      var s := Attempt(m, here, net, dir, name, a + 1);
      if s.0 then s else Attempts(s.1, here, net, max, dir, name, a + 1)
  }

  /** With the folder made only when missing, an entry completes exactly
      when its folder can be worked in and one of its attempts within the
      bound gets and unpacks the file; the folder is there afterwards once
      any attempt has been made. */
  lemma {:induction false} AttemptsOutcome(m: map<Path, Node>, here: Path, net: Net, max: int, dir: string, name: string, a: nat)
    ensures var r := Attempts(m, here, net, max, dir, name, a);
      && (r.0 <==> FolderUsable(m, here, dir) && exists k :: a < k <= max && Fetched(net, name, k))
      && r.1 == if a < max then WithFolder(m, here, dir) else m
    decreases max - a
  {
    if a < max {
      var s := Attempt(m, here, net, dir, name, a + 1);
      AttemptsOutcome(s.1, here, net, max, dir, name, a + 1);
      if FolderUsable(m, here, dir) {
        FolderMade(m, here, dir);
      }
    }
  }

  /** Once made, the folder stays usable and is not made again. */
  lemma FolderMade(m: map<Path, Node>, here: Path, dir: string)
    requires FolderUsable(m, here, dir)
    ensures FolderUsable(WithFolder(m, here, dir), here, dir)
    ensures WithFolder(WithFolder(m, here, dir), here, dir) == WithFolder(m, here, dir)
  {
    if dir != "" && !DirIn(m, here + [dir]) {
      assert here + [dir] in Prefixes(here + [dir]) by {
        assert (here + [dir])[..|here + [dir]|] == here + [dir];
      }
    }
  }

  /** A retry that the folder made by the first attempt no longer stops:
      the first attempt fails and the second succeeds.  As written the file
      never completes; with the folder made only when missing it does. */
  lemma RetryInFolder(m: map<Path, Node>, here: Path, net: Net, dir: string, name: string)
    requires dir != "" && CanMakeDirs(m, here + [dir])
    requires !Fetched(net, name, 1) && Fetched(net, name, 2)
    ensures !AttemptsAsWritten(m, here, net, 2, dir, name, 0).0
    ensures Attempts(m, here, net, 2, dir, name, 0).0
  {
    OnlyFirstAttemptCounts(m, here, net, 2, dir, name);
    AttemptsOutcome(m, here, net, 2, dir, name, 0);
  }

  /** As written, an entry without a folder retries until some attempt
      within the bound gets and unpacks the file, and changes nothing. */
  lemma {:induction false} NoFolderAsWritten(m: map<Path, Node>, here: Path, net: Net, max: int, name: string, a: nat)
    ensures AttemptsAsWritten(m, here, net, max, "", name, a) == (exists k :: a < k <= max && Fetched(net, name, k), m)
    decreases max - a
  {
    if a < max {
      NoFolderAsWritten(m, here, net, max, name, a + 1);
      if !Fetched(net, name, a + 1) {
        assert (exists k :: a < k <= max && Fetched(net, name, k)) <==> (exists k :: a + 1 < k <= max && Fetched(net, name, k));
      }
    }
  }

  /** The attempt loop of one entry as written, for every input: without
      a folder it completes exactly when some attempt passes; with one it
      completes exactly when the bound allows an attempt, `os.makedirs`
      can make the folder and the first attempt passes, and the folder is
      made whenever `os.makedirs` can make it. */
  lemma AsWrittenOutcome(m: map<Path, Node>, here: Path, net: Net, max: int, dir: string, name: string)
    ensures AttemptsAsWritten(m, here, net, max, dir, name, 0) ==
      if dir == "" then (Passes(net, max, name), m)
      else if 1 <= max && CanMakeDirs(m, here + [dir]) then (Fetched(net, name, 1), WithDirs(m, here + [dir]))
      else (false, m)
  {
    if dir == "" {
      NoFolderAsWritten(m, here, net, max, name, 0);
    } else if 1 <= max && CanMakeDirs(m, here + [dir]) {
      var w := WithDirs(m, here + [dir]);
      assert here + [dir] in Prefixes(here + [dir]) by {
        assert (here + [dir])[..|here + [dir]|] == here + [dir];
      }
      AsWrittenStuck(w, here, net, max, dir, name, 1);
    } else if !CanMakeDirs(m, here + [dir]) {
      AsWrittenStuck(m, here, net, max, dir, name, 0);
    }
  }

  /** Making the folder `a` in `here` leaves `os.makedirs` able to make any
      other folder there exactly when it was before, and unable to make
      `a` again. */
  lemma MakeDirsElsewhere(m: map<Path, Node>, here: Path, a: string, b: string)
    ensures a != b ==> (CanMakeDirs(WithDirs(m, here + [a]), here + [b]) <==> CanMakeDirs(m, here + [b]))
    ensures !CanMakeDirs(WithDirs(m, here + [a]), here + [a])
  {
    var pa := here + [a];
    var pb := here + [b];
    var w := WithDirs(m, pa);
    assert pa in Prefixes(pa) by {
      assert pa[..|pa|] == pa;
    }
    if a != b {
      forall k | 0 < k <= |pa| ensures pa[..k] != pb {
        if k == |pa| {
          assert pa[..k][|here|] == a;
        }
      }
      forall j | 0 < j < |pb| ensures pb[..j] in w <==> pb[..j] in m || pb[..j] in Prefixes(pa) {
      }
      forall j | 0 < j < |pb| && pb[..j] in w && pb[..j] !in m ensures w[pb[..j]].Dir? {
      }
    }
  }

  /** The attempt loop for one entry, in the working folder `here`. */
  method FileLoop(fs: FileSystem, here: Path, net: Net, max: int, dir: string, name: string)
    returns (completed: bool)
    modifies fs
    ensures (completed, fs.nodes) == Attempts(old(fs.nodes), here, net, max, dir, name, 0)
  {
    var attempt := 0;
    completed := false;
    while attempt < max && !completed
      invariant attempt == 0 || attempt <= max
      invariant completed ==> (true, fs.nodes) == Attempts(old(fs.nodes), here, net, max, dir, name, 0)
      invariant !completed ==>
        Attempts(old(fs.nodes), here, net, max, dir, name, 0) == Attempts(fs.nodes, here, net, max, dir, name, attempt)
      decreases max - attempt
    {
      attempt := attempt + 1;
      if dir != "" {
        var folder := here + [dir];
        if !fs.IsDir(folder) {
          var made := fs.MakeDirs(folder);
          if !made {
            continue;
          }
        }
      }
      completed := Fetched(net, name, attempt);
    }
  }

  /** Making the folder of one entry changes for no other entry whether
      its folder can be worked in. */
  lemma UsableKept(m: map<Path, Node>, here: Path, made: string)
    requires FolderUsable(m, here, made)
    ensures forall dir :: FolderUsable(WithFolder(m, here, made), here, dir) <==> FolderUsable(m, here, dir)
  {
    var w := WithFolder(m, here, made);
    forall dir ensures FolderUsable(w, here, dir) <==> FolderUsable(m, here, dir) {
      if dir != "" && w != m {
        var p := here + [dir];
        var f := here + [made];
        if p !in m && p in w {
          assert p in Prefixes(f);
          var k :| 0 < k <= |f| && p == f[..k];
          forall j | 0 < j < |p| ensures p[..j] !in m || m[p[..j]].Dir? {
            assert p[..j] == f[..j];
          }
        }
        if CanMakeDirs(m, p) && p in w {
          assert w[p] == Dir;
        }
        if CanMakeDirs(w, p) {
          forall j | 0 < j < |p| ensures p[..j] !in m || m[p[..j]].Dir? {
            if p[..j] in m {
              assert w[p[..j]] == m[p[..j]];
            }
          }
        }
      }
    }
  }

  /** The loop over `download_file` from entry `k` on, with the names
      completed so far: an entry without `|` raises out of `download`, a
      file that never completes makes it return `False`, and each
      completed name is appended.  The result is the outcome, the names and
      the tree. */
  function DownloadFrom(parse: string -> Option<(string, string)>, m: map<Path, Node>, here: Path, net: Net, max: int, entries: seq<string>,
                        k: nat, done: seq<string>): (Exit, seq<string>, map<Path, Node>)
    decreases |entries| - k
  {
    if k >= |entries| then (Return(true), done, m)
    else match parse(entries[k])
      case None => (Raise, done, m)
      case Some(fields) =>
        var s := Attempts(m, here, net, max, fields.0, fields.1, 0);
        if !s.0 then (Return(false), done, s.1)
        else DownloadFrom(parse, s.1, here, net, max, entries, k + 1, done + [fields.1])
  }

  /** Every entry from `k` on is well formed, has a folder that can be
      worked in, and a file that some attempt gets and unpacks. */
  predicate AllPass(parse: string -> Option<(string, string)>, m: map<Path, Node>, here: Path, net: Net, max: int, entries: seq<string>, k: nat) {
    forall j :: k <= j < |entries| ==>
      && parse(entries[j]).Some?
      && FolderUsable(m, here, parse(entries[j]).value.0)
      && Passes(net, max, parse(entries[j]).value.1)
  }

  /** `download` returns `True` exactly when every entry is well formed,
      can be worked in and completes within the bound; otherwise the first
      entry that does not ends it. */
  lemma {:induction false} DownloadSucceeds(parse: string -> Option<(string, string)>, m: map<Path, Node>, here: Path, net: Net, max: int,
                                            entries: seq<string>, k: nat, done: seq<string>)
    ensures DownloadFrom(parse, m, here, net, max, entries, k, done).0 == Return(true)
      <==> AllPass(parse, m, here, net, max, entries, k)
    decreases |entries| - k
  {
    if k < |entries| && parse(entries[k]).Some? {
      var fields := parse(entries[k]).value;
      var s := Attempts(m, here, net, max, fields.0, fields.1, 0);
      AttemptsOutcome(m, here, net, max, fields.0, fields.1, 0);
      if s.0 {
        UsableKept(m, here, fields.0);
        DownloadSucceeds(parse, s.1, here, net, max, entries, k + 1, done + [fields.1]);
        assert AllPass(parse, s.1, here, net, max, entries, k + 1) <==> AllPass(parse, m, here, net, max, entries, k + 1);
      }
    }
  }

  /** `names` are the file names that `parse` reads from `entries`, one
      for one. */
  predicate Recorded(parse: string -> Option<(string, string)>, names: seq<string>, entries: seq<string>) {
    && |names| == |entries|
    && forall i :: 0 <= i < |entries| ==> parse(entries[i]).Some? && names[i] == parse(entries[i]).value.1
  }

  lemma RecordedCons(parse: string -> Option<(string, string)>, name: string, names: seq<string>, entry: string, entries: seq<string>)
    requires parse(entry).Some? && parse(entry).value.1 == name
    requires Recorded(parse, names, entries)
    ensures Recorded(parse, [name] + names, [entry] + entries)
  {
    forall i | 0 < i < |entries| + 1 ensures ([entry] + entries)[i] == entries[i - 1] && ([name] + names)[i] == names[i - 1] {
    }
  }

  /** `names` is `done` followed by the names of the entries from `k` on,
      in order, as far as it goes. */
  ghost predicate RecordsFrom(parse: string -> Option<(string, string)>, names: seq<string>, done: seq<string>, entries: seq<string>, k: nat) {
    && k <= |entries|
    && |done| <= |names| <= |done| + |entries| - k
    && names[..|done|] == done
    && Recorded(parse, names[|done|..], entries[k..k + |names| - |done|])
  }

  /** The names `download` records are those of the entries it completed,
      in configuration order after the ones already recorded; when it
      returns `True` they are the names of all entries. */
  lemma {:induction false} DownloadedNames(parse: string -> Option<(string, string)>, m: map<Path, Node>, here: Path, net: Net, max: int,
                                           entries: seq<string>, k: nat, done: seq<string>)
    requires k <= |entries|
    ensures var r := DownloadFrom(parse, m, here, net, max, entries, k, done);
      && RecordsFrom(parse, r.1, done, entries, k)
      && (r.0 == Return(true) ==> Recorded(parse, r.1[|done|..], entries[k..]))
    decreases |entries| - k
  {
    if k < |entries| && parse(entries[k]).Some? {
      var fields := parse(entries[k]).value;
      var s := Attempts(m, here, net, max, fields.0, fields.1, 0);
      if s.0 {
        var done' := done + [fields.1];
        DownloadedNames(parse, s.1, here, net, max, entries, k + 1, done');
        var r := DownloadFrom(parse, s.1, here, net, max, entries, k + 1, done');
        assert DownloadFrom(parse, m, here, net, max, entries, k, done) == r;
        NamesStep(parse, r.1, done, fields.1, entries, k);
        if r.0 == Return(true) {
          NamesStepAll(parse, r.1, done, fields.1, entries, k);
        }
        return;
      }
    }
    var r := DownloadFrom(parse, m, here, net, max, entries, k, done);
    assert r.1 == done && (r.0 == Return(true) ==> k == |entries|);
    assert r.1[..|done|] == done && r.1[|done|..] == [] && entries[k..k] == [];
  }

  /** One more recorded name in front. */
  lemma NamesStep(parse: string -> Option<(string, string)>, names: seq<string>, done: seq<string>, name: string, entries: seq<string>, k: nat)
    requires k < |entries| && parse(entries[k]).Some? && parse(entries[k]).value.1 == name
    requires RecordsFrom(parse, names, done + [name], entries, k + 1)
    ensures RecordsFrom(parse, names, done, entries, k)
  {
    var t := |names| - (|done| + 1);
    assert names[..|done|] == names[..|done| + 1][..|done|];
    assert names[|done|..] == [name] + names[|done| + 1..] by {
      assert names[|done|] == names[..|done| + 1][|done|];
    }
    assert entries[k..k + t + 1] == [entries[k]] + entries[k + 1..k + 1 + t];
    RecordedCons(parse, name, names[|done| + 1..], entries[k], entries[k + 1..k + 1 + t]);
  }

  lemma NamesStepAll(parse: string -> Option<(string, string)>, names: seq<string>, done: seq<string>, name: string, entries: seq<string>, k: nat)
    requires k < |entries| && parse(entries[k]).Some? && parse(entries[k]).value.1 == name
    requires RecordsFrom(parse, names, done + [name], entries, k + 1)
    requires Recorded(parse, names[|done| + 1..], entries[k + 1..])
    ensures Recorded(parse, names[|done|..], entries[k..])
  {
    assert names[|done|..] == [name] + names[|done| + 1..] by {
      assert names[|done|] == names[..|done| + 1][|done|];
    }
    assert entries[k..] == [entries[k]] + entries[k + 1..];
    RecordedCons(parse, name, names[|done| + 1..], entries[k], entries[k + 1..]);
  }

  /** `download` raises only on an entry without `|`. */
  lemma {:induction false} DownloadRaises(parse: string -> Option<(string, string)>, m: map<Path, Node>, here: Path, net: Net, max: int,
                                          entries: seq<string>, k: nat, done: seq<string>)
    requires DownloadFrom(parse, m, here, net, max, entries, k, done).0 == Raise
    ensures exists j :: k <= j < |entries| && parse(entries[j]).None?
    decreases |entries| - k
  {
    if parse(entries[k]).Some? {
      var fields := parse(entries[k]).value;
      var s := Attempts(m, here, net, max, fields.0, fields.1, 0);
      DownloadRaises(parse, s.1, here, net, max, entries, k + 1, done + [fields.1]);
    }
  }

  /** The loop over `download_file` as written, from entry `k` on: like
      `DownloadFrom`, with each entry's attempts as `AttemptsAsWritten`. */
  function DownloadFromAsWritten(parse: string -> Option<(string, string)>, m: map<Path, Node>, here: Path, net: Net, max: int,
                                 entries: seq<string>, k: nat, done: seq<string>): (Exit, seq<string>, map<Path, Node>)
    decreases |entries| - k
  {
    if k >= |entries| then (Return(true), done, m)
    else match parse(entries[k])
      case None => (Raise, done, m)
      case Some(fields) =>
        var s := AttemptsAsWritten(m, here, net, max, fields.0, fields.1, 0);
        if !s.0 then (Return(false), done, s.1)
        else DownloadFromAsWritten(parse, s.1, here, net, max, entries, k + 1, done + [fields.1])
  }

  /** As written, entry `j` of a run that started at entry `k` in the tree
      `m` completes: it is well formed, and either it has no folder and
      some attempt passes, or the bound allows an attempt, `os.makedirs`
      can make its folder in `m`, no earlier entry of the run named the
      same folder, and the first attempt passes. */
  predicate EntryAsWritten(parse: string -> Option<(string, string)>, m: map<Path, Node>, here: Path, net: Net, max: int,
                           entries: seq<string>, k: nat, j: nat)
    requires j < |entries|
  {
    match parse(entries[j])
    case None => false
    case Some(f) =>
      if f.0 == "" then Passes(net, max, f.1)
      else
        && 1 <= max && Fetched(net, f.1, 1) && CanMakeDirs(m, here + [f.0])
        && forall i :: k <= i < j && parse(entries[i]).Some? ==> parse(entries[i]).value.0 != f.0
  }

  predicate AllPassAsWritten(parse: string -> Option<(string, string)>, m: map<Path, Node>, here: Path, net: Net, max: int,
                             entries: seq<string>, k: nat) {
    forall j :: k <= j < |entries| ==> EntryAsWritten(parse, m, here, net, max, entries, k, j)
  }

  /** As written, `download` returns `True` exactly when every entry
      completes as `EntryAsWritten` says: so two entries with the same
      folder never both complete, and an entry with a folder completes only
      on its first attempt. */
  lemma {:induction false} DownloadSucceedsAsWritten(parse: string -> Option<(string, string)>, m: map<Path, Node>, here: Path, net: Net,
                                                     max: int, entries: seq<string>, k: nat, done: seq<string>)
    ensures DownloadFromAsWritten(parse, m, here, net, max, entries, k, done).0 == Return(true)
      <==> AllPassAsWritten(parse, m, here, net, max, entries, k)
    decreases |entries| - k
  {
    if k < |entries| && parse(entries[k]).Some? {
      var f := parse(entries[k]).value;
      var s := AttemptsAsWritten(m, here, net, max, f.0, f.1, 0);
      AsWrittenOutcome(m, here, net, max, f.0, f.1);
      assert EntryAsWritten(parse, m, here, net, max, entries, k, k) <==> s.0;
      if s.0 {
        DownloadSucceedsAsWritten(parse, s.1, here, net, max, entries, k + 1, done + [f.1]);
        EntriesShift(parse, m, s.1, here, net, max, entries, k);
        var next := k + 1;
        if AllPassAsWritten(parse, m, here, net, max, entries, k) {
          forall j | next <= j < |entries|
            ensures EntryAsWritten(parse, s.1, here, net, max, entries, next, j)
          {
            assert EntryAsWritten(parse, m, here, net, max, entries, k, j);
          }
        }
        if AllPassAsWritten(parse, s.1, here, net, max, entries, k + 1) {
          forall j | k <= j < |entries|
            ensures EntryAsWritten(parse, m, here, net, max, entries, k, j)
          {
            if j > k {
              assert EntryAsWritten(parse, s.1, here, net, max, entries, k + 1, j);
            }
          }
        }
      } else {
        assert !EntryAsWritten(parse, m, here, net, max, entries, k, k);
      }
    } else if k < |entries| {
      assert !EntryAsWritten(parse, m, here, net, max, entries, k, k);
    }
  }

  /** The corrected loop is more permissive: whenever `download` as
      written returns `True`, so does the loop that makes each folder only
      when it is missing (`RetryInFolder` shows the converse fails). */
  lemma AsWrittenStricter(parse: string -> Option<(string, string)>, m: map<Path, Node>, here: Path, net: Net, max: int,
                          entries: seq<string>)
    requires DownloadFromAsWritten(parse, m, here, net, max, entries, 0, []).0 == Return(true)
    ensures DownloadFrom(parse, m, here, net, max, entries, 0, []).0 == Return(true)
  {
    DownloadSucceedsAsWritten(parse, m, here, net, max, entries, 0, []);
    DownloadSucceeds(parse, m, here, net, max, entries, 0, []);
    forall j | 0 <= j < |entries| ensures
      && parse(entries[j]).Some?
      && FolderUsable(m, here, parse(entries[j]).value.0)
      && Passes(net, max, parse(entries[j]).value.1)
    {
      assert EntryAsWritten(parse, m, here, net, max, entries, 0, j);
      if parse(entries[j]).value.0 != "" {
        assert Fetched(net, parse(entries[j]).value.1, 1);
      }
    }
  }

  /** After entry `k` completed, a later entry completes from the new tree
      exactly when it would have counting from entry `k`. */
  lemma EntriesShift(parse: string -> Option<(string, string)>, m: map<Path, Node>, m': map<Path, Node>, here: Path, net: Net, max: int,
                     entries: seq<string>, k: nat)
    requires k < |entries| && parse(entries[k]).Some?
    requires m' == if parse(entries[k]).value.0 == "" then m else WithDirs(m, here + [parse(entries[k]).value.0])
    ensures forall j :: k < j < |entries| ==>
      (EntryAsWritten(parse, m', here, net, max, entries, k + 1, j) <==> EntryAsWritten(parse, m, here, net, max, entries, k, j))
  {
    var d := parse(entries[k]).value.0;
    forall j | k < j < |entries| && parse(entries[j]).Some? && parse(entries[j]).value.0 != ""
      ensures CanMakeDirs(m', here + [parse(entries[j]).value.0]) <==>
                CanMakeDirs(m, here + [parse(entries[j]).value.0]) && d != parse(entries[j]).value.0
    {
      if d != "" {
        MakeDirsElsewhere(m, here, d, parse(entries[j]).value.0);
      }
    }
  }

  /** The entry loop only adds folders: every entry of the tree is kept
      with its content, and every new one is a directory. */
  lemma {:induction false} DownloadAddsFolders(parse: string -> Option<(string, string)>, m: map<Path, Node>, here: Path, net: Net, max: int,
                                               entries: seq<string>, k: nat, done: seq<string>)
    ensures var r := DownloadFrom(parse, m, here, net, max, entries, k, done).2;
      && (forall q :: q in m ==> q in r && r[q] == m[q])
      && (forall q :: q in r && q !in m ==> r[q] == Dir)
    decreases |entries| - k
  {
    if k < |entries| && parse(entries[k]).Some? {
      var fields := parse(entries[k]).value;
      var s := Attempts(m, here, net, max, fields.0, fields.1, 0);
      AttemptsOutcome(m, here, net, max, fields.0, fields.1, 0);
      if s.0 {
        DownloadAddsFolders(parse, s.1, here, net, max, entries, k + 1, done + [fields.1]);
      }
    }
  }

  /** The loop over `download_file`. */
  method DownloadEntries(fs: FileSystem, here: Path, net: Net, max: int, entries: seq<string>)
    returns (r: Exit, downloaded: seq<string>)
    modifies fs
    ensures (r, downloaded, fs.nodes) == DownloadFrom(EntryFields, old(fs.nodes), here, net, max, entries, 0, [])
  {
    downloaded := [];
    var k := 0;
    while k < |entries|
      invariant k <= |entries|
      invariant DownloadFrom(EntryFields, old(fs.nodes), here, net, max, entries, 0, [])
        == DownloadFrom(EntryFields, fs.nodes, here, net, max, entries, k, downloaded)
    {
      var fields := EntryFields(entries[k]);
      if fields.None? {
        return Raise, downloaded;
      }
      var completed := FileLoop(fs, here, net, max, fields.value.0, fields.value.1);
      if !completed {
        return Return(false), downloaded;
      }
      downloaded := downloaded + [fields.value.1];
      k := k + 1;
    }
    r := Return(true);
  }

  /** The comment `download` writes into the manifest. */
  const Comment: string := "This folder contains greenGene data."

  /** `download()` in the working folder `here`: the entry loop; then the
      files the downloads and the unpacking leave there (`staged`); then,
      on success, the README+ manifest listing the completed names. */
  function DownloadRun(m: map<Path, Node>, here: Path, net: Net, max: int, entries: seq<string>,
                       staged: map<Path, Node>, readme: string, url: string, now: string, elapsed: Elapsed)
    : (Exit, seq<string>, map<Path, Node>)
  {
    var s := DownloadFrom(EntryFields, m, here, net, max, entries, 0, []);
    var t := s.2 + staged;
    if s.0 != Return(true) then (s.0, s.1, t)
    else (s.0, s.1, Manifested(t, here, readme, ReadmeText(Comment, now, url, elapsed, s.1, [])))
  }

  method Download(fs: FileSystem, here: Path, net: Net, max: int, entries: seq<string>,
                  staged: map<Path, Node>, readme: string, url: string, now: string, elapsed: Elapsed)
    returns (r: Exit, downloaded: seq<string>)
    modifies fs
    ensures (r, downloaded, fs.nodes) == DownloadRun(old(fs.nodes), here, net, max, entries, staged, readme, url, now, elapsed)
  {
    r, downloaded := DownloadEntries(fs, here, net, max, entries);
    fs.nodes := fs.nodes + staged;
    if r == Return(true) {
      var _ := WriteReadme(fs, here + [readme], Comment, now, url, elapsed, downloaded, []);
    }
  }

  /** Besides the new folders, the staged files and the manifest, a
      download changes nothing. */
  lemma DownloadFrame(m: map<Path, Node>, here: Path, net: Net, max: int, entries: seq<string>,
                      staged: map<Path, Node>, readme: string, url: string, now: string, elapsed: Elapsed)
    ensures var r := DownloadRun(m, here, net, max, entries, staged, readme, url, now, elapsed).2;
      && (forall q :: q in m && q !in staged && q != here + [readme] ==> q in r && r[q] == m[q])
      && (forall q :: q in r && q !in m && q !in staged && q != here + [readme] ==> r[q] == Dir)
  {
    DownloadAddsFolders(EntryFields, m, here, net, max, entries, 0, []);
  }

  // ---------------------------------------------------------------------
  // backup: moving the entries of a folder up to its parent

  /** `q` lies at or below `dir/a` for a name `a` of `names`. */
  predicate Beneath(dir: Path, names: set<string>, q: Path) {
    |q| > |dir| && q[..|dir|] == dir && q[|dir|] in names
  }

  /** The places in `up` that the entries at or below `dir/a`, `a` in
      `names`, take once moved up. */
  function Lifted(m: map<Path, Node>, dir: Path, up: Path, names: set<string>): (s: set<Path>)
    ensures forall q :: q in s <==> Comes(m, dir, up, names, q)
  {
    var s := set p | p in m && Beneath(dir, names, p) :: up + p[|dir|..];
    forall q ensures q in s <==> Comes(m, dir, up, names, q) {
      if q in s {
        var p :| p in m && Beneath(dir, names, p) && q == up + p[|dir|..];
        assert q[..|up|] == up && q[|up|..] == p[|dir|..];
        assert dir + q[|up|..] == p;
      }
      if Comes(m, dir, up, names, q) {
        var p := dir + q[|up|..];
        assert p[..|dir|] == dir && p[|dir|..] == q[|up|..];
        assert q == up + p[|dir|..];
      }
    }
    s
  }

  /** `q` is where an entry at or below `dir/a`, `a` in `names`, lands in
      `up`. */
  predicate Comes(m: map<Path, Node>, dir: Path, up: Path, names: set<string>, q: Path) {
    Beneath(up, names, q) && dir + q[|up|..] in m
  }

  /** The tree once the entries `names` of `dir` sit in `up` instead. */
  function LiftedTree(m: map<Path, Node>, dir: Path, up: Path, names: set<string>): map<Path, Node> {
    map q | q in (set p | p in m && !Beneath(dir, names, p)) + Lifted(m, dir, up, names) ::
      if Comes(m, dir, up, names, q) then m[dir + q[|up|..]] else m[q]
  }

  /** Which places the lifted tree holds, and what. */
  lemma LiftedTreeShape(m: map<Path, Node>, dir: Path, up: Path, names: set<string>)
    ensures var r := LiftedTree(m, dir, up, names);
      && (forall q :: q in r <==> (q in m && !Beneath(dir, names, q)) || Comes(m, dir, up, names, q))
      && (forall q :: q in r ==> r[q] == if Comes(m, dir, up, names, q) then m[dir + q[|up|..]] else m[q])
  {
  }

  /** Nothing in `m` lies at or below `up/a` for a name `a` of `names`. */
  predicate Clear(m: map<Path, Node>, up: Path, names: set<string>) {
    forall q :: q in m ==> !Beneath(up, names, q)
  }

  lemma LiftedNothing(m: map<Path, Node>, dir: Path, up: Path)
    ensures LiftedTree(m, dir, up, {}) == m
  {
    var r := LiftedTree(m, dir, up, {});
    LiftedTreeShape(m, dir, up, {});
    assert forall q :: !Beneath(dir, {}, q) && !Comes(m, dir, up, {}, q);
    assert forall q :: q in r <==> q in m;
  }

  /** Moving one more entry `a` of `dir = up/n` up to `up` when nothing of
      that name is in `up`. */
  lemma LiftStep(m: map<Path, Node>, dir: Path, up: Path, n: string, names: set<string>, a: string)
    requires dir == up + [n] && dir in m && DirIn(m, up)
    requires a !in names && dir + [a] in m
    requires Clear(m, up, names + {a})
    ensures Moved(LiftedTree(m, dir, up, names), dir + [a], up + [a]) == (true, LiftedTree(m, dir, up, names + {a}))
  {
    var big := names + {a};
    var cur := LiftedTree(m, dir, up, names);
    var src, tgt := dir + [a], up + [a];
    assert n !in big by {
      assert !Beneath(up, big, dir);
    }
    assert src in cur by {
      assert !Beneath(dir, names, src);
    }
    assert tgt !in cur by {
      assert Beneath(up, big, tgt);
      assert !Beneath(up, names, tgt);
    }
    assert !Within(tgt, src) by {
      assert src[|up|] == n && tgt[|up|] == a;
    }
    assert DirIn(cur, up) by {
      if up != [] {
        assert !Beneath(dir, names, up);
        assert !Beneath(up, names, up);
      }
    }
    assert Moved(cur, src, tgt) == (true, Renamed(cur, src, tgt));
    var ren := Renamed(cur, src, tgt);
    var next := LiftedTree(m, dir, up, big);
    forall q ensures (q in ren <==> q in next) && (q in next ==> ren[q] == next[q]) {
      LiftPoint(m, dir, up, n, names, a, q);
    }
    assert ren.Keys == next.Keys;
    assert ren == next;
  }

  /** `LiftStep` at one place `q`. */
  lemma LiftPoint(m: map<Path, Node>, dir: Path, up: Path, n: string, names: set<string>, a: string, q: Path)
    requires dir == up + [n] && n !in names + {a} && a !in names
    requires Clear(m, up, names + {a})
    ensures var ren := Renamed(LiftedTree(m, dir, up, names), dir + [a], up + [a]);
      var next := LiftedTree(m, dir, up, names + {a});
      && (q in ren <==> q in next)
      && (q in next ==> ren[q] == next[q])
  {
    var big := names + {a};
    var cur := LiftedTree(m, dir, up, names);
    var src, tgt := dir + [a], up + [a];
    var next := LiftedTree(m, dir, up, big);
    WithinChild(dir, a, q);
    WithinChild(up, a, q);
    WithinChild(up, n, q);
    if |q| > |up| && q[..|up|] == up {
      var p := dir + q[|up|..];
      assert p[..|up|] == up && p[|up|] == n;
      assert p[..|dir|] == dir && p[|dir|] == q[|up|];
      assert !Beneath(up, names, p) && !Beneath(up, big, p);
      if q[|up|] == a {
        // `q` lies in the moved entry: it comes from `p`, which is still
        // in place in `cur`.
        assert Within(tgt, q) && !Within(src, q);
        assert src + q[|tgt|..] == p by {
          assert q[|up|..] == [a] + q[|tgt|..];
        }
        assert q !in m by {
          assert Beneath(up, big, q);
        }
        assert p in cur <==> p in m by {
          assert !Beneath(dir, names, p);
        }
        assert Comes(m, dir, up, big, q) <==> p in m;
        assert q in next <==> p in m;
      } else if q[|up|] in names {
        // `q` lies in an entry moved before.
        assert !Within(tgt, q) && !Within(src, q);
        assert q !in m by {
          assert Beneath(up, big, q);
        }
        assert q in cur <==> p in m;
        assert q in next <==> p in m;
      } else if q[|up|] == n {
        // `q` lies in `dir` itself.
        assert !Within(tgt, q);
        assert !Comes(m, dir, up, names, q) && !Comes(m, dir, up, big, q);
        if Within(src, q) {
          assert Beneath(dir, big, q);
          assert q !in next;
        } else {
          assert Beneath(dir, big, q) <==> Beneath(dir, names, q);
        }
      } else {
        assert !Within(tgt, q) && !Within(src, q);
        assert !Beneath(up, names, q) && !Beneath(up, big, q);
      }
    } else {
      assert !Within(tgt, q) && !Within(src, q);
      assert !Beneath(up, names, q) && !Beneath(up, big, q);
      assert !Beneath(dir, names, q) && !Beneath(dir, big, q);
    }
  }

  /** The names in `listing`. */
  function Names(listing: seq<string>): set<string> {
    set a | a in listing
  }

  /** The loop `for a in os.listdir("."): shutil.move(a, "../" + a)` run in
      `dir` whose parent is `up`, stopping at the first move that raises. */
  function MovedUp(m: map<Path, Node>, dir: Path, up: Path, listing: seq<string>): (bool, map<Path, Node>)
    decreases |listing|
  {
    if listing == [] then (true, m)
    else
      var s := Moved(m, dir + [listing[0]], up + [listing[0]]);
      if !s.0 then s else MovedUp(s.1, dir, up, listing[1..])
  }

  /** When none of the listed names is taken in `up`, moving them up one
      by one ends in the lifted tree. */
  lemma {:induction false} MovedUpLifts(m: map<Path, Node>, dir: Path, up: Path, n: string, listing: seq<string>, i: nat)
    requires dir == up + [n] && dir in m && DirIn(m, up)
    requires Distinct(listing) && (forall a :: a in listing ==> dir + [a] in m)
    requires Clear(m, up, Names(listing)) && i <= |listing|
    ensures MovedUp(LiftedTree(m, dir, up, Names(listing[..i])), dir, up, listing[i..]) == (true, LiftedTree(m, dir, up, Names(listing)))
    decreases |listing| - i
  {
    if i == |listing| {
      assert listing[..i] == listing;
    } else {
      var a := listing[i];
      var names := Names(listing[..i]);
      assert a !in names;
      assert Names(listing[..i + 1]) == names + {a} by {
        assert listing[..i + 1] == listing[..i] + [a];
      }
      assert Clear(m, up, names + {a}) by {
        forall q | q in m ensures !Beneath(up, names + {a}, q) {
          assert !Beneath(up, Names(listing), q);
        }
      }
      LiftStep(m, dir, up, n, names, a);
      MovedUpLifts(m, dir, up, n, listing, i + 1);
      assert listing[i..][1..] == listing[i + 1..];
    }
  }

  /** `MovedUpLifts` from the start of the listing. */
  lemma MovedUpAll(m: map<Path, Node>, dir: Path, up: Path, n: string, listing: seq<string>)
    requires dir == up + [n] && dir in m && DirIn(m, up)
    requires Distinct(listing) && (forall a :: a in listing ==> dir + [a] in m)
    requires Clear(m, up, Names(listing))
    ensures MovedUp(m, dir, up, listing) == (true, LiftedTree(m, dir, up, Names(listing)))
  {
    MovedUpLifts(m, dir, up, n, listing, 0);
    assert listing[..0] == [] && listing[0..] == listing;
    assert Names([]) == {};
    LiftedNothing(m, dir, up);
  }

  /** In a well-formed tree where no entry `up/a` exists for `a` in
      `names`, nothing lies at or below one. */
  lemma ClearOfMissing(m: map<Path, Node>, up: Path, names: set<string>)
    requires WellFormed(m) && forall a :: a in names ==> up + [a] !in m
    ensures Clear(m, up, names)
  {
    forall q | q in m && Beneath(up, names, q) ensures false {
      NothingBelowMissing(m, up + [q[|up|]]);
      WithinChild(up, q[|up|], q);
    }
  }

  /** One `remove_path` entry `name` run from `here`: `os.chdir` into
      `here/name` (raising unless it is a directory), the entries of
      `listing` moved up into `here`, then `shutil.rmtree(here/name)`. */
  function Flattened(m: map<Path, Node>, here: Path, name: string, listing: seq<string>): (bool, map<Path, Node>) {
    var dir := here + [name];
    if !DirIn(m, dir) then (false, m)
    else
      var s := MovedUp(m, dir, here, listing);
      if !s.0 then s
      else if !DirIn(s.1, dir) then (false, s.1)
      else (true, RemovedTree(s.1, dir))
  }

  /** Flattening `here/name` in a well-formed tree whose listed names are
      all free in `here` succeeds: every entry strictly below `here/name`
      now sits one level up with the same content, nothing is left at or
      below `here/name`, every other entry is unchanged, and every new
      entry came up from `here/name`. */
  lemma FlattenedMovesUp(m: map<Path, Node>, here: Path, name: string, listing: seq<string>)
    requires WellFormed(m) && DirIn(m, here + [name]) && Listing(m, here + [name], listing)
    requires forall a :: a in listing ==> here + [a] !in m
    ensures Flattened(m, here, name, listing).0
    ensures var dir := here + [name];
      var r := Flattened(m, here, name, listing).1;
      && (forall p :: p in m && Within(dir, p) && p != dir ==> here + p[|dir|..] in r && r[here + p[|dir|..]] == m[p])
      && (forall q :: q in r ==> !Within(dir, q))
      && (forall q :: q in m && !Within(dir, q) ==> q in r && r[q] == m[q])
      && (forall q :: q in r && q !in m ==> Comes(m, dir, here, Names(listing), q) && r[q] == m[dir + q[|here|..]])
  {
    var dir := here + [name];
    var names := Names(listing);
    assert DirIn(m, here) by {
      if here != [] {
        assert dir[..|dir| - 1] == here;
      }
    }
    ClearOfMissing(m, here, names);
    assert name !in names;
    MovedUpAll(m, dir, here, name, listing);
    var lifted := LiftedTree(m, dir, here, names);
    assert DirIn(lifted, dir) by {
      LiftedTreeShape(m, dir, here, names);
      assert !Beneath(dir, names, dir) && !Beneath(here, names, dir);
    }
    var r := RemovedTree(lifted, dir);
    assert Flattened(m, here, name, listing) == (true, r);
    FlattenedShape(m, here, name, listing);
  }

  /** The tree `FlattenedMovesUp` describes, once the moves are known to
      lift the listed entries. */
  lemma FlattenedShape(m: map<Path, Node>, here: Path, name: string, listing: seq<string>)
    requires WellFormed(m) && Listing(m, here + [name], listing)
    requires Clear(m, here, Names(listing)) && name !in Names(listing)
    ensures var dir := here + [name];
      var r := RemovedTree(LiftedTree(m, dir, here, Names(listing)), dir);
      && (forall p :: p in m && Within(dir, p) && p != dir ==> here + p[|dir|..] in r && r[here + p[|dir|..]] == m[p])
      && (forall q :: q in m && !Within(dir, q) ==> q in r && r[q] == m[q])
      && (forall q :: q in r && q !in m ==> Comes(m, dir, here, Names(listing), q) && r[q] == m[dir + q[|here|..]])
  {
    var dir := here + [name];
    var names := Names(listing);
    LiftedTreeShape(m, dir, here, names);
    forall p | p in m && Within(dir, p) && p != dir
      ensures here + p[|dir|..] in RemovedTree(LiftedTree(m, dir, here, names), dir)
      ensures RemovedTree(LiftedTree(m, dir, here, names), dir)[here + p[|dir|..]] == m[p]
    {
      FlattenedEntry(m, here, name, listing, p);
    }
    forall q | q in m && !Within(dir, q) ensures !Comes(m, dir, here, names, q) && !Beneath(dir, names, q) {
      assert !Beneath(here, names, q);
    }
  }

  /** `FlattenedMovesUp` for one entry `p` strictly below `here/name`. */
  lemma FlattenedEntry(m: map<Path, Node>, here: Path, name: string, listing: seq<string>, p: Path)
    requires WellFormed(m) && Listing(m, here + [name], listing)
    requires Clear(m, here, Names(listing)) && name !in Names(listing)
    requires p in m && Within(here + [name], p) && p != here + [name]
    ensures var dir := here + [name];
      var r := RemovedTree(LiftedTree(m, dir, here, Names(listing)), dir);
      here + p[|dir|..] in r && r[here + p[|dir|..]] == m[p]
  {
    var dir := here + [name];
    var names := Names(listing);
    var a := p[|dir|];
    ChildOnTheWay(m, dir, p);
    assert a in names;
    var q := here + p[|dir|..];
    LiftedPath(here, name, p);
    assert Comes(m, dir, here, names, q) && !Within(dir, q);
    var lifted := LiftedTree(m, dir, here, names);
    assert q in lifted && lifted[q] == m[p] by {
      LiftedTreeShape(m, dir, here, names);
    }
  }

  /** An entry strictly below `dir` in a well-formed tree passes through a
      child of `dir`. */
  lemma ChildOnTheWay(m: map<Path, Node>, dir: Path, p: Path)
    requires WellFormed(m) && p in m && Within(dir, p) && p != dir
    ensures |p| > |dir| && dir + [p[|dir|]] in m
  {
    assert |p| > |dir| by {
      assert p[..|p|] == p;
    }
    assert p[..|dir| + 1] == dir + [p[|dir|]];
    if |p| > |dir| + 1 {
      AncestorIsDir(m, p, |dir| + 1);
    } else {
      assert p[..|dir| + 1] == p;
    }
  }

  /** Where an entry strictly below `here/name` lands once moved up into
      `here`: below the same child name, outside `here/name` unless that
      child is `name` itself. */
  lemma LiftedPath(here: Path, name: string, p: Path)
    requires Within(here + [name], p) && p != here + [name]
    ensures var dir := here + [name];
      var q := here + p[|dir|..];
      && |p| > |dir| && |q| > |here| && q[..|here|] == here && q[|here|] == p[|dir|] && dir + q[|here|..] == p
      && (Within(dir, q) ==> p[|dir|] == name)
  {
    var dir := here + [name];
    assert |p| > |dir| by {
      assert p[..|p|] == p;
    }
    var q := here + p[|dir|..];
    assert q[|here|..] == p[|dir|..];
    assert p == p[..|dir|] + p[|dir|..];
    if Within(dir, q) {
      assert q[|here|] == q[..|dir|][|here|];
    }
  }

  /** `r` agrees with `m` everywhere outside `root`. */
  ghost predicate SameOutside(m: map<Path, Node>, r: map<Path, Node>, root: Path) {
    forall q :: !Within(root, q) ==> (q in r <==> q in m) && (q in m ==> r[q] == m[q])
  }

  /** Moving the entries of `dir` up into `up` changes nothing outside
      `up`. */
  lemma {:induction false} MovedUpFrame(m: map<Path, Node>, dir: Path, up: Path, listing: seq<string>)
    requires Within(up, dir)
    ensures SameOutside(m, MovedUp(m, dir, up, listing).1, up)
    decreases |listing|
  {
    if listing != [] {
      var a := listing[0];
      var src, dst := dir + [a], up + [a];
      var s := Moved(m, src, dst);
      MovedFrame(m, src, dst);
      assert Within(dir, src) && Within(up, dst) by {
        assert src[..|dir|] == dir && dst[..|up|] == up;
      }
      forall q | Within(src, q) ensures Within(up, q) {
        WithinWithin(dir, src, q);
        WithinWithin(up, dir, q);
      }
      forall q | Within(dst, q) ensures Within(up, q) {
        WithinWithin(up, dst, q);
      }
      if s.0 {
        MovedUpFrame(s.1, dir, up, listing[1..]);
      }
    }
  }

  /** Flattening `here/name` changes nothing outside `here`. */
  lemma FlattenedFrame(m: map<Path, Node>, here: Path, name: string, listing: seq<string>)
    ensures SameOutside(m, Flattened(m, here, name, listing).1, here)
  {
    var dir := here + [name];
    assert Within(here, dir) by {
      assert dir[..|here|] == here;
    }
    MovedUpFrame(m, dir, here, listing);
    forall q | Within(dir, q) ensures Within(here, q) {
      WithinWithin(here, dir, q);
    }
  }

  /** The `remove_path` loop: `Flattened` for each entry in turn, with the
      listing `os.listdir` gave for it, stopping at the first that
      raises. */
  function FlattenedAll(m: map<Path, Node>, here: Path, removes: seq<string>, listings: seq<seq<string>>): (bool, map<Path, Node>)
    requires |listings| == |removes|
    decreases |removes|
  {
    if removes == [] then (true, m)
    else
      var s := Flattened(m, here, removes[0], listings[0]);
      if !s.0 then s else FlattenedAll(s.1, here, removes[1..], listings[1..])
  }

  /** Each listing is what `os.listdir` reports for its folder at the
      moment the loop reaches it. */
  ghost predicate ListedAll(m: map<Path, Node>, here: Path, removes: seq<string>, listings: seq<seq<string>>)
    decreases |removes|
  {
    && |listings| == |removes|
    && (removes != [] ==>
          && (DirIn(m, here + [removes[0]]) ==> Listing(m, here + [removes[0]], listings[0]))
          && var s := Flattened(m, here, removes[0], listings[0]);
             s.0 ==> ListedAll(s.1, here, removes[1..], listings[1..]))
  }

  /** The `remove_path` loop changes nothing outside `here`. */
  lemma {:induction false} FlattenedAllFrame(m: map<Path, Node>, here: Path, removes: seq<string>, listings: seq<seq<string>>)
    requires |listings| == |removes|
    ensures SameOutside(m, FlattenedAll(m, here, removes, listings).1, here)
    decreases |removes|
  {
    if removes != [] {
      var s := Flattened(m, here, removes[0], listings[0]);
      FlattenedFrame(m, here, removes[0], listings[0]);
      if s.0 {
        FlattenedAllFrame(s.1, here, removes[1..], listings[1..]);
      }
    }
  }

  /** One `remove_path` entry: `None` for the listing when `os.chdir`
      raised before `os.listdir` ran. */
  method FlattenFolder(fs: FileSystem, here: Path, name: string) returns (ok: bool, ghost listing: seq<string>)
    modifies fs
    ensures DirIn(old(fs.nodes), here + [name]) ==> Listing(old(fs.nodes), here + [name], listing)
    ensures (ok, fs.nodes) == Flattened(old(fs.nodes), here, name, listing)
  {
    var dir := here + [name];
    listing := [];
    if !fs.IsDir(dir) {
      return false, listing;
    }
    var names := fs.ListDir(dir);
    listing := names;
    ghost var m0 := fs.nodes;
    var k := 0;
    while k < |names|
      invariant k <= |names|
      invariant MovedUp(m0, dir, here, names) == MovedUp(fs.nodes, dir, here, names[k..])
    {
      assert names[k..][0] == names[k] && names[k..][1..] == names[k + 1..];
      ok := fs.Move(dir + [names[k]], here + [names[k]]);
      if !ok {
        return;
      }
      k := k + 1;
    }
    ok := fs.RemoveTree(dir);
  }

  /** After `k` entries of the `remove_path` loop from `m0` reached
      `cur`, the whole loop from `m0` is the rest of it from `cur`. */
  ghost predicate Resumes(m0: map<Path, Node>, cur: map<Path, Node>, here: Path, removes: seq<string>, listings: seq<seq<string>>)
    requires |listings| <= |removes|
  {
    var k := |listings|;
    forall rest :: |rest| == |removes| - k ==>
      && FlattenedAll(m0, here, removes, listings + rest) == FlattenedAll(cur, here, removes[k..], rest)
      && (ListedAll(m0, here, removes, listings + rest) <==> ListedAll(cur, here, removes[k..], rest))
  }

  /** One more entry of the `remove_path` loop. */
  lemma FlattenStep(m0: map<Path, Node>, cur: map<Path, Node>, here: Path, removes: seq<string>, listings: seq<seq<string>>, listing: seq<string>)
    requires |listings| < |removes| && Resumes(m0, cur, here, removes, listings)
    requires var dir := here + [removes[|listings|]]; DirIn(cur, dir) ==> Listing(cur, dir, listing)
    ensures var s := Flattened(cur, here, removes[|listings|], listing);
      && (s.0 ==> Resumes(m0, s.1, here, removes, listings + [listing]))
      && (!s.0 ==> forall rest :: |rest| == |removes| - |listings| - 1 ==>
            && FlattenedAll(m0, here, removes, listings + [listing] + rest) == s
            && ListedAll(m0, here, removes, listings + [listing] + rest))
  {
    var k := |listings|;
    var s := Flattened(cur, here, removes[k], listing);
    assert removes[k..][0] == removes[k] && removes[k..][1..] == removes[k + 1..];
    forall rest | |rest| == |removes| - k - 1
      ensures FlattenedAll(m0, here, removes, listings + [listing] + rest) == FlattenedAll(cur, here, removes[k..], [listing] + rest)
      ensures ListedAll(m0, here, removes, listings + [listing] + rest) <==> ListedAll(cur, here, removes[k..], [listing] + rest)
    {
      assert listings + [listing] + rest == listings + ([listing] + rest);
    }
    forall rest | |rest| == |removes| - k - 1
      ensures FlattenedAll(cur, here, removes[k..], [listing] + rest) == if s.0 then FlattenedAll(s.1, here, removes[k + 1..], rest) else s
      ensures ListedAll(cur, here, removes[k..], [listing] + rest) <==> (!s.0 || ListedAll(s.1, here, removes[k + 1..], rest))
    {
      assert ([listing] + rest)[0] == listing && ([listing] + rest)[1..] == rest;
    }
  }

  /** The `remove_path` loop. */
  method FlattenFolders(fs: FileSystem, here: Path, removes: seq<string>) returns (ok: bool, ghost listings: seq<seq<string>>)
    modifies fs
    ensures ListedAll(old(fs.nodes), here, removes, listings)
    ensures (ok, fs.nodes) == FlattenedAll(old(fs.nodes), here, removes, listings)
  {
    ghost var m0 := fs.nodes;
    listings := [];
    assert Resumes(m0, fs.nodes, here, removes, listings) by {
      assert removes[0..] == removes;
      assert forall rest: seq<seq<string>> :: [] + rest == rest;
    }
    var k := 0;
    while k < |removes|
      invariant k <= |removes| && |listings| == k
      invariant Resumes(m0, fs.nodes, here, removes, listings)
    {
      ghost var cur := fs.nodes;
      ghost var listing;
      ok, listing := FlattenFolder(fs, here, removes[k]);
      FlattenStep(m0, cur, here, removes, listings, listing);
      if !ok {
        ghost var rest: seq<seq<string>> := seq(|removes| - k - 1, _ => []);
        listings := listings + [listing] + rest;
        return;
      }
      listings := listings + [listing];
      k := k + 1;
    }
    assert listings + [] == listings;
    ok := true;
  }

  /** The `developer_path` loop: `shutil.rmtree(here/dev)` for each entry
      in turn, stopping at the first that raises. */
  function RemovedAll(m: map<Path, Node>, here: Path, devs: seq<string>): (bool, map<Path, Node>)
    decreases |devs|
  {
    if devs == [] then (true, m)
    else if !DirIn(m, here + [devs[0]]) then (false, m)
    else RemovedAll(RemovedTree(m, here + [devs[0]]), here, devs[1..])
  }

  method RemoveTrees(fs: FileSystem, here: Path, devs: seq<string>) returns (ok: bool)
    modifies fs
    ensures (ok, fs.nodes) == RemovedAll(old(fs.nodes), here, devs)
  {
    var k := 0;
    while k < |devs|
      invariant k <= |devs|
      invariant RemovedAll(old(fs.nodes), here, devs) == RemovedAll(fs.nodes, here, devs[k..])
    {
      assert devs[k..][0] == devs[k] && devs[k..][1..] == devs[k + 1..];
      ok := fs.RemoveTree(here + [devs[k]]);
      if !ok {
        return;
      }
      k := k + 1;
    }
    ok := true;
  }

  /** `q` lies outside every developer folder `here/dev`. */
  predicate OutsideAll(here: Path, devs: seq<string>, q: Path) {
    forall k :: 0 <= k < |devs| ==> !Within(here + [devs[k]], q)
  }

  /** The developer loop succeeds exactly when each folder is a directory
      when its turn comes; then nothing is left at or below any of them,
      and everything outside them is as it was. */
  lemma {:induction false} RemovedAllExactly(m: map<Path, Node>, here: Path, devs: seq<string>)
    ensures var r := RemovedAll(m, here, devs);
      && (r.0 ==> forall q :: q in r.1 ==> OutsideAll(here, devs, q))
      && (forall q :: q in m && OutsideAll(here, devs, q) ==> q in r.1 && r.1[q] == m[q])
      && (forall q :: q in r.1 ==> q in m && r.1[q] == m[q])
    decreases |devs|
  {
    if devs != [] && DirIn(m, here + [devs[0]]) {
      var m1 := RemovedTree(m, here + [devs[0]]);
      RemovedAllExactly(m1, here, devs[1..]);
      var r := RemovedAll(m, here, devs);
      assert r == RemovedAll(m1, here, devs[1..]);
      forall q ensures OutsideAll(here, devs, q) <==> !Within(here + [devs[0]], q) && OutsideAll(here, devs[1..], q) {
        OutsideAllCons(here, devs, q);
      }
    }
  }

  lemma OutsideAllCons(here: Path, devs: seq<string>, q: Path)
    requires devs != []
    ensures OutsideAll(here, devs, q) <==> !Within(here + [devs[0]], q) && OutsideAll(here, devs[1..], q)
  {
    if !Within(here + [devs[0]], q) && OutsideAll(here, devs[1..], q) {
      forall k | 0 < k < |devs| ensures !Within(here + [devs[k]], q) {
        assert devs[k] == devs[1..][k - 1];
      }
    }
  }

  /** The place `file_dir + "/" + file_name` names from the working folder
      `here`; an empty folder gives a path at the file-system root. */
  function InfoPath(here: Path, dir: string, name: string): Path {
    if dir == "" then [name] else here + [dir, name]
  }

  /** The places of the `info_file_name` entries up to the first one that
      does not parse, and whether all of them parse. */
  function InfoSources(parse: string -> Option<(string, string)>, here: Path, infos: seq<string>): (bool, seq<Path>)
    decreases |infos|
  {
    if infos == [] then (true, [])
    else match parse(infos[0])
      case None => (false, [])
      case Some(fields) =>
        var rest := InfoSources(parse, here, infos[1..]);
        (rest.0, [InfoPath(here, fields.0, fields.1)] + rest.1)
  }

  /** Every entry before the first one that does not parse gives its
      place, in order; all parse exactly when none is missing. */
  lemma {:induction false} InfoSourcesListed(parse: string -> Option<(string, string)>, here: Path, infos: seq<string>)
    ensures var r := InfoSources(parse, here, infos);
      && (r.0 <==> forall k :: 0 <= k < |infos| ==> parse(infos[k]).Some?)
      && |r.1| <= |infos| && (r.0 ==> |r.1| == |infos|)
      && (!r.0 ==> |r.1| < |infos| && parse(infos[|r.1|]).None?)
      && forall k :: 0 <= k < |r.1| ==> parse(infos[k]).Some? && r.1[k] == InfoPath(here, parse(infos[k]).value.0, parse(infos[k]).value.1)
    decreases |infos|
  {
    if infos != [] && parse(infos[0]).Some? {
      InfoSourcesListed(parse, here, infos[1..]);
      var r := InfoSources(parse, here, infos);
      var rest := InfoSources(parse, here, infos[1..]);
      assert r.1 == [InfoPath(here, parse(infos[0]).value.0, parse(infos[0]).value.1)] + rest.1;
      forall k | 0 < k < |infos| ensures infos[k] == infos[1..][k - 1] {
      }
      if !r.0 {
        assert infos[|r.1|] == infos[1..][|rest.1|];
      }
    }
  }

  /** `backup()` up to the `remove_path` loop: the dated folder recreated,
      the README+ manifest and the `info_file_name` files copied into it,
      then the developer folders removed; `false` where a step raises or
      an entry does not parse. */
  function Pruned(m: map<Path, Node>, here: Path, backupDir: Path, today: string, readme: string,
                  infos: seq<string>, devs: seq<string>): (bool, map<Path, Node>)
  {
    var d := backupDir + [today];
    var made := Recreate(m, d);
    if !made.0 then made
    else
      var srcs := InfoSources(EntryFields, here, infos);
      var c := CopiedAll(made.1, [here + [readme]] + srcs.1, d);
      if !c.0 || !srcs.0 then (false, c.1)
      else RemovedAll(c.1, here, devs)
  }

  /** `backup()` run from the working folder `here`. */
  function BackedUp(m: map<Path, Node>, here: Path, backupDir: Path, today: string, readme: string,
                    infos: seq<string>, devs: seq<string>, removes: seq<string>, listings: seq<seq<string>>): (bool, map<Path, Node>)
    requires |listings| == |removes|
  {
    var p := Pruned(m, here, backupDir, today, readme, infos, devs);
    if !p.0 then p else FlattenedAll(p.1, here, removes, listings)
  }

  method Backup(fs: FileSystem, here: Path, backupDir: Path, today: string, readme: string,
                infos: seq<string>, devs: seq<string>, removes: seq<string>)
    returns (ok: bool, ghost listings: seq<seq<string>>)
    modifies fs
    ensures |listings| == |removes|
    ensures var p := Pruned(old(fs.nodes), here, backupDir, today, readme, infos, devs);
      p.0 ==> ListedAll(p.1, here, removes, listings)
    ensures (ok, fs.nodes) == BackedUp(old(fs.nodes), here, backupDir, today, readme, infos, devs, removes, listings)
  {
    listings := seq(|removes|, _ => []);
    var srcs := InfoSources(EntryFields, here, infos);
    ok := BackupFiles(fs, backupDir, today, [here + [readme]] + srcs.1);
    if !ok || !srcs.0 {
      return false, listings;
    }
    ok := RemoveTrees(fs, here, devs);
    if !ok {
      return;
    }
    ok, listings := FlattenFolders(fs, here, removes);
  }

  /** An `info_file_name` entry without a `|` makes the backup fail. */
  lemma BackupRefusesBadEntry(m: map<Path, Node>, here: Path, backupDir: Path, today: string, readme: string,
                              infos: seq<string>, devs: seq<string>, removes: seq<string>, listings: seq<seq<string>>, k: nat)
    requires |listings| == |removes| && k < |infos| && '|' !in infos[k]
    ensures !BackedUp(m, here, backupDir, today, readme, infos, devs, removes, listings).0
  {
    EntryWithoutBar(infos[k]);
    InfoSourcesListed(EntryFields, here, infos);
  }

  /** A backup changes nothing outside the working folder and the dated
      folder. */
  lemma BackedUpFrame(m: map<Path, Node>, here: Path, backupDir: Path, today: string, readme: string,
                      infos: seq<string>, devs: seq<string>, removes: seq<string>, listings: seq<seq<string>>)
    requires |listings| == |removes|
    ensures var r := BackedUp(m, here, backupDir, today, readme, infos, devs, removes, listings).1;
      forall q :: q in m && !Within(here, q) && !Within(backupDir + [today], q) ==> q in r && r[q] == m[q]
  {
    var d := backupDir + [today];
    var srcs := InfoSources(EntryFields, here, infos);
    BackupFilesFrame(m, backupDir, today, [here + [readme]] + srcs.1);
    var made := Recreate(m, d);
    if made.0 {
      var c := CopiedAll(made.1, [here + [readme]] + srcs.1, d);
      if c.0 && srcs.0 {
        RemovedAllExactly(c.1, here, devs);
        var p := RemovedAll(c.1, here, devs);
        forall q, k | 0 <= k < |devs| && Within(here + [devs[k]], q) ensures Within(here, q) {
          assert (here + [devs[k]])[..|here|] == here;
          WithinWithin(here, here + [devs[k]], q);
        }
        if p.0 {
          FlattenedAllFrame(p.1, here, removes, listings);
        }
      }
    }
  }

  /** A place directly in `d` lies outside a folder apart from `d`. */
  lemma ApartChild(here: Path, d: Path, x: string)
    requires Apart(here, d)
    ensures !Within(here, d + [x])
  {
  }

  /** After a successful backup whose dated folder lies apart from the
      working folder, the README+ manifest and every `info_file_name`
      file are regular files in the dated folder. */
  lemma BackupKeepsCopies(m: map<Path, Node>, here: Path, backupDir: Path, today: string, readme: string,
                          infos: seq<string>, devs: seq<string>, removes: seq<string>, listings: seq<seq<string>>)
    requires |listings| == |removes| && Apart(here, backupDir + [today])
    requires BackedUp(m, here, backupDir, today, readme, infos, devs, removes, listings).0
    ensures var d := backupDir + [today];
      var r := BackedUp(m, here, backupDir, today, readme, infos, devs, removes, listings).1;
      && d + [readme] in r && r[d + [readme]].File?
      && forall k :: 0 <= k < |infos| ==>
           EntryFields(infos[k]).Some? && d + [EntryFields(infos[k]).value.1] in r && r[d + [EntryFields(infos[k]).value.1]].File?
  {
    var d := backupDir + [today];
    var made := Recreate(m, d);
    var srcs := InfoSources(EntryFields, here, infos);
    InfoSourcesListed(EntryFields, here, infos);
    var sources := [here + [readme]] + srcs.1;
    var c := CopiedAll(made.1, sources, d);
    CopiedAllPlacesCopies(made.1, sources, d);
    RemovedAllExactly(c.1, here, devs);
    var p := RemovedAll(c.1, here, devs);
    FlattenedAllFrame(p.1, here, removes, listings);
    var r := FlattenedAll(p.1, here, removes, listings).1;
    forall k | 0 <= k < |sources| ensures Target(sources[k], d) in r && r[Target(sources[k], d)].File? {
      var x := sources[k][|sources[k]| - 1];
      ApartChild(here, d, x);
      forall j | 0 <= j < |devs| ensures !Within(here + [devs[j]], d + [x]) {
        assert (here + [devs[j]])[..|here|] == here;
        if Within(here + [devs[j]], d + [x]) {
          WithinWithin(here, here + [devs[j]], d + [x]);
        }
      }
    }
    assert Target(sources[0], d) == d + [readme];
    forall k | 0 <= k < |infos| ensures Target(sources[k + 1], d) == d + [EntryFields(infos[k]).value.1] {
      assert sources[k + 1] == srcs.1[k];
    }
  }

  // ---------------------------------------------------------------------
  // update

  /** The first half of `update()`: the staging folder `dest/temp`
      recreated and the files downloaded into it.  When `create_tmp_dir`
      fails, the `logging.error` call after it names the unbound `e` and
      raises. */
  method Stage(fs: FileSystem, dest: Path, net: Net, max: int, entries: seq<string>,
               staged: map<Path, Node>, readme: string, url: string, now: string, elapsed: Elapsed)
    returns (r: Exit)
    requires forall q :: q in staged ==> Within(dest + ["temp"], q)
    modifies fs
    ensures var temp := dest + ["temp"];
      var made := Recreate(old(fs.nodes), temp);
      var run := DownloadRun(made.1, temp, net, max, entries, staged, readme, url, now, elapsed);
      && (!made.0 ==> r == Raise && fs.nodes == made.1)
      && (made.0 ==> r == run.0 && fs.nodes == run.2)
    ensures forall q :: q in old(fs.nodes) && !Within(dest + ["temp"], q) ==> q in fs.nodes && fs.nodes[q] == old(fs.nodes)[q]
  {
    var temp := dest + ["temp"];
    ghost var m0 := fs.nodes;
    RecreateFrame(m0, temp);
    var made := CreateTmpDir(fs, dest);
    if made.None? {
      return Raise;
    }
    ghost var m1 := fs.nodes;
    var downloaded;
    r, downloaded := Download(fs, temp, net, max, entries, staged, readme, url, now, elapsed);
    DownloadFrame(m1, temp, net, max, entries, staged, readme, url, now, elapsed);
    assert Within(temp, temp + [readme]) by {
      assert (temp + [readme])[..|temp|] == temp;
    }
  }

  /** The second half of `update()`: the backup, run from the staging
      folder, then the regular files of `dest` replaced by the staged ones
      and the staging folder removed; any failure gives `False`. */
  method Publish(fs: FileSystem, dest: Path, backupDir: Path, today: string, readme: string,
                 infos: seq<string>, devs: seq<string>, removes: seq<string>)
    returns (r: Exit, ghost listings: seq<seq<string>>)
    modifies fs
    ensures |listings| == |removes|
    ensures var temp := dest + ["temp"];
      var p := Pruned(old(fs.nodes), temp, backupDir, today, readme, infos, devs);
      var b := BackedUp(old(fs.nodes), temp, backupDir, today, readme, infos, devs, removes, listings);
      && (p.0 ==> ListedAll(p.1, temp, removes, listings))
      && (!b.0 ==> r == Return(false) && fs.nodes == b.1)
      && (b.0 ==> r == Return(Promoted(b.1, dest, temp).0) && fs.nodes == Promoted(b.1, dest, temp).1)
  {
    var temp := dest + ["temp"];
    var ok;
    ok, listings := Backup(fs, temp, backupDir, today, readme, infos, devs, removes);
    if !ok {
      return Return(false), listings;
    }
    ok := Promote(fs, dest, temp);
    r := Return(ok);
  }

  /** `update()`: staging, backup and promotion.  A failed download keeps
      its outcome; a failed backup or promotion gives `False`.  Nothing
      outside `dest` and the dated backup folder changes.  On success the
      staging folder is gone, every staged entry sits directly in `dest`,
      every regular file directly in `dest` was staged, and, when the
      backup folder lies apart from `dest`, every folder of `dest` with no
      staged counterpart is still there. */
  method Update(fs: FileSystem, dest: Path, backupDir: Path, today: string, net: Net, max: int, entries: seq<string>,
                staged: map<Path, Node>, readme: string, url: string, now: string, elapsed: Elapsed,
                infos: seq<string>, devs: seq<string>, removes: seq<string>)
    returns (r: Exit, ghost staging: map<Path, Node>, ghost listings: seq<seq<string>>)
    requires forall q :: q in staged ==> Within(dest + ["temp"], q)
    modifies fs
    ensures var temp := dest + ["temp"];
      var made := Recreate(old(fs.nodes), temp);
      var run := DownloadRun(made.1, temp, net, max, entries, staged, readme, url, now, elapsed);
      && (!made.0 ==> r == Raise)
      && (made.0 && run.0 != Return(true) ==> r == run.0)
      && (made.0 && run.0 == Return(true) ==>
            && |listings| == |removes|
            && var b := BackedUp(run.2, temp, backupDir, today, readme, infos, devs, removes, listings);
               && (!b.0 ==> r == Return(false))
               && (b.0 ==> staging == b.1 && r == Return(Promoted(staging, dest, temp).0)))
    ensures forall q :: q in old(fs.nodes) && !Within(dest, q) && !Within(backupDir + [today], q) ==> q in fs.nodes && fs.nodes[q] == old(fs.nodes)[q]
    ensures r == Return(true) ==>
      var temp := dest + ["temp"];
      && (forall q :: q in fs.nodes ==> !Within(temp, q))
      && (forall n :: n != "temp" && temp + [n] in staging ==> dest + [n] in fs.nodes && fs.nodes[dest + [n]] == staging[temp + [n]])
      && (forall n :: dest + [n] in fs.nodes && fs.nodes[dest + [n]].File? ==> temp + [n] in staging)
    ensures r == Return(true) && Apart(dest, backupDir + [today]) ==>
      forall n :: n != "temp" && dest + [n] in old(fs.nodes) && old(fs.nodes)[dest + [n]].Dir? && dest + ["temp", n] !in staging ==>
        dest + [n] in fs.nodes && fs.nodes[dest + [n]] == Dir
  {
    var temp := dest + ["temp"];
    ghost var m0 := fs.nodes;
    staging := m0;
    listings := seq(|removes|, _ => []);
    assert Within(dest, temp) by {
      assert temp[..|dest|] == dest;
    }
    forall q | Within(temp, q) ensures Within(dest, q) {
      WithinWithin(dest, temp, q);
    }
    r := Stage(fs, dest, net, max, entries, staged, readme, url, now, elapsed);
    if r != Return(true) {
      return;
    }
    ghost var m1 := fs.nodes;
    r, listings := Publish(fs, dest, backupDir, today, readme, infos, devs, removes);
    staging := BackedUp(m1, temp, backupDir, today, readme, infos, devs, removes, listings).1;
    BackedUpFrame(m1, temp, backupDir, today, readme, infos, devs, removes, listings);
    PromotedFrame(staging, dest);
    if r == Return(true) {
      PromotedFiles(staging, dest);
      PromotedKeepsFolders(staging, dest);
      if Apart(dest, backupDir + [today]) {
        forall n | n != "temp" && dest + [n] in m0
          ensures !Within(temp, dest + [n]) && !Within(backupDir + [today], dest + [n])
        {
          assert (dest + [n])[|dest|] != temp[|dest|];
          ApartChild(backupDir + [today], dest, n);
        }
      }
    }
  }
}
