/** The NCBI taxonomy adapter (brdm/NcbiTaxonomyData.py): the `.dmp` line
    reformatter, the login retry loop, the attempt loop of `download`, and
    `update` with its final pruning of the destination folder. */
module NcbiTaxonomyData {
  import opened Wrappers
  import opened Strings
  import opened FileSystem
  import opened BaseRefData
  import opened AdapterCommon

  // ---------------------------------------------------------------------
  // format_taxonomy

  const TaxonomyHeader: string :=
    "taxon_id\ttaxon_name\t" + "d_domain; k_kingdom; " + "p_phylum; c_class; "
    + "o_order; f_family; " + "g_genus; s_species" + "\n"

  /** The ranks column of an output line, from the ten `.dmp` fields
      `tax_id, tax_name, species, genus, family, order, class, phylum,
      kingdom, superkingdom`. */
  function Ranks(x: seq<string>): string
    requires |x| == 10
  {
    Join(RanksList(x), "; ")
  }

  /** The eight ranks from the domain down, each behind its one-letter tag:
      `"d_" + superkingdom + "; k_" + kingdom + ... + "; s_" + species`. */
  function RanksList(x: seq<string>): seq<string>
    requires |x| == 10
  {
    ["d_" + x[9], "k_" + x[8], "p_" + x[7], "c_" + x[6], "o_" + x[5], "f_" + x[4], "g_" + x[3], "s_" + x[2]]
  }

  /** The output line for the ten fields of one input line:
      `tax_id + "\t" + tax_name + "\t" + ranks + "\n"`. */
  function Record(x: seq<string>): string
    requires |x| == 10
  {
    Join([x[0], x[1], Ranks(x)], "\t") + "\n"
  }

  /** One input line: its last three characters dropped (`line[:-3]`, the
      `\t|\n` that closes a `.dmp` row), split on `\t|\t`; the unpacking into
      ten names raises unless there are exactly ten fields. */
  function TaxonomyLine(line: string): Option<string> {
    var x := Split(DropLast(line, 3), "\t|\t");
    if |x| == 10 then Some(Record(x)) else None
  }

  /** `format_taxonomy` on a `.dmp` file holding `dmp` (`None` when it cannot
      be opened): whether it returns `True`, and the text of the output file
      when it ends (the header and the lines before any bad one). */
  function FormatResult(dmp: Option<string>): (bool, string) {
    Converted(TaxonomyHeader, TaxonomyLine, dmp)
  }

  /** An output file begun with `header` and continued with the lines of
      `dmp` converted by `convert`, up to the first that does not convert. */
  function Converted(header: string, convert: string -> Option<string>, dmp: Option<string>): (bool, string) {
    if dmp.None? then (false, header)
    else
      var r := FormatFrom(convert, ReadLines(dmp.value), 0);
      (r.0, header + Concat(r.1))
  }

  /** `format_taxonomy(filename)`: opens `filename.txt` for writing (`False`
      when it cannot), then converts `filename.dmp`; the output file keeps
      whatever was written before an error. */
  method FormatTaxonomy(fs: FileSystem, dir: Path, filename: string) returns (ok: bool)
    modifies fs
    ensures var out := dir + [filename + ".txt"];
      var writable := old(fs.IsDir(dir) && !fs.IsDir(out));
      var r := FormatResult(old(fs.ReadFile(dir + [filename + ".dmp"])));
      && (ok <==> writable && r.0)
      && fs.nodes == if writable then old(fs.nodes)[out := File(r.1)] else old(fs.nodes)
  {
    var out := dir + [filename + ".txt"];
    var dmpPath := dir + [filename + ".dmp"];
    assert out[..|out| - 1] == dir;
    var dmp := fs.ReadFile(dmpPath);
    ok := ConvertInto(fs, out, TaxonomyHeader, TaxonomyLine, dmp);
  }

  /** The writing half of `format_taxonomy`, with the `.dmp` text already
      read: the output file is created holding `header`, then rewritten
      with the converted lines. */
  method ConvertInto(fs: FileSystem, out: Path, header: string, convert: string -> Option<string>, dmp: Option<string>)
    returns (ok: bool)
    requires out != []
    modifies fs
    ensures var writable := old(fs.IsDir(out[..|out| - 1]) && !fs.IsDir(out));
      var r := Converted(header, convert, dmp);
      && (ok <==> writable && r.0)
      && fs.nodes == if writable then old(fs.nodes)[out := File(r.1)] else old(fs.nodes)
  {
    ghost var m0 := fs.nodes;
    var created := fs.WriteFile(out, header);
    if !created {
      return false;
    }
    if dmp.None? {
      return false;
    }
    var text;
    ok, text := FormatLines(convert, ReadLines(dmp.value));
    var _ := fs.WriteFile(out, header + text);
    assert fs.nodes == m0[out := File(header + text)];
  }

  /** Reading an output line back: its three tab-separated columns, the
      ranks split on `; ` and stripped of their two-letter tags, in the
      `.dmp` field order. */
  function ParseRecord(line: string): Option<seq<string>> {
    var cols := Split(DropLast(line, 1), "\t");
    if |cols| != 3 then None
    else
      var r := Split(cols[2], "; ");
      if |r| != 8 then None
      else Some([cols[0], cols[1]] + Untag(r))
  }

  /** The ranks without their tags, from the species up to the domain. */
  function Untag(r: seq<string>): seq<string>
    requires |r| == 8
  {
    [DropFirst(r[7], 2), DropFirst(r[6], 2), DropFirst(r[5], 2), DropFirst(r[4], 2),
     DropFirst(r[3], 2), DropFirst(r[2], 2), DropFirst(r[1], 2), DropFirst(r[0], 2)]
  }

  lemma UntagRanks(x: seq<string>)
    requires |x| == 10
    ensures Untag(RanksList(x)) == x[2..]
  {
    var l := RanksList(x);
    forall k | 0 <= k < 8 ensures DropFirst(l[k], 2) == x[9 - k] {
      assert l[k][2..] == x[9 - k];
    }
  }

  lemma RanksBack(x: seq<string>)
    requires |x| == 10
    requires forall k :: 0 <= k < 10 ==> ';' !in x[k]
    ensures Split(Ranks(x), "; ") == RanksList(x)
  {
    var l := RanksList(x);
    forall k | 0 <= k < 8 ensures "; "[0] !in l[k] {
    }
    SplitJoin(l, "; ");
  }

  lemma ColumnsBack(x: seq<string>)
    requires |x| == 10
    requires forall k :: 0 <= k < 10 ==> '\t' !in x[k]
    ensures Split(DropLast(Record(x), 1), "\t") == [x[0], x[1], Ranks(x)]
  {
    var l := RanksList(x);
    forall k | 0 <= k < 8 ensures '\t' !in l[k] {
    }
    JoinExcludes(l, "; ", '\t');
    var cols := [x[0], x[1], Ranks(x)];
    SplitJoin(cols, "\t");
    assert DropLast(Record(x), 1) == Join(cols, "\t");
  }

  /** The reformatting loses nothing: as long as no field holds a tab or a
      semicolon, the ten fields are read back from the output line. */
  lemma RecordRoundTrip(x: seq<string>)
    requires |x| == 10
    requires forall k :: 0 <= k < 10 ==> '\t' !in x[k] && ';' !in x[k]
    ensures ParseRecord(Record(x)) == Some(x)
  {
    var cols := Split(DropLast(Record(x), 1), "\t");
    assert cols == [x[0], x[1], Ranks(x)] by {
      ColumnsBack(x);
    }
    var r := Split(cols[2], "; ");
    assert r == RanksList(x) by {
      RanksBack(x);
    }
    assert Untag(r) == x[2..] by {
      UntagRanks(x);
    }
    assert x == [x[0], x[1]] + x[2..];
  }

  /** An output line is one line of the output file when the input line
      had no newline but at its end, as `readlines` yields it. */
  lemma TaxonomyLineIsLine(line: string)
    requires NewlineOnlyAtEnd(line)
    ensures TaxonomyLine(line).Some? ==> IsLine(TaxonomyLine(line).value)
  {
    var body := DropLast(line, 3);
    var x := Split(body, "\t|\t");
    if |x| == 10 {
      assert '\n' !in body by {
        forall j | 0 <= j < |body| ensures body[j] != '\n' {
          assert body[j] == line[j];
        }
      }
      SplitPartsWithin(body, "\t|\t");
      assert forall k :: 0 <= k < 10 ==> '\n' !in x[k];
      var l := RanksList(x);
      JoinExcludes(l, "; ", '\n');
      JoinExcludes([x[0], x[1], Ranks(x)], "\t", '\n');
      LineOf(Join([x[0], x[1], Ranks(x)], "\t"));
    }
  }

  /** The output file read back line by line is the header followed by one
      line per converted input line, in input order. */
  lemma FormattedReadsBack(dmp: Option<string>)
    ensures ReadLines(FormatResult(dmp).1)
      == [TaxonomyHeader] + (if dmp.None? then [] else FormatFrom(TaxonomyLine, ReadLines(dmp.value), 0).1)
  {
    HeaderIsLine();
    forall l | NewlineOnlyAtEnd(l) && TaxonomyLine(l).Some? ensures IsLine(TaxonomyLine(l).value) {
      TaxonomyLineIsLine(l);
    }
    if dmp.None? {
      ConvertedReadBack(TaxonomyHeader, TaxonomyLine, []);
      assert TaxonomyHeader + Concat([]) == TaxonomyHeader;
    } else {
      ReadLinesInner(dmp.value);
      ConvertedReadBack(TaxonomyHeader, TaxonomyLine, ReadLines(dmp.value));
    }
  }

  lemma HeaderIsLine()
    ensures IsLine(TaxonomyHeader)
  {
    var a, b, c, d, e := "taxon_id\ttaxon_name\t", "d_domain; k_kingdom; ", "p_phylum; c_class; ",
      "o_order; f_family; ", "g_genus; s_species";
    assert NoNewline(a) && NoNewline(b) && NoNewline(c) && NoNewline(d) && NoNewline(e);
    NoNewlineConcat(a, b);
    NoNewlineConcat(a + b, c);
    NoNewlineConcat(a + b + c, d);
    NoNewlineConcat(a + b + c + d, e);
    var body := a + b + c + d + e;
    assert '\n' !in body by {
      forall j | 0 <= j < |body| ensures body[j] != '\n' {
      }
    }
    LineOf(body);
  }

  // ---------------------------------------------------------------------
  // https_connect

  /** `https_connect`: `post(k)` says whether login attempt `k` goes
      through.  A failed attempt uses up one of `retry` tries; a negative
      `retry` never runs out, so `fuel` bounds the attempts there. */
  method HttpsConnect(retry: int, post: nat -> bool, fuel: nat) returns (connected: bool, attempts: nat)
    ensures var bound := if retry >= 0 then retry else fuel;
      && (connected <==> exists k :: 1 <= k <= bound && post(k))
      && (connected ==> 1 <= attempts <= bound && post(attempts))
      && (forall k :: 1 <= k < attempts ==> !post(k))
      && (!connected ==> attempts == bound)
  {
    var retryNum := retry;
    connected := false;
    attempts := 0;
    ghost var bound := if retry >= 0 then retry else fuel;
    while !connected && retryNum != 0 && (retry >= 0 || attempts < fuel)
      invariant attempts <= bound
      invariant retry >= 0 ==> retryNum == retry - attempts + (if connected then 1 else 0)
      invariant retry < 0 ==> retryNum < 0
      invariant connected ==> attempts >= 1 && post(attempts)
      invariant forall k :: 1 <= k < attempts ==> !post(k)
      invariant !connected ==> !post(attempts) || attempts == 0
      decreases bound - attempts, if connected then 0 else 1
    {
      attempts := attempts + 1;
      if post(attempts) {
        connected := true;
      } else {
        retryNum := retryNum - 1;
      }
    }
  }

  // ---------------------------------------------------------------------
  // download

  /** The outcome of the network and of the files `download` reads back, by
      attempt (from 1). */
  datatype Net = Net(
    readme: nat -> bool,              // the provider's readme arrives
    md5Text: nat -> Option<string>,   // the `.md5` sidecar as `checksum` reads it
    data: nat -> Option<string>,      // the taxdump archive as `check_md5` reads it
    extracts: bool,                   // unpacking the archive succeeds
    md5: string -> string)            // the MD5 hex digest (RFC 1321)

  /** `while attempt < max_download_attempts and not completed` from attempt
      `a` on: `readme_success` and `download_success` at the end.  A part
      that has arrived is not fetched again. */
  function Attempts(net: Net, max: int, a: nat, readme: bool, download: bool): (bool, bool)
    decreases max - a
  {
    if a < max && !(readme && download) then
      var readme' := if readme then true else net.readme(a + 1);
      var download' := if download then true else FirstTokenChecksum(net.md5Text(a + 1), net.data(a + 1), net.md5);
      Attempts(net, max, a + 1, readme', download')
    else (readme, download)
  }

  /** `download(test)`: `completed` needs both parts.  Without it the test
      of the unbound `unzip_success` raises; with `test` set the archive's
      name `file_name_taxon` is never bound and unpacking it raises. */
  function DownloadResult(net: Net, max: int, test: bool, file: string): Exit {
    var parts := Attempts(net, max, 0, false, test);
    if !(parts.0 && parts.1) then Raise
    else if test then Raise
    else Return(UnzipFile(file, net.extracts))
  }

  method Download(net: Net, max: int, test: bool, file: string) returns (exit: Exit)
    ensures exit == DownloadResult(net, max, test, file)
  {
    var readme := false;
    var download := test;
    var completed := false;
    var attempt := 0;
    var fileNameTaxon: Option<string> := None;
    while attempt < max && !completed
      invariant completed <==> readme && download && attempt > 0
      invariant attempt == 0 ==> !readme && download == test
      invariant test ==> download
      invariant fileNameTaxon.Some? <==> !test && attempt > 0
      invariant fileNameTaxon.Some? ==> fileNameTaxon.value == file
      invariant Attempts(net, max, 0, false, test) == Attempts(net, max, attempt, readme, download)
      decreases max - attempt
    {
      attempt := attempt + 1;
      if !readme {
        readme := net.readme(attempt);
      }
      if !download {
        fileNameTaxon := Some(file);
        download := FirstTokenChecksum(net.md5Text(attempt), net.data(attempt), net.md5);
      }
      if download && readme {
        completed := true;
      }
    }
    if !completed || fileNameTaxon.None? {
      return Raise;
    }
    exit := Return(UnzipFile(fileNameTaxon.value, net.extracts));
  }

  /** Each part is tried until it arrives: the loop ends with the readme
      exactly when some attempt brought it, and with the archive exactly
      when it was given (`test`) or some attempt's checksum passed. */
  lemma {:induction false} AttemptsSucceed(net: Net, max: int, a: nat, readme: bool, download: bool)
    ensures var r := Attempts(net, max, a, readme, download);
      && (r.0 <==> readme || exists b :: a < b <= max && net.readme(b))
      && (r.1 <==> download || exists b :: a < b <= max && FirstTokenChecksum(net.md5Text(b), net.data(b), net.md5))
    decreases max - a
  {
    if a < max && !(readme && download) {
      var readme' := if readme then true else net.readme(a + 1);
      var download' := if download then true else FirstTokenChecksum(net.md5Text(a + 1), net.data(a + 1), net.md5);
      AttemptsSucceed(net, max, a + 1, readme', download');
    }
  }

  /** `download()` returns `True` exactly when some attempt brought the
      readme, some attempt's checksum passed and the archive unpacks; it
      returns `False` only for an archive that does not unpack, and raises
      in every other case, including every run in test mode. */
  lemma DownloadOutcome(net: Net, max: int, test: bool, file: string)
    ensures var readme := exists b :: 1 <= b <= max && net.readme(b);
      var archive := exists b :: 1 <= b <= max && FirstTokenChecksum(net.md5Text(b), net.data(b), net.md5);
      && (DownloadResult(net, max, test, file) == Return(true)
          <==> !test && readme && archive && UnzipFile(file, net.extracts))
      && (DownloadResult(net, max, test, file) == Return(false)
          <==> !test && readme && archive && !UnzipFile(file, net.extracts))
  {
    AttemptsSucceed(net, max, 0, false, test);
  }

  // ---------------------------------------------------------------------
  // update

  /** The text of the regular file at `p`, as reading it gives it. */
  function TextAt(m: map<Path, Node>, p: Path): Option<string> {
    if p in m && m[p].File? then Some(m[p].data) else None
  }

  /** The tree after `format_taxonomy(filename)` in `dir`: the output file
      holds what `FormatResult` makes of the `.dmp` file, when it can be
      opened for writing. */
  function Formatted(m: map<Path, Node>, dir: Path, filename: string): map<Path, Node> {
    var out := dir + [filename + ".txt"];
    if DirIn(m, dir) && !DirIn(m, out) then m[out := File(FormatResult(TextAt(m, dir + [filename + ".dmp"])).1)] else m
  }

  /** The regular files `update` keeps in the destination. */
  function Kept(readme: string, info: string, taxonomy: string): set<string> {
    {readme, info, taxonomy + ".txt"}
  }

  /** Formatting the taxonomy in `dest`, then deleting every regular file
      there but the kept ones: whether the deletion ran, and the tree. */
  function Tidied(m: map<Path, Node>, dest: Path, readme: string, info: string, taxonomy: string): (bool, map<Path, Node>) {
    var f := Formatted(m, dest, taxonomy);
    if DirIn(f, dest) then (true, WithoutFiles(f, dest, Kept(readme, info, taxonomy))) else (false, f)
  }

  /** The rest of `update` once the staging folder holds the download:
      installing it, then tidying the destination. */
  function Published(m: map<Path, Node>, dest: Path, readme: string, info: string, taxonomy: string): (bool, map<Path, Node>) {
    var installed := Promoted(m, dest, dest + ["temp"]);
    if !installed.0 then installed else Tidied(installed.1, dest, readme, info, taxonomy)
  }

  /** The comment `download` writes into the README+ manifest. */
  const Comment: string := "This folder contains taxonomy reference databases that downloaded from NCBI."

  /** `update()`.  `staged` is what the download leaves in the staging
      folder; the README+ manifest names the archive.  A failed staging
      folder or download is the answer; after a successful download the
      answer and the tree are `Published`'s, which `PublishedOutcome`
      spells out. */
  method Update(fs: FileSystem, dest: Path, readme: string, info: string, taxonomy: string, file: string,
                net: Net, max: int, staged: map<Path, Node>, now: string, url: string, elapsed: Elapsed)
    returns (r: Exit)
    requires forall q :: q in staged ==> Within(dest + ["temp"], q) && q != dest + ["temp"]
    modifies fs
    ensures var made := Recreate(old(fs.nodes), dest + ["temp"]);
      var downloaded := DownloadResult(net, max, false, file);
      !made.0 || downloaded != Return(true) ==>
        && r == (if made.0 then downloaded else Return(false))
        && forall q :: q in old(fs.nodes) && !Within(dest + ["temp"], q) ==> q in fs.nodes && fs.nodes[q] == old(fs.nodes)[q]
    ensures var made := Recreate(old(fs.nodes), dest + ["temp"]);
      var staging := Manifested(made.1 + staged, dest + ["temp"], readme, ReadmeText(Comment, now, url, elapsed, [file], []));
      made.0 && DownloadResult(net, max, false, file) == Return(true) ==>
        (r, fs.nodes) == (Return(Published(staging, dest, readme, info, taxonomy).0), Published(staging, dest, readme, info, taxonomy).1)
    ensures r == Return(true) ==>
      && dest + ["temp"] !in fs.nodes
      && forall n :: dest + [n] in fs.nodes && fs.nodes[dest + [n]].File? ==> n in Kept(readme, info, taxonomy)
  {
    var temp := dest + ["temp"];
    ghost var m0 := fs.nodes;
    var made := RecreateDir(fs, temp);
    RecreateFrame(m0, temp);
    if !made {
      return Return(false);
    }
    var exit := Download(net, max, false, file);
    fs.nodes := fs.nodes + staged;
    if exit != Return(true) {
      return exit;
    }
    ghost var staging := fs.nodes;
    r := Publish(fs, dest, readme, info, taxonomy, file, now, url, elapsed);
    if r == Return(true) {
      PublishedOutcome(Manifested(staging, temp, readme, ReadmeText(Comment, now, url, elapsed, [file], [])), dest, readme, info, taxonomy);
    }
  }

  /** The end of `download` and the rest of `update`: the README+ manifest
      goes into the staging folder, which is installed, and the destination
      is tidied. */
  method Publish(fs: FileSystem, dest: Path, readme: string, info: string, taxonomy: string, file: string,
                 now: string, url: string, elapsed: Elapsed)
    returns (r: Exit)
    modifies fs
    ensures var staging := Manifested(old(fs.nodes), dest + ["temp"], readme, ReadmeText(Comment, now, url, elapsed, [file], []));
      (r, fs.nodes) == (Return(Published(staging, dest, readme, info, taxonomy).0), Published(staging, dest, readme, info, taxonomy).1)
  {
    assert dest + ["temp", readme] == dest + ["temp"] + [readme];
    var _ := WriteReadme(fs, dest + ["temp", readme], Comment, now, url, elapsed, [file], []);
    var ok := Install(fs, dest);
    if !ok {
      return Return(false);
    }
    ok := Tidy(fs, dest, readme, info, taxonomy);
    r := Return(ok);
  }

  /** Promoting the download folder; afterwards it is gone. */
  method Install(fs: FileSystem, dest: Path) returns (ok: bool)
    modifies fs
    ensures (ok, fs.nodes) == Promoted(old(fs.nodes), dest, dest + ["temp"])
    ensures ok ==> dest + ["temp"] !in fs.nodes
  {
    ghost var m := fs.nodes;
    ok := Promote(fs, dest, dest + ["temp"]);
    if ok {
      PromotedFiles(m, dest);
      assert Within(dest + ["temp"], dest + ["temp"]);
    }
  }

  /** Formatting the taxonomy in the destination and deleting every regular
      file there but the two readmes and the formatted taxonomy. */
  method Tidy(fs: FileSystem, dest: Path, readme: string, info: string, taxonomy: string) returns (ok: bool)
    modifies fs
    ensures (ok, fs.nodes) == Tidied(old(fs.nodes), dest, readme, info, taxonomy)
  {
    ghost var m0 := fs.nodes;
    assert old(fs.ReadFile(dest + [taxonomy + ".dmp"])) == TextAt(m0, dest + [taxonomy + ".dmp"]);
    var _ := FormatTaxonomy(fs, dest, taxonomy);
    assert fs.nodes == Formatted(m0, dest, taxonomy);
    ok := RemoveRegularFiles(fs, dest, Kept(readme, info, taxonomy));
  }

  /** Tidying the destination: it runs exactly when the destination is a
      folder; then the only regular files left directly in it are the kept
      ones; the two readmes, every subfolder and everything not directly in
      the destination stay as they were; the formatted taxonomy holds the
      `.dmp` file's conversion unless a folder of that name is in the way;
      and nothing else is added.  When it does not run nothing changes. */
  lemma TidiedKeeps(m: map<Path, Node>, dest: Path, readme: string, info: string, taxonomy: string)
    ensures var r := Tidied(m, dest, readme, info, taxonomy);
      var out := dest + [taxonomy + ".txt"];
      && (r.0 <==> DirIn(m, dest))
      && (!r.0 ==> r.1 == m)
      && (r.0 ==> forall n :: dest + [n] in r.1 && r.1[dest + [n]].File? ==> n in Kept(readme, info, taxonomy))
      && (r.0 ==> forall n :: n in {readme, info} && n != taxonomy + ".txt" && dest + [n] in m ==>
                    dest + [n] in r.1 && r.1[dest + [n]] == m[dest + [n]])
      && (r.0 ==> forall n :: dest + [n] in m && m[dest + [n]].Dir? ==> dest + [n] in r.1 && r.1[dest + [n]] == Dir)
      && (forall q :: q in m && !(|q| == |dest| + 1 && q[..|dest|] == dest) ==> q in r.1 && r.1[q] == m[q])
      && (r.0 ==> out in r.1 && (r.1[out].Dir? || r.1[out] == File(FormatResult(TextAt(m, dest + [taxonomy + ".dmp"])).1)))
      && (forall q :: q in r.1 ==> q in m || q == out)
  {
    var out := dest + [taxonomy + ".txt"];
    var f := Formatted(m, dest, taxonomy);
    var keep := Kept(readme, info, taxonomy);
    assert out[..|dest|] == dest && out[|dest|] == taxonomy + ".txt";
    assert DirIn(f, dest) <==> DirIn(m, dest) by {
      assert dest != out;
    }
    if DirIn(m, dest) {
      WithoutFilesRemovesExactly(f, dest, keep);
      var r := WithoutFiles(f, dest, keep);
      forall n | dest + [n] in m && m[dest + [n]].Dir? ensures dest + [n] in r && r[dest + [n]] == Dir {
        assert f[dest + [n]] == m[dest + [n]];
      }
      assert out in f;
    }
  }

  /** After a successful download the rest of `update` answers `True`
      exactly when the staging folder is installed.  Then the staging
      folder is gone; the only regular files left directly in the
      destination are the kept ones; the two readmes are the staged ones;
      the formatted taxonomy holds the conversion of the staged `.dmp`
      file unless a folder of that name is in the way; and nothing outside
      the destination has changed. */
  lemma PublishedOutcome(m: map<Path, Node>, dest: Path, readme: string, info: string, taxonomy: string)
    ensures var r := Published(m, dest, readme, info, taxonomy);
      var temp := dest + ["temp"];
      var out := dest + [taxonomy + ".txt"];
      && (r.0 <==> Promoted(m, dest, temp).0)
      && (r.0 ==> temp !in r.1)
      && (r.0 ==> forall n :: dest + [n] in r.1 && r.1[dest + [n]].File? ==> n in Kept(readme, info, taxonomy))
      && (r.0 ==> forall n :: n in {readme, info} && n != taxonomy + ".txt" && n != "temp" && temp + [n] in m ==>
                    dest + [n] in r.1 && r.1[dest + [n]] == m[temp + [n]])
      && (r.0 ==> out in r.1 && (r.1[out].Dir? || r.1[out] == File(FormatResult(TextAt(m, temp + [taxonomy + ".dmp"])).1)))
      && (r.0 ==> forall q :: q in m && !Within(dest, q) ==> q in r.1 && r.1[q] == m[q])
  {
    var temp := dest + ["temp"];
    var installed := Promoted(m, dest, temp);
    if installed.0 {
      var i := installed.1;
      PromotedFiles(m, dest);
      PromotedKeepsDest(m, dest);
      TidiedKeeps(i, dest, readme, info, taxonomy);
      var r := Tidied(i, dest, readme, info, taxonomy).1;
      TempGone(i, r, dest, taxonomy);
      ReadmesMoved(m, i, r, dest, readme, info, taxonomy);
      var dmp := taxonomy + ".dmp";
      assert dmp != "temp" by {
        assert dmp[|taxonomy|] == '.';
      }
      TextMoved(m, i, dest, dmp);
      OutsideKept(m, i, r, dest);
    }
  }

  /** The staging folder, gone after the promotion, does not come back. */
  lemma TempGone(i: map<Path, Node>, r: map<Path, Node>, dest: Path, taxonomy: string)
    requires forall q :: q in i ==> !Within(dest + ["temp"], q)
    requires forall q :: q in r ==> q in i || q == dest + [taxonomy + ".txt"]
    ensures dest + ["temp"] !in r
  {
    var temp := dest + ["temp"];
    var out := dest + [taxonomy + ".txt"];
    assert Within(temp, temp);
    assert temp != out by {
      assert temp[|dest|] != out[|dest|] by {
        assert (taxonomy + ".txt")[|taxonomy|] == '.';
      }
    }
  }

  /** The readmes the promotion moved up survive the tidying. */
  lemma ReadmesMoved(m: map<Path, Node>, i: map<Path, Node>, r: map<Path, Node>, dest: Path, readme: string, info: string, taxonomy: string)
    requires forall n :: n != "temp" && dest + ["temp"] + [n] in m ==> dest + [n] in i && i[dest + [n]] == m[dest + ["temp"] + [n]]
    requires forall n :: n in {readme, info} && n != taxonomy + ".txt" && dest + [n] in i ==> dest + [n] in r && r[dest + [n]] == i[dest + [n]]
    ensures forall n :: n in {readme, info} && n != taxonomy + ".txt" && n != "temp" && dest + ["temp"] + [n] in m ==>
      dest + [n] in r && r[dest + [n]] == m[dest + ["temp"] + [n]]
  {
  }

  /** What lies outside the destination survives the promotion and the
      tidying. */
  lemma OutsideKept(m: map<Path, Node>, i: map<Path, Node>, r: map<Path, Node>, dest: Path)
    requires forall q :: q in m && !Within(dest, q) ==> q in i && i[q] == m[q]
    requires forall q :: q in i && !(|q| == |dest| + 1 && q[..|dest|] == dest) ==> q in r && r[q] == i[q]
    ensures forall q :: q in m && !Within(dest, q) ==> q in r && r[q] == m[q]
  {
    forall q | q in m && !Within(dest, q) ensures q in r && r[q] == m[q] {
      assert !(|q| == |dest| + 1 && q[..|dest|] == dest);
    }
  }

  /** A file that the promotion moved up from the staging folder reads
      the same. */
  lemma TextMoved(m: map<Path, Node>, i: map<Path, Node>, dest: Path, name: string)
    requires name != "temp"
    requires forall n :: n != "temp" && dest + ["temp"] + [n] in m ==> dest + [n] in i && i[dest + [n]] == m[dest + ["temp"] + [n]]
    requires forall n :: dest + [n] in i && i[dest + [n]].File? ==> dest + ["temp"] + [n] in m
    ensures TextAt(i, dest + [name]) == TextAt(m, dest + ["temp"] + [name])
  {
  }
}
