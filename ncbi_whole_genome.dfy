/** The NCBI whole-genome adapter (brdm/NcbiWholeGenome.py): the parser of
    `assembly_summary.txt`, the digest lookup in `md5checksums.txt`, the
    attempt loops of `download`, `backup`, and the steps of `update` before
    it reaches `clean_destination_dir`. */
module NcbiWholeGenome {
  import opened Wrappers
  import opened Strings
  import opened FileSystem
  import opened BaseRefData
  import opened AdapterCommon

  // ---------------------------------------------------------------------
  // The assembly summary

  const GenomeSuffix: string := "_genomic.fna.gz"

  /** `s.split('/')[-1]`. */
  function LastSegment(s: string): string {
    var parts := Split(s, "/");
    parts[|parts| - 1]
  }

  /** `"{}/{}_genomic.fna.gz".format(dir, dir.split('/')[-1])`: the genome
      archive inside an assembly's folder. */
  function GenomeFile(dir: string): string {
    dir + "/" + LastSegment(dir) + GenomeSuffix
  }

  /** The name `download` gives a genome archive (`a_file.split('/')[-1]`)
      is the assembly's own name with the genome suffix. */
  lemma GenomeFileName(dir: string)
    ensures LastSegment(GenomeFile(dir)) == LastSegment(dir) + GenomeSuffix
  {
    var last := LastSegment(dir);
    var x := last + GenomeSuffix;
    var parts := Split(dir, "/");
    assert !Contains(parts[|parts| - 1], "/");
    ContainsChar(last, '/');
    assert '/' !in GenomeSuffix;
    assert '/' !in x;
    NoOccurrenceWithoutHead(x, "/");
    SplitAround(dir, x, '/');
    assert GenomeFile(dir) == dir + ['/'] + x;
  }

  /** `unzip_file` takes a genome archive for a single gzip member. */
  lemma GenomeFileIsGzip(dir: string)
    ensures ArchiveKindOf(LastSegment(GenomeFile(dir))) == Gzip
  {
    GenomeFileName(dir);
    GzipSuffix(LastSegment(dir));
  }

  lemma GzipSuffix(p: string)
    ensures EndsWith(p + GenomeSuffix, ".gz") && !EndsWith(p + GenomeSuffix, "tar.gz")
  {
    var name := p + GenomeSuffix;
    assert name[|name| - 3..] == GenomeSuffix[|GenomeSuffix| - 3..];
    assert name[|name| - 6] == 'f';
  }

  /** A genome path holds a tab only if its folder does. */
  lemma GenomeFileNoTab(dir: string)
    requires '\t' !in dir
    ensures '\t' !in GenomeFile(dir)
  {
    SplitPartsWithin(dir, "/");
    var parts := Split(dir, "/");
    assert '\t' !in parts[|parts| - 1];
  }

  /** What `parse_assembly_summary` makes of one line after the header:
      `line.split('\t')`, field 11 compared to the assembly level, and for a
      match field 19 made into a genome path; `Malformed` where an index is
      out of range. */
  datatype Row = Skip | Keep(file: string) | Malformed

  function ParseRow(line: string, level: string): Row {
    var items := Split(line, "\t");
    if |items| <= 11 then Malformed
    else if items[11] != level then Skip
    else if |items| <= 19 then Malformed
    else Keep(GenomeFile(items[19]))
  }

  /** The genome paths the lines yield, in order; `None` as soon as one
      line is malformed. */
  function ParseRows(lines: seq<string>, level: string): Option<seq<string>>
    decreases |lines|
  {
    if lines == [] then Some([])
    else
      match ParseRow(lines[0], level)
      case Malformed => None
      case Skip => ParseRows(lines[1..], level)
      case Keep(f) =>
        match ParseRows(lines[1..], level)
        case None => None
        case Some(rest) => Some([f] + rest)
  }

  function Both(a: Option<seq<string>>, b: Option<seq<string>>): Option<seq<string>> {
    if a.Some? && b.Some? then Some(a.value + b.value) else None
  }

  /** Parsing is line by line: the result for `a + b` is the result for `a`
      followed by the result for `b`, and fails if either fails.  With
      `ParseRow` this fixes the order of the paths to that of the lines. */
  lemma {:induction false} ParseRowsAppend(a: seq<string>, b: seq<string>, level: string)
    ensures ParseRows(a + b, level) == Both(ParseRows(a, level), ParseRows(b, level))
    decreases |a|
  {
    if a == [] {
      assert a + b == b;
      if ParseRows(b, level).Some? {
        assert [] + ParseRows(b, level).value == ParseRows(b, level).value;
      }
    } else {
      assert (a + b)[0] == a[0];
      assert (a + b)[1..] == a[1..] + b;
      ParseRowsAppend(a[1..], b, level);
      var x, y := ParseRows(a[1..], level), ParseRows(b, level);
      if ParseRow(a[0], level).Keep? && x.Some? && y.Some? {
        var f := ParseRow(a[0], level).file;
        assert [f] + (x.value + y.value) == ([f] + x.value) + y.value;
      }
    }
  }

  /** A parse succeeds exactly when no line is malformed; then the paths are
      those of the matching lines, and none holds a tab. */
  lemma ParseRowsMembers(lines: seq<string>, level: string)
    ensures ParseRows(lines, level).Some? <==> forall k :: 0 <= k < |lines| ==> !ParseRow(lines[k], level).Malformed?
    ensures ParseRows(lines, level).Some? ==>
      forall f :: f in ParseRows(lines, level).value <==> exists k :: 0 <= k < |lines| && ParseRow(lines[k], level) == Keep(f)
    ensures ParseRows(lines, level).Some? ==> forall f :: f in ParseRows(lines, level).value ==> '\t' !in f
  {
    ParseRowsKept(lines, level);
    if ParseRows(lines, level).Some? {
      forall f | f in ParseRows(lines, level).value ensures '\t' !in f {
        var k :| 0 <= k < |lines| && ParseRow(lines[k], level) == Keep(f);
        KeptHasNoTab(lines[k], level);
      }
    }
  }

  lemma ParseRowsKept(lines: seq<string>, level: string)
    ensures ParseRows(lines, level).Some? <==> forall k :: 0 <= k < |lines| ==> !ParseRow(lines[k], level).Malformed?
    ensures ParseRows(lines, level).Some? ==>
      forall f :: f in ParseRows(lines, level).value <==> exists k :: 0 <= k < |lines| && ParseRow(lines[k], level) == Keep(f)
  {
    var rows := Rows(lines, level);
    ParseRowsCollected(lines, level);
    CollectedKept(rows);
    if ParseRows(lines, level).Some? {
      forall f | f in ParseRows(lines, level).value ensures exists k :: 0 <= k < |lines| && ParseRow(lines[k], level) == Keep(f) {
        var k :| 0 <= k < |rows| && rows[k] == Keep(f);
      }
    }
  }

  /** The row of every line. */
  function Rows(lines: seq<string>, level: string): (rows: seq<Row>)
    ensures |rows| == |lines| && forall k :: 0 <= k < |lines| ==> rows[k] == ParseRow(lines[k], level)
  {
    if lines == [] then [] else [ParseRow(lines[0], level)] + Rows(lines[1..], level)
  }

  /** The paths of the kept rows, `None` once a row is malformed. */
  function Collected(rows: seq<Row>): Option<seq<string>> {
    if rows == [] then Some([])
    else
      match rows[0]
      case Malformed => None
      case Skip => Collected(rows[1..])
      case Keep(f) =>
        match Collected(rows[1..])
        case None => None
        case Some(rest) => Some([f] + rest)
  }

  lemma {:induction false} ParseRowsCollected(lines: seq<string>, level: string)
    ensures ParseRows(lines, level) == Collected(Rows(lines, level))
    decreases |lines|
  {
    if lines != [] {
      ParseRowsCollected(lines[1..], level);
      assert Rows(lines, level)[1..] == Rows(lines[1..], level);
    }
  }

  lemma {:induction false} CollectedKept(rows: seq<Row>)
    ensures Collected(rows).Some? <==> forall k :: 0 <= k < |rows| ==> !rows[k].Malformed?
    ensures Collected(rows).Some? ==>
      forall f :: f in Collected(rows).value <==> exists k :: 0 <= k < |rows| && rows[k] == Keep(f)
    decreases |rows|
  {
    if rows != [] {
      var tail := rows[1..];
      CollectedKept(tail);
      forall k | 0 < k < |rows| ensures rows[k] == tail[k - 1] { }
      if Collected(rows).Some? {
        forall f | (exists k :: 0 <= k < |rows| && rows[k] == Keep(f)) ensures f in Collected(rows).value {
          var k :| 0 <= k < |rows| && rows[k] == Keep(f);
          if k > 0 {
            assert tail[k - 1] == Keep(f);
          }
        }
      }
    }
  }

  /** The path a kept row yields holds no tab. */
  lemma KeptHasNoTab(line: string, level: string)
    ensures ParseRow(line, level).Keep? ==> '\t' !in ParseRow(line, level).file
  {
    if ParseRow(line, level).Keep? {
      var items := Split(line, "\t");
      assert !Contains(items[19], "\t");
      ContainsChar(items[19], '\t');
      GenomeFileNoTab(items[19]);
    }
  }

  lemma ParseRowsOne(line: string, level: string)
    ensures ParseRows([line], level) == match ParseRow(line, level)
      case Malformed => None
      case Skip => Some([])
      case Keep(f) => Some([f])
  {
    assert [line][1..] == [];
    assert [line][0] == line;
    assert ParseRows([], level) == Some([]);
    match ParseRow(line, level)
    case Malformed =>
    case Skip =>
    case Keep(f) => assert [f] + [] == [f];
  }

  lemma RestFails(lines: seq<string>, n: nat, level: string)
    requires n <= |lines| && ParseRows(lines[..n], level).None?
    ensures ParseRows(lines, level).None?
  {
    ParseRowsAppend(lines[..n], lines[n..], level);
    assert lines[..n] + lines[n..] == lines;
  }

  /** The lines `parse_assembly_summary` looks at: `content[3:]`. */
  function Body(lines: seq<string>): seq<string> {
    if |lines| <= 3 then [] else lines[3..]
  }

  /** `parse_assembly_summary` on the file holding `content` (`None` if it
      cannot be opened); `None` for the outcome where it raises: its `except`
      clause names a `file_name` that does not exist there. */
  function AssemblySummary(content: Option<string>, level: string): Option<seq<string>> {
    if content.None? then None else ParseRows(Body(ReadLines(content.value)), level)
  }

  /** The parsing loop, appending to `file_list` row by row. */
  method ParseAssemblySummary(content: Option<string>, level: string) returns (r: Option<seq<string>>)
    ensures r == AssemblySummary(content, level)
  {
    if content.None? {
      return None;
    }
    var lines := Body(ReadLines(content.value));
    var fileList: seq<string> := [];
    for i := 0 to |lines|
      invariant ParseRows(lines[..i], level) == Some(fileList)
    {
      RowsStep(lines, i, level, fileList);
      var items := Split(lines[i], "\t");
      if |items| <= 11 {
        return None;
      }
      if items[11] == level {
        if |items| <= 19 {
          return None;
        }
        var dirName := items[19];
        var dirList := Split(dirName, "/");
        fileList := fileList + [dirName + "/" + dirList[|dirList| - 1] + GenomeSuffix];
      }
    }
    assert lines[..|lines|] == lines;
    r := Some(fileList);
  }

  /** One more line read by the parsing loop: a malformed one fails the
      whole parse, a skipped one adds nothing, a kept one adds its path. */
  lemma RowsStep(lines: seq<string>, i: nat, level: string, fileList: seq<string>)
    requires i < |lines| && ParseRows(lines[..i], level) == Some(fileList)
    ensures ParseRow(lines[i], level).Malformed? ==> ParseRows(lines, level).None?
    ensures ParseRow(lines[i], level).Skip? ==> ParseRows(lines[..i + 1], level) == Some(fileList)
    ensures ParseRow(lines[i], level).Keep? ==> ParseRows(lines[..i + 1], level) == Some(fileList + [ParseRow(lines[i], level).file])
  {
    ParseRowsAppend(lines[..i], [lines[i]], level);
    assert lines[..i + 1] == lines[..i] + [lines[i]];
    ParseRowsOne(lines[i], level);
    if ParseRow(lines[i], level).Malformed? {
      RestFails(lines, i + 1, level);
    }
    if ParseRow(lines[i], level).Skip? {
      assert fileList + [] == fileList;
    }
  }

  // ---------------------------------------------------------------------
  // md5checksums.txt

  /** `line.split('  ')` has a second field and it contains `name`. */
  predicate NamesFile(line: string, name: string) {
    var items := Split(line, "  ");
    |items| >= 2 && Contains(items[1], name)
  }

  function Digest(line: string): string {
    Split(line, "  ")[0]
  }

  predicate HasTwoFields(line: string) {
    |Split(line, "  ")| >= 2
  }

  /** `read_md5`'s loop from `lines` on, `code` being the value of `md5_code`
      so far (`None` while unbound).  A line without a second field raises
      `IndexError`, which the `except` clause turns into `return md5_code`;
      `None` stands for the outcome where that `return` itself raises. */
  function Md5Scan(lines: seq<string>, name: string, code: Option<string>): Option<string>
    decreases |lines|
  {
    if lines == [] then code
    else if !HasTwoFields(lines[0]) then code
    else Md5Scan(lines[1..], name, if NamesFile(lines[0], name) then Some(Digest(lines[0])) else code)
  }

  /** `read_md5(md5_file, name)` on a file holding `content` (`None` if it
      cannot be opened, which also ends in the unbound `md5_code`). */
  function ReadMd5Result(content: Option<string>, name: string): Option<string> {
    if content.None? then None else Md5Scan(ReadLines(content.value), name, None)
  }

  method ReadMd5(content: Option<string>, name: string) returns (r: Option<string>)
    ensures r == ReadMd5Result(content, name)
  {
    if content.None? {
      return None;
    }
    var lines := ReadLines(content.value);
    var code: Option<string> := None;
    var i := 0;
    while i < |lines|
      invariant i <= |lines|
      invariant Md5Scan(lines, name, None) == Md5Scan(lines[i..], name, code)
    {
      assert lines[i..][0] == lines[i] && lines[i..][1..] == lines[i + 1..];
      var items := Split(lines[i], "  ");
      if |items| < 2 {
        return code;
      }
      if Contains(items[1], name) {
        code := Some(items[0]);
      }
      i := i + 1;
    }
    return code;
  }

  /** Index of the first line without a second field, or the number of
      lines: how far the scan gets. */
  function Usable(lines: seq<string>): (n: nat)
    ensures n <= |lines|
    decreases |lines|
  {
    if lines == [] || !HasTwoFields(lines[0]) then 0 else 1 + Usable(lines[1..])
  }

  /** Reference reading, from the end: the digest of the last line naming
      the file. */
  function LastMatch(lines: seq<string>, name: string): Option<string>
    decreases |lines|
  {
    if lines == [] then None
    else if NamesFile(lines[|lines| - 1], name) then Some(Digest(lines[|lines| - 1]))
    else LastMatch(lines[..|lines| - 1], name)
  }

  function OrElse(a: Option<string>, b: Option<string>): Option<string> {
    if a.Some? then a else b
  }

  /** `read_md5` returns the digest of the last line naming the file before
      the first line without a second field; it raises when there is none. */
  lemma ReadMd5PicksLastMatch(lines: seq<string>, name: string)
    ensures Md5Scan(lines, name, None) == LastMatch(lines[..Usable(lines)], name)
  {
    Md5ScanIsLastMatch(lines, name, None);
  }

  lemma {:induction false} Md5ScanIsLastMatch(lines: seq<string>, name: string, code: Option<string>)
    ensures Md5Scan(lines, name, code) == OrElse(LastMatch(lines[..Usable(lines)], name), code)
    decreases |lines|
  {
    if lines != [] && HasTwoFields(lines[0]) {
      var x := lines[0];
      var rest := lines[1..];
      var hit := if NamesFile(x, name) then Some(Digest(x)) else None;
      var code' := OrElse(hit, code);
      assert Md5Scan(lines, name, code) == Md5Scan(rest, name, code');
      Md5ScanIsLastMatch(rest, name, code');
      var t := rest[..Usable(rest)];
      UsableCons(lines);
      LastMatchCons(x, t, name);
      LastMatchOne(x, name);
    }
  }

  lemma UsableCons(lines: seq<string>)
    requires lines != [] && HasTwoFields(lines[0])
    ensures lines[..Usable(lines)] == [lines[0]] + lines[1..][..Usable(lines[1..])]
  {
    assert Usable(lines) == 1 + Usable(lines[1..]);
  }

  lemma LastMatchOne(x: string, name: string)
    ensures LastMatch([x], name) == if NamesFile(x, name) then Some(Digest(x)) else None
  {
    assert [x][..0] == [];
  }

  lemma {:induction false} LastMatchCons(x: string, t: seq<string>, name: string)
    ensures LastMatch([x] + t, name) == OrElse(LastMatch(t, name), LastMatch([x], name))
    decreases |t|
  {
    if t == [] {
      assert [x] + t == [x];
    } else {
      var s := [x] + t;
      assert s[|s| - 1] == t[|t| - 1];
      assert s[..|s| - 1] == [x] + t[..|t| - 1];
      LastMatchCons(x, t[..|t| - 1], name);
    }
  }

  // ---------------------------------------------------------------------
  // download

  /** The outcome of everything `download` leaves to the network, to the
      files it reads back and to code outside this model, indexed by the
      species (its position in the configuration), the attempt (from 1) and
      the position of the file in the file list. */
  datatype Net = Net(
    readme: nat -> bool,                         // the provider's readme arrives
    summary: (nat, nat) -> bool,                 // download_a_file of the assembly summary
    summaryText: (nat, nat) -> Option<string>,   // the summary file as read back
    md5Text: (nat, nat, nat) -> Option<string>,  // md5checksums.txt as read back
    genome: (nat, nat, nat) -> Option<string>,   // the genome archive's bytes as check_md5 reads them
    extracts: (nat, nat, nat) -> bool,           // decompressing the archive succeeds
    md5: string -> string)                       // the MD5 hex digest (RFC 1321)

  /** What `download` carries across files, attempts and species:
      `unzip_success` (`None` while unbound), the counter `downloaded` and the
      manifest lines `downloaded_file`. */
  datatype Progress = Progress(unzip: Option<bool>, downloaded: int, entries: seq<string>)

  /** The manifest line for a genome archive of a species. */
  function ManifestLine(species: string, file: string): string {
    species + "\t" + ReplaceAll(file, "ftp://", "https://")
  }

  /** The body of `if a_file not in downloaded_file` for file `j` of attempt
      `a`: `None` where it raises (no digest in the checksum file, or
      `unzip_success` still unbound), which ends the attempt. */
  function FileStep(net: Net, s: nat, species: string, a: nat, j: nat, file: string, p: Progress): Option<Progress> {
    var name := LastSegment(file);
    match ReadMd5Result(net.md5Text(s, a, j), name)
    case None => None
    case Some(code) =>
      var unzip := if CheckMd5(code, net.genome(s, a, j), net.md5) then Some(UnzipFile(name, net.extracts(s, a, j))) else p.unzip;
      if unzip.None? then None
      else if unzip.value then Some(Progress(unzip, p.downloaded + 1, p.entries + [ManifestLine(species, file)]))
      else Some(p.(unzip := unzip))
  }

  /** `for a_file in file_list` of attempt `a` from position `j` on: the
      progress afterwards and whether `completed` was set. */
  function FilesPass(net: Net, s: nat, species: string, a: nat, files: seq<string>, j: nat, target: int, p: Progress): (Progress, bool)
    decreases |files| - j
  {
    if j >= |files| then (p, false)
    else if files[j] in p.entries then FilesPass(net, s, species, a, files, j + 1, target, p)
    else
      match FileStep(net, s, species, a, j, files[j], p)
      case None => (p, false)
      case Some(q) => if q.downloaded == target then (q, true) else FilesPass(net, s, species, a, files, j + 1, target, q)
  }

  /** `while attempt < max_download_attempts and completed == False` from
      attempt `a` on. */
  function CompletionAttempts(net: Net, s: nat, species: string, files: seq<string>, target: int, max: int,
                              a: nat, p: Progress, completed: bool): (Progress, bool)
    decreases max - a
  {
    if a < max && !completed then
      var pass := FilesPass(net, s, species, a + 1, files, 0, target, p);
      CompletionAttempts(net, s, species, files, target, max, a + 1, pass.0, pass.1)
    else (p, completed)
  }

  /** `while attempt < max_download_attempts and summary_success == False`
      from attempt `a` on: the last download result and `file_list` (`None`
      while unbound).  A parse that raises leaves `file_list` as it was. */
  function SummaryAttempts(net: Net, s: nat, level: string, max: int, a: nat, success: bool, files: Option<seq<string>>)
    : (bool, Option<seq<string>>)
    decreases max - a
  {
    if a < max && !success then
      var parsed := AssemblySummary(net.summaryText(s, a + 1), level);
      SummaryAttempts(net, s, level, max, a + 1, net.summary(s, a + 1), if parsed.Some? then parsed else files)
    else (success, files)
  }

  /** What the species loop carries: `file_list`, `download_file_number` and
      the progress. */
  datatype Stage = Stage(files: Option<seq<string>>, target: int, progress: Progress)

  datatype Step = Next(st: Stage) | Stop(exit: Exit, st: Stage)

  /** One turn of `for a_set in self.species`.  A failed summary ends in the
      log call naming the unbound `e`, an unbound `file_list` in
      `len(file_list)`: both raise. */
  function SpeciesStep(net: Net, s: nat, species: string, level: string, max: int, st: Stage): Step {
    var summary := SummaryAttempts(net, s, level, max, 0, false, st.files);
    var files := summary.1;
    if !summary.0 || files.None? then Stop(Raise, st.(files := files))
    else if |files.value| == 0 then Stop(Return(false), st.(files := files))
    else
      var target := if st.target == 0 then |files.value| else st.target;
      var done := CompletionAttempts(net, s, species, files.value, target, max, 0, st.progress.(downloaded := 0), false);
      if done.1 then Next(Stage(files, target, done.0)) else Stop(Return(false), Stage(files, target, done.0))
  }

  /** `for a_set in self.species` from the `i`-th species on, each turn
      being `step(i, species[i], stage)`. */
  function Walk(step: (nat, string, Stage) -> Step, species: seq<string>, i: nat, st: Stage): (Exit, Stage)
    decreases |species| - i
  {
    if i >= |species| then (Return(true), st)
    else
      match step(i, species[i], st)
      case Stop(e, st') => (e, st')
      case Next(st') => Walk(step, species, i + 1, st')
  }

  function SpeciesFrom(net: Net, species: seq<string>, level: string, max: int, i: nat, st: Stage): (Exit, Stage) {
    Walk((s: nat, name: string, st: Stage) => SpeciesStep(net, s, name, level, max, st), species, i, st)
  }

  /** `download(download_file_number)`: how it ends, and the manifest lines
      it hands to `write_readme` when it gets there. */
  function DownloadResult(net: Net, species: seq<string>, level: string, max: int, target: int): (Exit, seq<string>) {
    if !exists a :: 1 <= a <= max && net.readme(a) then (Return(false), [])
    else
      var r := SpeciesFrom(net, species, level, max, 0, Stage(None, target, Progress(None, 0, [])));
      (r.0, r.1.progress.entries)
  }

  method FilesLoop(net: Net, s: nat, species: string, a: nat, files: seq<string>, target: int, p0: Progress)
    returns (p: Progress, completed: bool)
    ensures (p, completed) == FilesPass(net, s, species, a, files, 0, target, p0)
  {
    p := p0;
    completed := false;
    var j := 0;
    while j < |files|
      invariant j <= |files|
      invariant FilesPass(net, s, species, a, files, 0, target, p0) == FilesPass(net, s, species, a, files, j, target, p)
      decreases |files| - j
    {
      var aFile := files[j];
      if aFile !in p.entries {
        var next := GetFile(net, s, species, a, j, aFile, p);
        if next.None? {
          return;
        }
        p := next.value;
        if p.downloaded == target {
          completed := true;
          return;
        }
      }
      j := j + 1;
    }
  }

  /** The body of `if a_file not in downloaded_file`: the checksum read
      and checked, the archive unpacked, the counter and the manifest
      lines advanced. */
  method GetFile(net: Net, s: nat, species: string, a: nat, j: nat, aFile: string, p: Progress)
    returns (next: Option<Progress>)
    ensures next == FileStep(net, s, species, a, j, aFile, p)
  {
    var fileName := LastSegment(aFile);
    var fileUrl := ReplaceAll(aFile, "ftp://", "https://");
    var code := ReadMd5(net.md5Text(s, a, j), fileName);
    if code.None? {
      return None;
    }
    var unzip := p.unzip;
    if CheckMd5(code.value, net.genome(s, a, j), net.md5) {
      unzip := Some(UnzipFile(fileName, net.extracts(s, a, j)));
    }
    if unzip.None? {
      return None;
    }
    next := Some(p.(unzip := unzip));
    if unzip.value {
      next := Some(next.value.(downloaded := p.downloaded + 1, entries := p.entries + [species + "\t" + fileUrl]));
    }
  }

  method CompletionLoop(net: Net, s: nat, species: string, files: seq<string>, target: int, max: int, p0: Progress)
    returns (p: Progress, completed: bool)
    ensures (p, completed) == CompletionAttempts(net, s, species, files, target, max, 0, p0, false)
  {
    p := p0;
    completed := false;
    var attempt := 0;
    while attempt < max && !completed
      invariant CompletionAttempts(net, s, species, files, target, max, 0, p0, false)
             == CompletionAttempts(net, s, species, files, target, max, attempt, p, completed)
      decreases max - attempt
    {
      attempt := attempt + 1;
      p, completed := FilesLoop(net, s, species, attempt, files, target, p);
    }
  }

  method SummaryLoop(net: Net, s: nat, level: string, max: int, files0: Option<seq<string>>)
    returns (success: bool, files: Option<seq<string>>)
    ensures (success, files) == SummaryAttempts(net, s, level, max, 0, false, files0)
  {
    success := false;
    files := files0;
    var attempt := 0;
    while attempt < max && !success
      invariant SummaryAttempts(net, s, level, max, 0, false, files0) == SummaryAttempts(net, s, level, max, attempt, success, files)
      decreases max - attempt
    {
      attempt := attempt + 1;
      success := net.summary(s, attempt);
      var parsed := ParseAssemblySummary(net.summaryText(s, attempt), level);
      if parsed.Some? {
        files := parsed;
      }
    }
  }

  /** `download`: the readme loop, then per species the summary loop and the
      completion loop. */
  method Download(net: Net, species: seq<string>, level: string, max: int, target: int)
    returns (exit: Exit, entries: seq<string>)
    ensures (exit, entries) == DownloadResult(net, species, level, max, target)
  {
    var readmeOk, _ := RetryUntil(max, net.readme);
    if !readmeOk {
      return Return(false), [];
    }
    var st0 := Stage(None, target, Progress(None, 0, []));
    var st := st0;
    var i := 0;
    while i < |species|
      invariant i <= |species|
      invariant SpeciesFrom(net, species, level, max, 0, st0) == SpeciesFrom(net, species, level, max, i, st)
    {
      var ok, files := SummaryLoop(net, i, level, max, st.files);
      if !ok || files.None? {
        return Raise, st.progress.entries;
      }
      if |files.value| == 0 {
        return Return(false), st.progress.entries;
      }
      var goal := if st.target == 0 then |files.value| else st.target;
      var p, completed := CompletionLoop(net, i, species[i], files.value, goal, max, st.progress.(downloaded := 0));
      st := Stage(files, goal, p);
      if !completed {
        return Return(false), st.progress.entries;
      }
      i := i + 1;
    }
    return Return(true), st.progress.entries;
  }

  // ---------------------------------------------------------------------
  // What download promises

  /** Every summary attempt is tried until one downloads: the loop succeeds
      exactly when some attempt up to `max` does. */
  lemma {:induction false} SummaryAttemptsSucceed(net: Net, s: nat, level: string, max: int, a: nat, files: Option<seq<string>>)
    ensures SummaryAttempts(net, s, level, max, a, false, files).0 <==> exists b :: a < b <= max && net.summary(s, b)
    decreases max - a
  {
    if a < max {
      var parsed := AssemblySummary(net.summaryText(s, a + 1), level);
      var files' := if parsed.Some? then parsed else files;
      if !net.summary(s, a + 1) {
        SummaryAttemptsSucceed(net, s, level, max, a + 1, files');
        assert forall b :: a < b <= max && net.summary(s, b) ==> a + 1 < b;
      }
    }
  }

  /** When the readme arrives but no attempt brings the first species'
      summary, `download` raises (its log line names the unbound `e`). */
  lemma DownloadRaisesWithoutSummary(net: Net, species: seq<string>, level: string, max: int, target: int)
    requires exists a :: 1 <= a <= max && net.readme(a)
    requires |species| > 0
    requires forall b :: 1 <= b <= max ==> !net.summary(0, b)
    ensures DownloadResult(net, species, level, max, target).0 == Raise
  {
    SummaryAttemptsSucceed(net, 0, level, max, 0, None);
  }

  /** A manifest line holds a tab, a parsed genome path does not: the test
      `a_file not in downloaded_file` never skips a file. */
  lemma SkipNeverFires(species: string, file: string, path: string)
    requires '\t' !in path
    ensures ManifestLine(species, file) != path
  {
    assert ManifestLine(species, file)[|species|] == '\t';
  }

  /** `q` is `p` with manifest lines of `species` appended, each for one of
      `files`, and the counter raised by their number. */
  predicate Extends(p: Progress, q: Progress, species: string, files: seq<string>) {
    && |p.entries| <= |q.entries| && q.entries[..|p.entries|] == p.entries
    && q.downloaded - p.downloaded == |q.entries| - |p.entries|
    && forall k :: |p.entries| <= k < |q.entries| ==> LineFor(q.entries[k], species, files)
  }

  /** `line` is the manifest line of one of `files` for `species`. */
  predicate LineFor(line: string, species: string, files: seq<string>) {
    exists j :: 0 <= j < |files| && line == ManifestLine(species, files[j])
  }

  /** Some line of `entries` belongs to `species`. */
  ghost predicate HasLine(entries: seq<string>, species: string) {
    exists k, f :: 0 <= k < |entries| && entries[k] == ManifestLine(species, f)
  }

  lemma ExtendsTrans(p: Progress, q: Progress, r: Progress, species: string, files: seq<string>)
    requires Extends(p, q, species, files) && Extends(q, r, species, files)
    ensures Extends(p, r, species, files)
  {
    assert r.entries[..|p.entries|] == r.entries[..|q.entries|][..|p.entries|];
    forall k | |p.entries| <= k < |q.entries| ensures LineFor(r.entries[k], species, files) {
      assert r.entries[k] == r.entries[..|q.entries|][k];
    }
  }

  lemma FileStepExtends(net: Net, s: nat, species: string, a: nat, files: seq<string>, j: nat, p: Progress)
    requires j < |files|
    ensures var q := FileStep(net, s, species, a, j, files[j], p);
      q.Some? ==> Extends(p, q.value, species, files)
  {
    var q := FileStep(net, s, species, a, j, files[j], p);
    if q.Some? {
      assert q.value.entries[..|p.entries|] == p.entries;
    }
  }

  /** One pass over the file list only appends manifest lines for listed
      files, one per counted download, and it reports completion exactly
      when the counter has reached the target. */
  lemma {:induction false} FilesPassExtends(net: Net, s: nat, species: string, a: nat, files: seq<string>, j: nat, target: int, p: Progress)
    ensures var r := FilesPass(net, s, species, a, files, j, target, p);
      Extends(p, r.0, species, files) && (r.1 ==> r.0.downloaded == target)
    decreases |files| - j
  {
    assert p.entries[..|p.entries|] == p.entries;
    if j < |files| {
      if files[j] in p.entries {
        FilesPassExtends(net, s, species, a, files, j + 1, target, p);
      } else {
        var q := FileStep(net, s, species, a, j, files[j], p);
        if q.Some? {
          FileStepExtends(net, s, species, a, files, j, p);
          if q.value.downloaded != target {
            FilesPassExtends(net, s, species, a, files, j + 1, target, q.value);
            ExtendsTrans(p, q.value, FilesPass(net, s, species, a, files, j + 1, target, q.value).0, species, files);
          }
        }
      }
    }
  }

  lemma {:induction false} CompletionExtends(net: Net, s: nat, species: string, files: seq<string>, target: int, max: int,
                                             a: nat, p: Progress, completed: bool)
    ensures var r := CompletionAttempts(net, s, species, files, target, max, a, p, completed);
      Extends(p, r.0, species, files) && (r.1 && !completed ==> r.0.downloaded == target)
    decreases max - a
  {
    assert p.entries[..|p.entries|] == p.entries;
    if a < max && !completed {
      var pass := FilesPass(net, s, species, a + 1, files, 0, target, p);
      FilesPassExtends(net, s, species, a + 1, files, 0, target, p);
      CompletionExtends(net, s, species, files, target, max, a + 1, pass.0, pass.1);
      ExtendsTrans(p, pass.0, CompletionAttempts(net, s, species, files, target, max, a + 1, pass.0, pass.1).0, species, files);
    }
  }

  /** What one species turn does to the manifest lines: a turn that stops
      does not return `True` and keeps the lines it found; a turn that
      completes adds exactly `target` lines (at least one), each naming a
      genome of its file list, the target being the length of the first
      species' list unless the caller fixed it. */
  ghost predicate StepShape(step: Step, species: string, st: Stage) {
    match step
    case Stop(x, st') => x != Return(true) && (st'.progress.entries == st.progress.entries ||
      (|st.progress.entries| <= |st'.progress.entries| && st'.progress.entries[..|st.progress.entries|] == st.progress.entries))
    case Next(st') =>
      && st'.files.Some?
      && st'.target == (if st.target == 0 then |st'.files.value| else st.target)
      && st'.target >= 1
      && |st'.progress.entries| == |st.progress.entries| + st'.target
      && st'.progress.entries[..|st.progress.entries|] == st.progress.entries
      && forall k :: |st.progress.entries| <= k < |st'.progress.entries| ==> LineFor(st'.progress.entries[k], species, st'.files.value)
  }

  lemma SpeciesStepShape(net: Net, s: nat, species: string, level: string, max: int, st: Stage)
    ensures StepShape(SpeciesStep(net, s, species, level, max, st), species, st)
  {
    var summary := SummaryAttempts(net, s, level, max, 0, false, st.files);
    var files := summary.1;
    if summary.0 && files.Some? && |files.value| > 0 {
      var target := if st.target == 0 then |files.value| else st.target;
      var p0 := st.progress.(downloaded := 0);
      CompletionExtends(net, s, species, files.value, target, max, 0, p0, false);
    }
  }

  /** A completed species step followed by a run that keeps its lines leaves
      a line for that species. */
  lemma CoversStep(e: seq<string>, e': seq<string>, fin: seq<string>, species: string, files: seq<string>)
    requires |e| < |e'| && e'[..|e|] == e
    requires forall k :: |e| <= k < |e'| ==> LineFor(e'[k], species, files)
    requires |e'| <= |fin| && fin[..|e'|] == e'
    ensures fin[..|e|] == e && HasLine(fin, species)
  {
    assert fin[..|e|] == fin[..|e'|][..|e|];
    var k := |e|;
    assert LineFor(e'[k], species, files);
    var j :| 0 <= j < |files| && e'[k] == ManifestLine(species, files[j]);
    assert fin[k] == fin[..|e'|][k];
  }

  /** A species loop whose every turn has the shape above keeps the lines
      it started with, and when it returns `True` every species from `i` on
      has a line. */
  lemma {:induction false} WalkCovers(step: (nat, string, Stage) -> Step, species: seq<string>, i: nat, st: Stage)
    requires forall s: nat, name: string, st': Stage :: StepShape(step(s, name, st'), name, st')
    ensures var r := Walk(step, species, i, st);
      && |st.progress.entries| <= |r.1.progress.entries|
      && r.1.progress.entries[..|st.progress.entries|] == st.progress.entries
      && (r.0 == Return(true) ==> forall i' :: i <= i' < |species| ==> HasLine(r.1.progress.entries, species[i']))
    decreases |species| - i
  {
    var e := st.progress.entries;
    if i >= |species| {
      assert e[..|e|] == e;
    } else {
      var t := step(i, species[i], st);
      assert StepShape(t, species[i], st);
      if t.Stop? {
        assert e[..|e|] == e;
      } else {
        var st' := t.st;
        WalkCovers(step, species, i + 1, st');
        var r := Walk(step, species, i + 1, st');
        CoversStep(e, st'.progress.entries, r.1.progress.entries, species[i], st'.files.value);
      }
    }
  }

  /** The species loop keeps the manifest lines it started with, and when it
      returns `True` every species from `i` on has a line. */
  lemma SpeciesFromCovers(net: Net, species: seq<string>, level: string, max: int, i: nat, st: Stage)
    ensures var r := SpeciesFrom(net, species, level, max, i, st);
      && |st.progress.entries| <= |r.1.progress.entries|
      && r.1.progress.entries[..|st.progress.entries|] == st.progress.entries
      && (r.0 == Return(true) ==> forall i' :: i <= i' < |species| ==> HasLine(r.1.progress.entries, species[i']))
  {
    var step := (s: nat, name: string, st: Stage) => SpeciesStep(net, s, name, level, max, st);
    forall s: nat, name: string, st': Stage ensures StepShape(step(s, name, st'), name, st') {
      SpeciesStepShape(net, s, name, level, max, st');
    }
    WalkCovers(step, species, i, st);
  }

  /** `download` returns `True` only after every species contributed at
      least one genome to the manifest; without the readme it returns
      `False` and writes nothing. */
  lemma DownloadCoversSpecies(net: Net, species: seq<string>, level: string, max: int, target: int)
    ensures var r := DownloadResult(net, species, level, max, target);
      && (r.0 == Return(true) ==> forall i :: 0 <= i < |species| ==> HasLine(r.1, species[i]))
      && ((forall a :: 1 <= a <= max ==> !net.readme(a)) ==> r == (Return(false), []))
  {
    if exists a :: 1 <= a <= max && net.readme(a) {
      var st0 := Stage(None, target, Progress(None, 0, []));
      SpeciesFromCovers(net, species, level, max, 0, st0);
      var sf := SpeciesFrom(net, species, level, max, 0, st0);
      assert DownloadResult(net, species, level, max, target) == (sf.0, sf.1.progress.entries);
    }
  }

  // ---------------------------------------------------------------------
  // backup and update

  /** The first line of the README+ manifest. */
  const Comment: string := "This folder contains whole genome sequences that downloaded from NCBI."

  /** `update()`.  `staged` is what the downloads leave in the staging
      folder; the README+ manifest is written from the lines `download`
      collected.  `update` calls `clean_destination_dir` with one argument
      too many, so once the backup succeeds it raises `TypeError`: it never
      returns `True` and never touches the destination's own files. */
  method Update(fs: FileSystem, dest: Path, backupDir: Path, today: string, readme: string, info: string,
                net: Net, species: seq<string>, level: string, max: int,
                staged: map<Path, Node>, now: string, url: string, elapsed: Elapsed)
    returns (r: Exit)
    requires forall q :: q in staged ==> Within(dest + ["temp"], q) && q != dest + ["temp"]
    modifies fs
    ensures r != Return(true)
    ensures DownloadResult(net, species, level, max, 3).0 == Raise ==> r == Raise
    ensures DownloadResult(net, species, level, max, 3).0 == Return(false) && Recreate(old(fs.nodes), dest + ["temp"]).0
            ==> r == Return(false)
    ensures var made := Recreate(old(fs.nodes), dest + ["temp"]);
      !made.0 ==> r == Raise && fs.nodes == made.1
    ensures var made := Recreate(old(fs.nodes), dest + ["temp"]);
      var d := DownloadResult(net, species, level, max, 3);
      made.0 && d.0 != Return(true) ==> r == d.0 && fs.nodes == made.1 + staged
    ensures var made := Recreate(old(fs.nodes), dest + ["temp"]);
      var d := DownloadResult(net, species, level, max, 3);
      var b := ReadmeBackedUp(made.1 + staged, dest, backupDir, today, readme, info,
                              ReadmeText(Comment, now, url, elapsed, d.1, []));
      made.0 && d.0 == Return(true) ==> r == (if b.0 then Raise else Return(false)) && fs.nodes == b.1
    ensures forall q :: q in old(fs.nodes) && Outside(dest, backupDir, today, q) ==> q in fs.nodes && fs.nodes[q] == old(fs.nodes)[q]
  {
    ghost var m0 := fs.nodes;
    var temp := CreateTmpDir(fs, dest);
    RecreateFrame(m0, dest + ["temp"]);
    if temp.None? {
      return Raise;
    }
    var exit, entries := Download(net, species, level, max, 3);
    fs.nodes := fs.nodes + staged;
    if exit != Return(true) {
      return exit;
    }
    r := Publish(fs, dest, backupDir, today, readme, info, temp.value, entries, now, url, elapsed);
  }

  /** What `update()` does once the download came through: the README+
      manifest is written in the staging folder `temp` and backed up with
      the information file; a failed backup gives `False`, a successful one
      reaches the `clean_destination_dir` call that raises `TypeError`. */
  method Publish(fs: FileSystem, dest: Path, backupDir: Path, today: string, readme: string, info: string,
                 temp: Path, entries: seq<string>, now: string, url: string, elapsed: Elapsed)
    returns (r: Exit)
    requires temp == dest + ["temp"]
    modifies fs
    ensures var b := ReadmeBackedUp(old(fs.nodes), dest, backupDir, today, readme, info,
                                    ReadmeText(Comment, now, url, elapsed, entries, []));
      r == (if b.0 then Raise else Return(false)) && fs.nodes == b.1
    ensures forall q :: q in old(fs.nodes) && Outside(dest, backupDir, today, q) ==> q in fs.nodes && fs.nodes[q] == old(fs.nodes)[q]
  {
    var ok := ReadmeAndBackup(fs, dest, backupDir, today, readme, info, Comment, entries, now, url, elapsed);
    if !ok {
      return Return(false);
    }
    r := Raise;
  }
}
