/** The GreenGenes adapter (brdm/GreenGeneData.py): the two sidecar formats
    `checksum` reads, the `format_file` entries, the mothur and rdp taxonomy
    rewriters, the attempt loops of `download`, and the guards of `update`. */
module GreenGeneData {
  import opened Wrappers
  import opened Strings
  import opened FileSystem
  import opened BaseRefData
  import opened AdapterCommon

  // ---------------------------------------------------------------------
  // checksum

  /** The one file whose sidecar is read by its first token. */
  const FirstTokenFile: string := "gg_13_5.fasta.gz"

  /** The digest `checksum` takes from a sidecar holding `text`: for
      `gg_13_5.fasta.gz` the text before the first space; for any other
      file the fourth space-separated token once newlines are stripped from
      both ends, `None` when there is no fourth token (`IndexError`). */
  function SidecarDigest(file: string, text: string): Option<string> {
    if file == FirstTokenFile then Some(Split(text, " ")[0])
    else
      var tokens := Split(StripChar(text, '\n'), " ");
      if |tokens| < 4 then None else Some(tokens[3])
  }

  /** Whatever token is taken, it holds no space. */
  lemma DigestIsToken(file: string, text: string)
    ensures SidecarDigest(file, text).Some? ==> ' ' !in SidecarDigest(file, text).value
    ensures file == FirstTokenFile ==> SidecarDigest(file, text).Some?
  {
    var d := SidecarDigest(file, text);
    if d.Some? {
      ContainsChar(d.value, ' ');
    }
  }

  /** The GNU `md5sum` line `<digest>  <name>` gives its digest for
      `gg_13_5.fasta.gz`. */
  lemma FirstTokenSidecar(digest: string, name: string)
    requires ' ' !in digest
    ensures SidecarDigest(FirstTokenFile, digest + "  " + name + "\n") == Some(digest)
  {
    var text := digest + "  " + name + "\n";
    assert text[..|digest| + 1] == digest + " ";
    FirstTokenIff(text, ' ', digest);
  }

  /** The BSD `md5` line `MD5 (<name>) = <digest>` gives its digest for
      every other file. */
  lemma BsdSidecar(file: string, name: string, digest: string)
    requires file != FirstTokenFile
    requires ' ' !in name && digest != "" && ' ' !in digest && '\n' !in digest
    ensures SidecarDigest(file, "MD5 (" + name + ") = " + digest + "\n") == Some(digest)
  {
    var line := "MD5 (" + name + ") = " + digest;
    var text := line + "\n";
    assert text[0] == 'M';
    assert text[..|text| - 1] == line;
    assert line[0] == 'M';
    assert line[|line| - 1] == digest[|digest| - 1];
    assert StripChar(line, '\n') == line;
    assert StripChar(text, '\n') == line;
    var parts := ["MD5", "(" + name + ")", "=", digest];
    JoinThree("(" + name + ")", "=", digest, " ");
    assert parts[1..] == ["(" + name + ")", "=", digest];
    assert Join(parts, " ") == line;
    assert ' ' !in "(" + name + ")";
    SplitJoin(parts, " ");
  }

  /** `checksum(md5_file, file_name)` on the sidecar text and the data as
      `check_md5` reads them: passes exactly when the digest exists, is not
      empty and is the MD5 of the data. */
  function ChecksumOf(file: string, md5Text: Option<string>, data: Option<string>, md5: string -> string): (ok: bool)
    ensures ok <==> && md5Text.Some? && data.Some?
                    && SidecarDigest(file, md5Text.value) == Some(md5(data.value))
                    && md5(data.value) != ""
  {
    if md5Text.None? then false
    else
      match SidecarDigest(file, md5Text.value)
      case None => false
      case Some(digest) => CheckMd5(digest, data, md5)
  }

  /** `checksum` on the folder `dir`: it reads the sidecar (`<file>.md5`
      for `gg_13_5.fasta.gz`, `md5_file` otherwise), takes the digest,
      deletes `<file>.md5` and only then compares; a missing sidecar, a
      missing token or a failed deletion returns `False`. */
  method Checksum(fs: FileSystem, dir: Path, md5File: string, file: string, md5: string -> string)
    returns (ok: bool)
    modifies fs
    ensures var sidecar := dir + [if file == FirstTokenFile then file + ".md5" else md5File];
      var text := old(fs.ReadFile(sidecar));
      var removed := dir + [file + ".md5"];
      var read := text.Some? && SidecarDigest(file, text.value).Some?;
      && (ok <==> read && old(fs.IsFile(removed)) && ChecksumOf(file, text, old(fs.ReadFile(dir + [file])), md5))
      && fs.nodes == if read && old(fs.IsFile(removed)) then old(fs.nodes) - {removed} else old(fs.nodes)
  {
    var sidecar := dir + [if file == FirstTokenFile then file + ".md5" else md5File];
    var text := fs.ReadFile(sidecar);
    if text.None? {
      return false;
    }
    var digest := SidecarDigest(file, text.value);
    if digest.None? {
      return false;
    }
    var removed := dir + [file + ".md5"];
    ok := fs.RemoveFile(removed);
    if !ok {
      return false;
    }
    assert dir + [file] != removed by {
      assert (dir + [file])[|dir|] != removed[|dir|];
    }
    ok := CheckMd5(digest.value, fs.ReadFile(dir + [file]), md5);
  }

  // ---------------------------------------------------------------------
  // get_format_file_list

  /** `os.path.join(dir, name)`: an absolute `name` replaces `dir`. */
  function JoinPath(dir: string, name: string): string {
    if StartsWith(name, "/") then name
    else if dir == "" || EndsWith(dir, "/") then dir + name
    else dir + "/" + name
  }

  /** One `format_file` entry `sequences | taxonomy | output`: the first
      three `|`-separated fields, stripped; `None` when there are fewer
      than three (`IndexError`) or one of them is empty. */
  function FormatEntry(entry: string): Option<(string, string, string)> {
    var parts := Split(entry, "|");
    if |parts| < 3 then None
    else
      var f1, f2, f3 := Strip(parts[0]), Strip(parts[1]), Strip(parts[2]);
      if f1 != "" && f2 != "" && f3 != "" then Some((f1, f2, f3)) else None
  }

  /** A configuration entry written `a | b | c` gives its three names. */
  lemma FormatEntryReadsBack(a: string, b: string, c: string)
    requires a != "" && !IsSpace(a[0]) && !IsSpace(a[|a| - 1]) && '|' !in a
    requires b != "" && !IsSpace(b[0]) && !IsSpace(b[|b| - 1]) && '|' !in b
    requires c != "" && !IsSpace(c[0]) && !IsSpace(c[|c| - 1]) && '|' !in c
    ensures FormatEntry(a + " | " + b + " | " + c) == Some((a, b, c))
  {
    var x, y, z := a + " ", " " + b + " ", " " + c;
    assert Strip(x) == a && Strip(y) == b && Strip(z) == c by {
      StripPadded(a);
      StripPadded(b);
      StripPadded(c);
    }
    assert " | " == " " + "|" + " ";
    Regroup(a, b, c, " ", "|");
    FormatEntryOfFields(x, y, z);
  }

  /** Moving the padding around a separator onto the fields it separates. */
  lemma Regroup(a: string, b: string, c: string, pad: string, bar: string)
    ensures a + (pad + bar + pad) + b + (pad + bar + pad) + c == (a + pad) + bar + (pad + b + pad) + bar + (pad + c)
  {
  }

  lemma FormatEntryOfFields(x: string, y: string, z: string)
    requires '|' !in x && '|' !in y && '|' !in z
    requires Strip(x) != "" && Strip(y) != "" && Strip(z) != ""
    ensures FormatEntry(x + "|" + y + "|" + z) == Some((Strip(x), Strip(y), Strip(z)))
  {
    SplitThree(x, y, z, "|");
  }

  /** `get_format_file_list()`: the sequence files and taxonomy files joined
      to the destination folder and the output names, one of each per entry
      in entry order; `False` as soon as one entry is not valid. */
  method GetFormatFileList(dir: string, entries: seq<string>)
    returns (ok: bool, sequences: seq<string>, taxa: seq<string>, outputs: seq<string>)
    ensures ok <==> forall k :: 0 <= k < |entries| ==> FormatEntry(entries[k]).Some?
    ensures ok ==> |sequences| == |taxa| == |outputs| == |entries|
    ensures ok ==> forall k :: 0 <= k < |entries| ==>
      && sequences[k] == JoinPath(dir, FormatEntry(entries[k]).value.0)
      && taxa[k] == JoinPath(dir, FormatEntry(entries[k]).value.1)
      && outputs[k] == FormatEntry(entries[k]).value.2
  {
    ok, sequences, taxa, outputs := SplitEntries(entries, FormatEntry, name => JoinPath(dir, name));
  }

  /** The loop of `get_format_file_list` for an entry reader `parse` and a
      path joiner `join`. */
  method SplitEntries(entries: seq<string>, parse: string -> Option<(string, string, string)>, join: string -> string)
    returns (ok: bool, sequences: seq<string>, taxa: seq<string>, outputs: seq<string>)
    ensures ok <==> forall k :: 0 <= k < |entries| ==> parse(entries[k]).Some?
    ensures ok ==> |sequences| == |taxa| == |outputs| == |entries|
    ensures ok ==> forall k :: 0 <= k < |entries| ==>
      && sequences[k] == join(parse(entries[k]).value.0)
      && taxa[k] == join(parse(entries[k]).value.1)
      && outputs[k] == parse(entries[k]).value.2
  {
    sequences, taxa, outputs := [], [], [];
    var i := 0;
    while i < |entries|
      invariant i <= |entries|
      invariant |sequences| == |taxa| == |outputs| == i
      invariant forall k :: 0 <= k < i ==> parse(entries[k]).Some?
      invariant forall k :: 0 <= k < i ==>
        && sequences[k] == join(parse(entries[k]).value.0)
        && taxa[k] == join(parse(entries[k]).value.1)
        && outputs[k] == parse(entries[k]).value.2
    {
      var e := parse(entries[i]);
      if e.None? {
        return false, sequences, taxa, outputs;
      }
      sequences := sequences + [join(e.value.0)];
      taxa := taxa + [join(e.value.1)];
      outputs := outputs + [e.value.2];
      i := i + 1;
    }
    ok := true;
  }

  // ---------------------------------------------------------------------
  // to_mothur_format and to_qiime1_rdp_format

  /** The rank names a mothur line keeps, in order: each level without its
      three-character tag (`k__`), the empty ones dropped. */
  function KeptRanks(levels: seq<string>): (kept: seq<string>)
    ensures |kept| <= |levels|
    ensures forall k :: 0 <= k < |kept| ==> kept[k] != ""
  {
    if levels == [] then []
    else
      var name := DropFirst(levels[|levels| - 1], 3);
      KeptRanks(levels[..|levels| - 1]) + (if name == "" then [] else [name])
  }

  /** One more level considered. */
  lemma KeptRanksStep(levels: seq<string>, i: nat)
    requires i < |levels|
    ensures var name := DropFirst(levels[i], 3);
      KeptRanks(levels[..i + 1]) == KeptRanks(levels[..i]) + (if name == "" then [] else [name])
  {
    assert levels[..i + 1][..i] == levels[..i];
  }

  /** The loop building `a_line`: the kept names joined by `;`. */
  method MothurRanks(levels: seq<string>) returns (aLine: string)
    ensures aLine == Join(KeptRanks(levels), ";")
  {
    aLine := "";
    var i := 0;
    while i < |levels|
      invariant i <= |levels|
      invariant aLine == Join(KeptRanks(levels[..i]), ";")
      invariant aLine == "" <==> KeptRanks(levels[..i]) == []
    {
      var name := DropFirst(levels[i], 3);
      KeptRanksStep(levels, i);
      if name != "" && aLine == "" {
        assert KeptRanks(levels[..i + 1]) == [name];
        aLine := name;
      } else if name != "" && aLine != "" {
        JoinSnoc(KeptRanks(levels[..i]), name, ";");
        aLine := aLine + ";" + name;
      } else {
        assert KeptRanks(levels[..i + 1]) == KeptRanks(levels[..i]);
      }
      i := i + 1;
    }
    assert levels[..i] == levels;
  }

  /** One line of a mothur taxonomy file: the input line without its last
      character, split on tab into the id and the ranks (the unpacking into
      two names raises otherwise), then the id, a tab, the kept names each
      followed by `;` with all spaces removed, and a newline. */
  function MothurLine(line: string): Option<string> {
    var x := Split(DropLast(line, 1), "\t");
    if |x| != 2 then None
    else
      var aLine := Join(KeptRanks(Split(x[1], "; ")), ";") + ";";
      Some(x[0] + "\t" + ReplaceAll(aLine, " ", "") + "\n")
  }

  /** A GreenGenes taxonomy line `<id>\t<level>; <level>; ...` becomes
      `<id>\t<name>;<name>;...;` with one name per non-empty level. */
  lemma MothurLineOfTaxonomy(id: string, levels: seq<string>)
    requires |levels| >= 1
    requires '\t' !in id
    requires forall k :: 0 <= k < |levels| ==> '\t' !in levels[k] && ';' !in levels[k] && ' ' !in levels[k]
    ensures MothurLine(id + "\t" + Join(levels, "; ") + "\n")
      == Some(id + "\t" + (Join(KeptRanks(levels), ";") + ";") + "\n")
  {
    var ranks := Join(levels, "; ");
    assert '\t' !in ranks by {
      JoinExcludes(levels, "; ", '\t');
    }
    assert Split(ranks, "; ") == levels by {
      SplitJoin(levels, "; ");
    }
    var kept := KeptRanks(levels);
    assert ReplaceAll(Join(kept, ";") + ";", " ", "") == Join(kept, ";") + ";" by {
      KeptRanksWithout(levels, ' ');
      ClosedWithoutSpaces(kept);
    }
    MothurLineOf(id + "\t" + ranks + "\n", id, ranks);
  }

  /** `MothurLine` once the line is known to split into `id` and `ranks`. */
  lemma MothurLineOf(line: string, id: string, ranks: string)
    requires '\t' !in id && '\t' !in ranks
    requires line == id + "\t" + ranks + "\n"
    ensures MothurLine(line) == Some(id + "\t" + ReplaceAll(Join(KeptRanks(Split(ranks, "; ")), ";") + ";", " ", "") + "\n")
  {
    SplitTabbed(id, ranks);
  }

  /** `line[:-1].split("\t")` of `<id>\t<ranks>\n`. */
  lemma SplitTabbed(id: string, ranks: string)
    requires '\t' !in id && '\t' !in ranks
    ensures Split(DropLast(id + "\t" + ranks + "\n", 1), "\t") == [id, ranks]
  {
    assert DropLast(id + "\t" + ranks + "\n", 1) == id + "\t" + ranks;
    SplitJoin([id, ranks], "\t");
    assert [id, ranks][1..] == [ranks];
  }

  /** Removing spaces changes nothing in names without spaces joined by `;`
      and closed by `;`. */
  lemma ClosedWithoutSpaces(kept: seq<string>)
    requires forall k :: 0 <= k < |kept| ==> ' ' !in kept[k]
    ensures ReplaceAll(Join(kept, ";") + ";", " ", "") == Join(kept, ";") + ";"
  {
    var joined := Join(kept, ";");
    JoinExcludes(kept, ";", ' ');
    ReplaceCharByNothing(joined + ";", ' ');
    NoCharWithout(joined + ";", ' ');
  }

  /** A kept name holds no character that no level holds. */
  lemma {:induction false} KeptRanksWithout(levels: seq<string>, c: char)
    requires forall k :: 0 <= k < |levels| ==> c !in levels[k]
    ensures forall k :: 0 <= k < |KeptRanks(levels)| ==> c !in KeptRanks(levels)[k]
  {
    if levels != [] {
      KeptRanksWithout(levels[..|levels| - 1], c);
    }
  }

  /** The ranks of a mothur line read back: split on `;`, the kept names
      and the empty text after the closing `;`. */
  lemma MothurRanksReadBack(levels: seq<string>)
    requires KeptRanks(levels) != []
    requires forall k :: 0 <= k < |levels| ==> ';' !in levels[k]
    ensures Split(Join(KeptRanks(levels), ";") + ";", ";") == KeptRanks(levels) + [""]
  {
    KeptRanksWithout(levels, ';');
    SplitJoinClosed(KeptRanks(levels), ";");
  }

  /** One line of the rdp taxonomy file: every `; ` replaced by `;`. */
  function RdpLine(line: string): string {
    ReplaceAll(line, "; ", ";")
  }

  /** The rdp rewrite as a line conversion that never refuses a line. */
  function RdpConvert(line: string): Option<string> {
    Some(RdpLine(line))
  }

  /** Ranks joined by `; ` come out joined by `;`. */
  lemma RdpJoinsTight(ranks: seq<string>)
    requires |ranks| >= 1
    requires forall k :: 0 <= k < |ranks| ==> ';' !in ranks[k]
    ensures RdpLine(Join(ranks, "; ")) == Join(ranks, ";")
  {
    ReplaceIsJoinOfSplit(Join(ranks, "; "), "; ", ";");
    SplitJoin(ranks, "; ");
  }

  /** The rdp file has one output line per input line, in input order. */
  lemma RdpKeepsLines(lines: seq<string>)
    ensures var r := FormatFrom(RdpConvert, lines, 0);
      r.0 && |r.1| == |lines| && forall k :: 0 <= k < |lines| ==> r.1[k] == RdpLine(lines[k])
  {
    FormatFromShape(RdpConvert, lines, 0);
    var r := FormatFrom(RdpConvert, lines, 0);
    forall k | 0 <= k < |lines| ensures r.1[k] == RdpLine(lines[k]) {
      assert RdpConvert(lines[0 + k]) == Some(r.1[k]);
    }
  }

  // ---------------------------------------------------------------------
  // download

  datatype Net = Net(
    readme: nat -> bool,                       // the readme arrives on attempt `a`
    file: (string, nat) -> bool,               // `download_a_file` of a data file on attempt `a`
    sidecar: (string, nat) -> bool,            // `download_a_file` of its `.md5` on attempt `a`
    md5Text: (string, nat) -> Option<string>,  // the sidecar as `checksum` then reads it
    data: (string, nat) -> Option<string>,     // the data file as `check_md5` then reads it
    extracts: (string, nat) -> bool,           // unpacking succeeds after attempt `a`
    md5: string -> string)                     // the MD5 hex digest (RFC 1321)

  /** One attempt at file `f` as written: `checksum_success` is only
      assigned when both downloads succeed and otherwise keeps its value
      from an earlier attempt or an earlier file (`None`: still unbound, and
      reading it raises a `NameError` that the loop catches).  The result is
      the new `checksum_success` and `completed`. */
  function AttemptAsWritten(net: Net, f: string, a: nat, checked: Option<bool>): (Option<bool>, bool) {
    var checked' :=
      if net.file(f, a) && net.sidecar(f, a) then Some(ChecksumOf(f, net.md5Text(f, a), net.data(f, a), net.md5))
      else checked;
    if checked' == Some(true) then (checked', UnzipFile(f, net.extracts(f, a))) else (checked', false)
  }

  /** `while attempt < max_download_attempts and not completed` for file
      `f` from attempt `a` on. */
  function FileAttempts(net: Net, max: int, f: string, a: nat, checked: Option<bool>): (bool, Option<bool>)
    decreases max - a
  {
    if a >= max then (false, checked)
    else
      var s := AttemptAsWritten(net, f, a + 1, checked);
      if s.1 then (true, s.0) else FileAttempts(net, max, f, a + 1, s.0)
  }

  /** The loop over `download_file` as written: whether every file
      completes; the first one that does not ends the download. */
  function FilesAsWritten(net: Net, max: int, files: seq<string>, checked: Option<bool>): bool
    decreases |files|
  {
    if files == [] then true
    else
      var r := FileAttempts(net, max, files[0], 0, checked);
      r.0 && FilesAsWritten(net, max, files[1..], r.1)
  }

  /** `checksum_success` once attempts `a + 1` to `b` at file `f` have
      run, starting from `checked`: the last attempt whose two downloads
      succeeded decides it, and with none it keeps `checked`. */
  function CheckedAfter(net: Net, f: string, a: nat, b: nat, checked: Option<bool>): Option<bool>
    decreases b - a
  {
    if b <= a then checked
    else CheckedAfter(net, f, a + 1, b, AttemptAsWritten(net, f, a + 1, checked).0)
  }

  /** The attempt loop of one file as written, for every input: it
      completes exactly when some attempt `b` within the bound finds
      `checksum_success` true, by its own checksum or a stale one, and
      unpacks the file. */
  lemma {:induction false} FileAttemptsOutcome(net: Net, max: int, f: string, a: nat, checked: Option<bool>)
    ensures FileAttempts(net, max, f, a, checked).0 <==>
      exists b :: a < b <= max && CheckedAfter(net, f, a, b, checked) == Some(true) && UnzipFile(f, net.extracts(f, b))
    decreases max - a
  {
    if a < max {
      var s := AttemptAsWritten(net, f, a + 1, checked);
      assert CheckedAfter(net, f, a, a + 1, checked) == s.0;
      FileAttemptsOutcome(net, max, f, a + 1, s.0);
      forall b | a + 1 < b <= max ensures CheckedAfter(net, f, a, b, checked) == CheckedAfter(net, f, a + 1, b, s.0) {
      }
    }
  }

  /** An attempt that passes the whole chain completes the file as
      written, whatever `checksum_success` was before it. */
  lemma {:induction false} PassingAttemptCompletes(net: Net, max: int, f: string, a: nat, b: nat, checked: Option<bool>)
    requires a < b <= max && AttemptPasses(net, f, b)
    ensures FileAttempts(net, max, f, a, checked).0
    decreases b - a
  {
    var s := AttemptAsWritten(net, f, a + 1, checked);
    if !s.1 && a + 1 < b {
      PassingAttemptCompletes(net, max, f, a + 1, b, s.0);
    }
  }

  /** `download()` as written: the readme loop, then the data files with
      `checksum_success` carried across attempts and files. */
  function DownloadAsWritten(net: Net, max: int, files: seq<string>): bool {
    (exists a :: 1 <= a <= max && net.readme(a)) && FilesAsWritten(net, max, files, None)
  }

  /** The intended attempt: `completed` only when this attempt's two
      downloads, its checksum and the unpacking all succeed. */
  function AttemptPasses(net: Net, f: string, a: nat): bool {
    && net.file(f, a) && net.sidecar(f, a)
    && ChecksumOf(f, net.md5Text(f, a), net.data(f, a), net.md5)
    && UnzipFile(f, net.extracts(f, a))
  }

  /** Some attempt at `f` within the bound passes. */
  predicate Passes(net: Net, max: int, f: string) {
    exists a :: 1 <= a <= max && AttemptPasses(net, f, a)
  }

  /** The loop over `download_file` with the checksum taken per attempt. */
  predicate FilesChecked(net: Net, max: int, files: seq<string>) {
    forall k :: 0 <= k < |files| ==> Passes(net, max, files[k])
  }

  /** `download()` with the intended per-attempt checksum: the readme loop
      first (no data file is tried without it), then every data file. */
  function DownloadChecked(net: Net, max: int, files: seq<string>): bool {
    (exists a :: 1 <= a <= max && net.readme(a)) && FilesChecked(net, max, files)
  }

  /** The attempt loop for one file with the checksum taken per attempt. */
  method FileLoop(net: Net, max: int, f: string) returns (completed: bool)
    ensures completed <==> Passes(net, max, f)
  {
    var attempt := 0;
    completed := false;
    while attempt < max && !completed
      invariant attempt == 0 || attempt <= max
      invariant completed ==> 1 <= attempt && AttemptPasses(net, f, attempt)
      invariant !completed ==> forall a :: 1 <= a <= attempt ==> !AttemptPasses(net, f, a)
      decreases max - attempt
    {
      attempt := attempt + 1;
      completed := Attempt(net, f, attempt);
    }
  }

  /** One attempt at a file: both downloads, the checksum, the unzip. */
  method Attempt(net: Net, f: string, a: nat) returns (passed: bool)
    ensures passed == AttemptPasses(net, f, a)
  {
    passed := false;
    var fileOk := net.file(f, a);
    var sidecarOk := net.sidecar(f, a);
    if fileOk && sidecarOk {
      var checked := ChecksumOf(f, net.md5Text(f, a), net.data(f, a), net.md5);
      if checked {
        passed := UnzipFile(f, net.extracts(f, a));
      }
    }
  }

  /** `download()`: `False` without the readme, `False` at the first data
      file that never completes, and otherwise the files downloaded, which
      are all of them in configuration order. */
  method Download(net: Net, max: int, files: seq<string>) returns (ok: bool, downloaded: seq<string>)
    ensures ok == DownloadChecked(net, max, files)
    ensures ok ==> downloaded == files
  {
    var readmeOk, _ := RetryUntil(max, net.readme);
    if !readmeOk {
      return false, [];
    }
    downloaded := [];
    var i := 0;
    while i < |files|
      invariant i <= |files|
      invariant downloaded == files[..i]
      invariant FilesChecked(net, max, files[..i])
    {
      var completed := FileLoop(net, max, files[i]);
      if !completed {
        assert !Passes(net, max, files[i]);
        return false, downloaded;
      }
      assert files[..i + 1] == files[..i] + [files[i]];
      downloaded := downloaded + [files[i]];
      i := i + 1;
    }
    assert files[..i] == files;
    ok := true;
  }

  /** A data file counts only when one of its attempts passed the whole
      chain: both downloads, the checksum, and the unpacking. */
  lemma CheckedFilesPassed(net: Net, max: int, files: seq<string>, f: string)
    requires DownloadChecked(net, max, files) && f in files
    ensures exists a :: 1 <= a <= max && AttemptPasses(net, f, a)
    ensures exists a :: 1 <= a <= max && net.readme(a)
  {
    var k :| 0 <= k < |files| && files[k] == f;
  }

  /** The data-file loop as written completes every file that the
      per-attempt checksum would, whatever `checksum_success` holds. */
  lemma {:induction false} CheckedFilesAsWritten(net: Net, max: int, files: seq<string>, checked: Option<bool>)
    requires FilesChecked(net, max, files)
    ensures FilesAsWritten(net, max, files, checked)
    decreases |files|
  {
    if files != [] {
      assert Passes(net, max, files[0]);
      var b :| 1 <= b <= max && AttemptPasses(net, files[0], b);
      PassingAttemptCompletes(net, max, files[0], 0, b, checked);
      var r := FileAttempts(net, max, files[0], 0, checked);
      forall k | 0 <= k < |files[1..]| ensures Passes(net, max, files[1..][k]) {
        assert files[1..][k] == files[k + 1];
      }
      CheckedFilesAsWritten(net, max, files[1..], r.1);
    }
  }

  /** `download()` as written returns `True` whenever the intended
      download does; `StaleChecksumPassesFile` shows the converse fails. */
  lemma CheckedImpliesAsWritten(net: Net, max: int, files: seq<string>)
    requires DownloadChecked(net, max, files)
    ensures DownloadAsWritten(net, max, files)
  {
    CheckedFilesAsWritten(net, max, files, None);
  }

  /** As written, a second file whose downloads both fail is still counted
      as completed when the first file's checksum passed and unpacking
      whatever lies under the second file's name succeeds; with the
      checksum taken per attempt it is not. */
  lemma StaleChecksumPassesFile(net: Net, first: string, second: string)
    requires AttemptPasses(net, first, 1)
    requires !net.file(second, 1) && UnzipFile(second, net.extracts(second, 1))
    ensures FilesAsWritten(net, 1, [first, second], None)
    ensures !FilesChecked(net, 1, [first, second])
  {
    var r := FileAttempts(net, 1, first, 0, None);
    assert r == (true, Some(true));
    assert [first, second][1..] == [second];
    assert FileAttempts(net, 1, second, 0, Some(true)) == (true, Some(true));
    assert [first, second][1..][1..] == [];
    assert [first, second][1] == second;
    assert !AttemptPasses(net, second, 1);
    assert !Passes(net, 1, second);
  }

  // ---------------------------------------------------------------------
  // update

  /** The first line of the README+ manifest. */
  const Comment: string := "This folder contains greenGene data."

  /** `update()`.  A failed `create_tmp_dir` is logged with the name `e`,
      which `update` never binds, so it raises `NameError`.  `staged` is
      what the downloads leave in the staging folder.  After the backup,
      `clean_destination_dir` is called with one argument too many and
      raises `TypeError`: `update` never returns `True` and never touches
      the destination's own files. */
  method Update(fs: FileSystem, dest: Path, backupDir: Path, today: string, readme: string, info: string,
                net: Net, max: int, files: seq<string>,
                staged: map<Path, Node>, url: string, now: string, elapsed: Elapsed)
    returns (r: Exit)
    requires forall q :: q in staged ==> Within(dest + ["temp"], q) && q != dest + ["temp"]
    modifies fs
    ensures r != Return(true)
    ensures var made := Recreate(old(fs.nodes), dest + ["temp"]);
      !made.0 ==> r == Raise && fs.nodes == made.1
    ensures var made := Recreate(old(fs.nodes), dest + ["temp"]);
      made.0 && !DownloadChecked(net, max, files) ==> r == Return(false) && fs.nodes == made.1 + staged
    ensures var made := Recreate(old(fs.nodes), dest + ["temp"]);
      var b := ReadmeBackedUp(made.1 + staged, dest, backupDir, today, readme, info,
                              ReadmeText(Comment, now, url, elapsed, files, []));
      made.0 && DownloadChecked(net, max, files) ==> r == (if b.0 then Raise else Return(false)) && fs.nodes == b.1
    ensures forall q :: q in old(fs.nodes) && Outside(dest, backupDir, today, q) ==> q in fs.nodes && fs.nodes[q] == old(fs.nodes)[q]
  {
    ghost var m0 := fs.nodes;
    var temp := CreateTmpDir(fs, dest);
    RecreateFrame(m0, dest + ["temp"]);
    if temp.None? {
      return Raise;
    }
    var ok, downloaded := Download(net, max, files);
    fs.nodes := fs.nodes + staged;
    if !ok {
      return Return(false);
    }
    var backedUp := ReadmeAndBackup(fs, dest, backupDir, today, readme, info, Comment, downloaded, now, url, elapsed);
    if !backedUp {
      return Return(false);
    }
    r := Raise;
  }
}
