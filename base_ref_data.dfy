/** The shared behaviour of every adapter (brdm/BaseRefData.py): restore-date
    resolution, the README+ manifest, the checksum comparison, archive
    dispatch, and the staging, backup and cleaning of directories. */
module BaseRefData {
  import opened Wrappers
  import opened Strings
  import opened FileSystem

  // ---------------------------------------------------------------------
  // Restore dates

  /** `check_restore_date_format`: the name splits on '-' into exactly three
      pieces, each made of digits only. */
  predicate CheckRestoreDateFormat(s: string) {
    var parts := Split(s, "-");
    |parts| == 3 && IsDigits(parts[0]) && IsDigits(parts[1]) && IsDigits(parts[2])
  }

  lemma NoDashInDigits(s: string)
    requires IsDigits(s)
    ensures '-' !in s
  {
    forall k | 0 <= k < |s| ensures s[k] != '-' {
      assert IsAsciiDigit(s[k]);
    }
  }

  /** Splitting `a-b-c` on '-' gives back the three digit strings. */
  lemma SplitTriple(a: string, b: string, c: string)
    requires IsDigits(a) && IsDigits(b) && IsDigits(c)
    ensures Split(a + "-" + b + "-" + c, "-") == [a, b, c]
  {
    NoDashInDigits(a);
    NoDashInDigits(b);
    NoDashInDigits(c);
    SplitThree(a, b, c, "-");
  }

  /** Any three digit strings joined by '-' pass the format check, so `1-2-3`
      is accepted as a date. */
  lemma FormatAcceptsTriple(a: string, b: string, c: string)
    requires IsDigits(a) && IsDigits(b) && IsDigits(c)
    ensures CheckRestoreDateFormat(a + "-" + b + "-" + c)
  {
    SplitTriple(a, b, c);
  }

  /** Conversely, a string that passes the check is three digit strings
      joined by '-'. */
  lemma FormatGivesTriple(s: string)
    requires CheckRestoreDateFormat(s)
    ensures var parts := Split(s, "-");
      s == parts[0] + "-" + parts[1] + "-" + parts[2]
  {
    var parts := Split(s, "-");
    JoinSplit(s, "-");
    assert parts == [parts[0], parts[1], parts[2]];
    JoinThree(parts[0], parts[1], parts[2], "-");
  }

  /** `count_gap_two_dates`: the approximate number of days from `date` to
      `target` (365-day years, 30-day months), computed from the first three
      '-'-separated fields; -1 when a field is missing or `int()` rejects one. */
  function DayGap(target: string, date: string): int {
    var t := Split(target, "-");
    var d := Split(date, "-");
    var year := FieldDiff(t, d, 0);
    var month := FieldDiff(t, d, 1);
    var day := FieldDiff(t, d, 2);
    if year.None? || month.None? || day.None? then -1
    else year.value * 365 + month.value * 30 + day.value
  }

  /** `int(t[k]) - int(d[k])`, or `None` where that raises. */
  function FieldDiff(t: seq<string>, d: seq<string>, k: nat): Option<int> {
    if k >= |t| || k >= |d| then None
    else
      var a := ParseInt(t[k]);
      var b := ParseInt(d[k]);
      if a.None? || b.None? then None else Some(a.value - b.value)
  }

  /** When both names have at least three digit fields, the gap is
      Δyear*365 + Δmonth*30 + Δday over the first three fields. */
  lemma DayGapOfFields(target: string, date: string)
    requires var t := Split(target, "-"); |t| >= 3 && IsDigits(t[0]) && IsDigits(t[1]) && IsDigits(t[2])
    requires var d := Split(date, "-"); |d| >= 3 && IsDigits(d[0]) && IsDigits(d[1]) && IsDigits(d[2])
    ensures var t, d := Split(target, "-"), Split(date, "-");
      DayGap(target, date)
      == (DigitsValue(t[0]) - DigitsValue(d[0])) * 365
       + (DigitsValue(t[1]) - DigitsValue(d[1])) * 30
       + (DigitsValue(t[2]) - DigitsValue(d[2]))
  {
    var t, d := Split(target, "-"), Split(date, "-");
    FieldDiffOfDigits(t, d, 0);
    FieldDiffOfDigits(t, d, 1);
    FieldDiffOfDigits(t, d, 2);
  }

  lemma FieldDiffOfDigits(t: seq<string>, d: seq<string>, k: nat)
    requires k < |t| && k < |d| && IsDigits(t[k]) && IsDigits(d[k])
    ensures FieldDiff(t, d, k) == Some(DigitsValue(t[k]) - DigitsValue(d[k]))
  {
  }

  /** A well-formed date is at gap 0 from itself. */
  lemma DayGapSelf(s: string)
    requires CheckRestoreDateFormat(s)
    ensures DayGap(s, s) == 0
  {
    DayGapOfFields(s, s);
  }

  /** A missing field makes the gap -1. */
  lemma DayGapMissingField(target: string, date: string)
    requires '-' !in date
    ensures DayGap(target, date) == -1
  {
    NoOccurrenceWithoutHead(date, "-");
  }

  /** The approximation is not calendar order: in any year, the snapshot
      taken on 02-01 is at gap 0 from a requested 01-31, the same gap as an
      exact match, although it is a day later. */
  lemma DayGapLaterDateIsZero(year: string)
    requires IsDigits(year)
    ensures DayGap(year + "-01-31", year + "-02-01") == 0
  {
    MonthDayFields();
    SplitOfDate(year, "01", "31", year + "-01-31");
    SplitOfDate(year, "02", "01", year + "-02-01");
    DayGapOfFields(year + "-01-31", year + "-02-01");
  }

  lemma MonthDayFields()
    ensures IsDigits("01") && IsDigits("31") && IsDigits("02")
    ensures DigitsValue("01") == 1 && DigitsValue("31") == 31 && DigitsValue("02") == 2
  {
    assert "01"[..1] == "0" && "02"[..1] == "0" && "31"[..1] == "3";
  }

  lemma SplitOfDate(a: string, b: string, c: string, s: string)
    requires IsDigits(a) && IsDigits(b) && IsDigits(c) && s == a + "-" + b + "-" + c
    ensures Split(s, "-") == [a, b, c]
  {
    SplitTriple(a, b, c);
  }

  /** The gap `check_restore_date` gives entry `name` of `dir`: the day gap
      for a subdirectory whose name passes the format check, and -1 (never a
      candidate) for anything else. */
  function SnapshotGap(fs: FileSystem, dir: Path, proposed: string, name: string): int
    reads fs
  {
    if fs.IsDir(dir + [name]) && CheckRestoreDateFormat(name) then DayGap(proposed, name) else -1
  }

  function Gaps(fs: FileSystem, dir: Path, proposed: string, names: seq<string>): (gaps: seq<int>)
    reads fs
    ensures |gaps| == |names|
    ensures forall k :: 0 <= k < |names| ==> gaps[k] == SnapshotGap(fs, dir, proposed, names[k])
  {
    if names == [] then []
    else Gaps(fs, dir, proposed, names[..|names| - 1]) + [SnapshotGap(fs, dir, proposed, names[|names| - 1])]
  }

  /** The index the selection loop of `check_restore_date` settles on after
      reading `gaps` in order: the first non-negative gap is taken, and it is
      replaced only by a strictly smaller non-negative one while the current
      minimum is positive. */
  function Chosen(gaps: seq<int>): (r: Option<nat>)
    ensures r.Some? ==> r.value < |gaps| && gaps[r.value] >= 0
    decreases |gaps|
  {
    if gaps == [] then None
    else
      var last := |gaps| - 1;
      var prev := Chosen(gaps[..last]);
      match prev
      case None => if gaps[last] >= 0 then Some(last) else None
      case Some(i) =>
        assert gaps[..last][i] == gaps[i];
        if gaps[last] >= 0 && gaps[i] > 0 && gaps[last] < gaps[i] then Some(last) else prev
  }

  /** One step of the selection loop. */
  lemma ChosenStep(gaps: seq<int>, k: nat)
    requires k < |gaps|
    ensures var prev := Chosen(gaps[..k]);
      Chosen(gaps[..k + 1])
      == if prev.None? then (if gaps[k] >= 0 then Some(k) else None)
         else if gaps[k] >= 0 && gaps[prev.value] > 0 && gaps[k] < gaps[prev.value] then Some(k)
         else prev
  {
    assert gaps[..k + 1][..k] == gaps[..k];
  }

  /** The loop picks the FIRST entry of minimal non-negative gap, and finds
      none exactly when every gap is negative. */
  lemma {:induction false} ChosenIsFirstMinimum(gaps: seq<int>)
    ensures Chosen(gaps).None? <==> forall k :: 0 <= k < |gaps| ==> gaps[k] < 0
    ensures Chosen(gaps).Some? ==>
      var i := Chosen(gaps).value;
      forall k :: 0 <= k < |gaps| && gaps[k] >= 0 ==> gaps[i] <= gaps[k] && (k < i ==> gaps[i] < gaps[k])
    decreases |gaps|
  {
    if gaps != [] {
      var last := |gaps| - 1;
      var init := gaps[..last];
      ChosenIsFirstMinimum(init);
      assert forall k :: 0 <= k < last ==> init[k] == gaps[k];
    }
  }

  /** What `check_restore_date` returns: `None` for `False` (malformed date,
      unreadable backup folder, no snapshot at or before the date, or an
      empty snapshot), otherwise the chosen snapshot folder. */
  function RestoreTarget(fs: FileSystem, backupDir: Path, proposed: string, listing: seq<string>): Option<Path>
    reads fs
  {
    if !CheckRestoreDateFormat(proposed) || !fs.IsDir(backupDir) then None
    else
      match Chosen(Gaps(fs, backupDir, proposed, listing))
      case None => None
      case Some(i) =>
        var folder := backupDir + [listing[i]];
        if fs.Children(folder) == {} then None else Some(folder)
  }

  /** `check_restore_date`: scans the entries of `backupDir` in listing
      order, keeping `minGap` and `restore_date` as the source does. */
  method CheckRestoreDate(fs: FileSystem, backupDir: Path, proposed: string, listing: seq<string>)
    returns (r: Option<Path>)
    requires fs.IsDir(backupDir) ==> fs.Lists(backupDir, listing)
    ensures r == RestoreTarget(fs, backupDir, proposed, listing)
  {
    if !CheckRestoreDateFormat(proposed) || !fs.IsDir(backupDir) {
      return None;
    }
    ghost var gaps := Gaps(fs, backupDir, proposed, listing);
    var restoreDate := "";
    var minGap := -1;
    var k := 0;
    while k < |listing|
      invariant 0 <= k <= |listing|
      invariant Chosen(gaps[..k]).None? ==> minGap == -1 && restoreDate == ""
      invariant Chosen(gaps[..k]).Some? ==>
        var i := Chosen(gaps[..k]).value;
        i < k && minGap == gaps[i] && restoreDate == listing[i]
    {
      var f := listing[k];
      ChosenStep(gaps, k);
      assert gaps[k] == SnapshotGap(fs, backupDir, proposed, f);
      if fs.IsDir(backupDir + [f]) && CheckRestoreDateFormat(f) {
        var gap := DayGap(proposed, f);
        assert gap == gaps[k];
        if gap >= 0 && minGap == -1 {
          minGap := gap;
          restoreDate := f;
        }
        if gap >= 0 && minGap > 0 && gap < minGap {
          minGap := gap;
          restoreDate := f;
        }
      }
      k := k + 1;
    }
    assert gaps[..|listing|] == gaps;
    if restoreDate == "" {
      return None;
    }
    var restorePath := backupDir + [restoreDate];
    if fs.Children(restorePath) == {} {
      return None;
    }
    return Some(restorePath);
  }

  /** A restored snapshot is a non-empty dated subfolder at non-negative
      gap from the requested date. */
  lemma RestoreTargetIsDated(fs: FileSystem, backupDir: Path, proposed: string, listing: seq<string>, i: nat)
    requires i < |listing|
    requires RestoreTarget(fs, backupDir, proposed, listing) == Some(backupDir + [listing[i]])
    requires fs.Lists(backupDir, listing)
    ensures fs.IsDir(backupDir + [listing[i]]) && CheckRestoreDateFormat(listing[i])
    ensures DayGap(proposed, listing[i]) >= 0
    ensures fs.Children(backupDir + [listing[i]]) != {}
  {
    var gaps := Gaps(fs, backupDir, proposed, listing);
    var j := SameEntry(fs, backupDir, proposed, listing, i);
    assert gaps[i] == SnapshotGap(fs, backupDir, proposed, listing[i]);
  }

  /** No listed candidate is closer than the restored snapshot, and every
      candidate listed before it is strictly farther. */
  lemma RestoreTargetIsClosest(fs: FileSystem, backupDir: Path, proposed: string, listing: seq<string>, i: nat)
    requires i < |listing|
    requires RestoreTarget(fs, backupDir, proposed, listing) == Some(backupDir + [listing[i]])
    requires fs.Lists(backupDir, listing)
    ensures ClosestAt(Gaps(fs, backupDir, proposed, listing), i)
  {
    var gaps := Gaps(fs, backupDir, proposed, listing);
    assert Chosen(gaps) == Some(i) by {
      var j := SameEntry(fs, backupDir, proposed, listing, i);
    }
    ChosenIsClosest(gaps, i);
  }

  /** Entry `i` has a non-negative gap, no entry has a smaller non-negative
      gap, and every entry before it has a larger one. */
  predicate ClosestAt(gaps: seq<int>, i: nat) {
    && i < |gaps| && gaps[i] >= 0
    && forall k :: 0 <= k < |gaps| && gaps[k] >= 0 ==> gaps[i] <= gaps[k] && (k < i ==> gaps[i] < gaps[k])
  }

  /** The folder `RestoreTarget` returns names the entry the loop chose;
      listed names are distinct, so it is entry `i`. */
  lemma SameEntry(fs: FileSystem, backupDir: Path, proposed: string, listing: seq<string>, i: nat) returns (j: nat)
    requires i < |listing|
    requires RestoreTarget(fs, backupDir, proposed, listing) == Some(backupDir + [listing[i]])
    requires fs.Lists(backupDir, listing)
    ensures j == i && Chosen(Gaps(fs, backupDir, proposed, listing)) == Some(i)
  {
    j := ChosenEntry(fs, backupDir, proposed, listing);
    assert (backupDir + [listing[j]])[|backupDir|] == listing[j];
    assert listing[j] == listing[i];
  }

  lemma ChosenIsClosest(gaps: seq<int>, i: nat)
    requires Chosen(gaps) == Some(i)
    ensures ClosestAt(gaps, i)
  {
    ChosenIsFirstMinimum(gaps);
  }

  /** The entry whose folder `RestoreTarget` returns is the chosen one. */
  lemma ChosenEntry(fs: FileSystem, backupDir: Path, proposed: string, listing: seq<string>) returns (j: nat)
    requires RestoreTarget(fs, backupDir, proposed, listing).Some?
    ensures Chosen(Gaps(fs, backupDir, proposed, listing)) == Some(j)
    ensures j < |listing| && RestoreTarget(fs, backupDir, proposed, listing) == Some(backupDir + [listing[j]])
    ensures fs.Children(backupDir + [listing[j]]) != {}
  {
    j := Chosen(Gaps(fs, backupDir, proposed, listing)).value;
  }

  /** `check_restore_destination`: a relative destination (`absolute` is
      false) is taken below the working directory `cwd`; `None`, for
      `False`, when a directory of that name already exists. */
  function RestoreDestination(fs: FileSystem, cwd: Path, absolute: bool, proposed: Path): (r: Option<Path>)
    reads fs
    ensures r.Some? ==> !fs.IsDir(r.value)
    ensures r.Some? && absolute ==> r.value == proposed
    ensures r.Some? && !absolute ==> |r.value| >= |cwd| && r.value[..|cwd|] == cwd && r.value[|cwd|..] == proposed
  {
    var path := if absolute then proposed else cwd + proposed;
    if fs.IsDir(path) then None else Some(path)
  }

  /** The destination is refused exactly when it is an existing directory. */
  lemma RestoreDestinationRefusesExisting(fs: FileSystem, cwd: Path, absolute: bool, proposed: Path)
    ensures RestoreDestination(fs, cwd, absolute, proposed).None?
      <==> fs.IsDir(if absolute then proposed else cwd + proposed)
  {
  }

  // ---------------------------------------------------------------------
  // Checksum comparison and archive dispatch

  /** `check_md5`: `content` is the file's bytes (`None` when it cannot be
      read) and `md5` the hex digest of RFC 1321. */
  function CheckMd5(expected: string, content: Option<string>, md5: string -> string): (ok: bool)
    ensures ok ==> expected != "" && content.Some? && md5(content.value) == expected
    ensures expected != "" && content.Some? && md5(content.value) == expected ==> ok
  {
    if expected == "" then false
    else if content.None? then false
    else expected == md5(content.value)
  }

  /** An empty expected digest is refused even if the digest function could
      produce it. */
  lemma CheckMd5RejectsEmpty(content: Option<string>, md5: string -> string)
    ensures !CheckMd5("", content, md5)
  {
  }

  datatype ArchiveKind = Gzip | TarGzip | ZipArchive | NotArchive

  /** The branch of `unzip_file` taken for a file name. */
  function ArchiveKindOf(name: string): (k: ArchiveKind)
    ensures k == Gzip <==> EndsWith(name, ".gz") && !EndsWith(name, "tar.gz")
    ensures k == TarGzip <==> EndsWith(name, "tar.gz")
    ensures k == ZipArchive <==> EndsWith(name, ".zip")
  {
    ArchiveSuffixes(name);
    if EndsWith(name, ".gz") && !EndsWith(name, "tar.gz") then Gzip
    else if EndsWith(name, "tar.gz") then TarGzip
    else if EndsWith(name, ".zip") then ZipArchive
    else NotArchive
  }

  /** A `.zip` name ends in 'p', a `.gz` name in 'z'. */
  lemma ArchiveSuffixes(name: string)
    ensures EndsWith(name, ".zip") ==> name[|name| - 1] == 'p'
    ensures EndsWith(name, ".gz") ==> name[|name| - 1] == 'z'
    ensures EndsWith(name, "tar.gz") ==> name[|name| - 1] == 'z'
  {
    if EndsWith(name, ".zip") {
      EndsWithLast(name, ".zip");
    }
    if EndsWith(name, ".gz") {
      EndsWithLast(name, ".gz");
    }
    if EndsWith(name, "tar.gz") {
      EndsWithLast(name, "tar.gz");
    }
  }

  /** The file a gzip member is decompressed to: `filename_in[:-3]`. */
  function GunzipTarget(name: string): (target: string)
    requires ArchiveKindOf(name) == Gzip
    ensures target + ".gz" == name
    ensures !EndsWith(target, "tar")
  {
    var target := DropLast(name, 3);
    assert name == target + ".gz";
    assert |target| >= 3 ==> name[|name| - 6..] == target[|target| - 3..] + ".gz";
    target
  }

  /** `unzip_file`: `extracts` says whether decompressing or extracting the
      archive succeeds; a file that is no archive is left alone. */
  function UnzipFile(name: string, extracts: bool): (ok: bool)
    ensures ok <==> ArchiveKindOf(name) == NotArchive || extracts
  {
    match ArchiveKindOf(name)
    case NotArchive => true
    case _ => extracts
  }

  // ---------------------------------------------------------------------
  // README+ manifest

  const ReadmeHeader: string :=
    "About: this an automatically generated description " + "                        "
    + "file for the data located in this folder."
  const DownloadedHeader: string := "List of downloaded files: "
  const FailedHeader: string := "List of files that failed to be downloaded: "

  /** `"%02d" % n` for `n < 100`. */
  function TwoDigits(n: nat): (r: string)
    requires n < 100
    ensures |r| == 2 && IsDigits(r) && DigitsValue(r) == n
  {
    var high := [DigitChar(n / 10)];
    var r := high + [DigitChar(n % 10)];
    assert high[..0] == [];
    assert DigitsValue(high) == n / 10;
    assert r[..1] == high;
    r
  }

  /** A whole number above zero. */
  type Positive = n: nat | n > 0 witness 1

  /** `execution_time`, the elapsed `time.time() - download_start_time`
      that the adapters hand to `write_readme`, as the exact fraction
      `num / den` of seconds (every float is one). */
  datatype Elapsed = Elapsed(num: nat, den: Positive)

  /** `round(execution_time)`: the whole number of seconds nearest to the
      elapsed time, a half going to the even neighbour. */
  function Rounded(e: Elapsed): nat {
    var q := e.num / e.den;
    var r := e.num % e.den;
    if 2 * r < e.den then q
    else if 2 * r > e.den then q + 1
    else if q % 2 == 0 then q else q + 1
  }

  /** `Rounded` is Python's `round`: no whole number lies closer to the
      elapsed time, and at a tie it is the even one. */
  lemma RoundedNearest(e: Elapsed, k: nat)
    ensures var n := Rounded(e);
      var d: int := e.den;
      var gap := 2 * (e.num - n * d);
      && -d <= gap <= d
      && (gap == d || gap == -d ==> n % 2 == 0)
      && Abs(e.num - n * e.den) <= Abs(e.num - k * e.den)
  {
    var q := e.num / e.den;
    var r := e.num % e.den;
    var n := Rounded(e);
    assert e.num == q * e.den + r;
    assert n == q || n == q + 1;
    assert (q + 1) * e.den == q * e.den + e.den;
    if k <= q {
      assert k * e.den <= q * e.den by { MulMono(k, q, e.den); }
    } else {
      assert (q + 1) * e.den <= k * e.den by { MulMono(q + 1, k, e.den); }
    }
  }

  function Abs(x: int): nat {
    if x < 0 then -x else x
  }

  lemma MulMono(a: nat, b: nat, c: nat)
    requires a <= b
    ensures a * c <= b * c
  {
  }

  /** An elapsed time of half a second or less is still non-zero, so the
      manifest keeps its time line and shows it as `0:00:00`. */
  lemma ShortDownloadShowsZero(comment: string, now: string, url: string, e: Elapsed)
    requires e.num != 0 && 2 * e.num <= e.den
    ensures "Download time: 0:00:00 secs " in ReadmeHead(comment, now, url, e)
  {
    assert Rounded(e) == 0;
    assert DecimalString(0) == "0" && TwoDigits(0) == "00";
    assert TimeDelta(0) == "0" + ":" + "00" + ":" + "00";
    ReadmeHeadShape(comment, now, url, e);
    var c := if comment != "" then 1 else 0;
    assert ReadmeHead(comment, now, url, e)[3 + c] == "Download time: 0:00:00 secs ";
  }

  /** `str(timedelta(seconds=n))`: `H:MM:SS`, preceded by `D day, ` or
      `D days, ` when `n` spans whole days. */
  function TimeDelta(n: nat): (r: string)
  {
    var days := n / 86400;
    var seconds := n % 86400;
    var minutes := seconds / 60;
    var clock := DecimalString(minutes / 60) + ":" + TwoDigits(minutes % 60) + ":" + TwoDigits(seconds % 60);
    if days == 0 then clock
    else DecimalString(days) + (if days == 1 then " day, " else " days, ") + clock
  }

  /** Under a day, the rendering splits on ':' into the hours, the two-digit
      minutes and the two-digit seconds of `n`. */
  lemma TimeDeltaUnderADay(n: nat)
    requires n < 86400
    ensures Split(TimeDelta(n), ":") == [DecimalString(n / 60 / 60), TwoDigits(n / 60 % 60), TwoDigits(n % 60)]
  {
    var h := DecimalString(n / 60 / 60);
    var m := TwoDigits(n / 60 % 60);
    var s := TwoDigits(n % 60);
    assert TimeDelta(n) == h + ":" + m + ":" + s;
    ClockSplit(h, m, s);
  }

  lemma ClockSplit(h: string, m: string, s: string)
    requires IsDigits(h) && IsDigits(m) && IsDigits(s)
    ensures Split(h + ":" + m + ":" + s, ":") == [h, m, s]
  {
    NoColonInDigits(h);
    NoColonInDigits(m);
    NoColonInDigits(s);
    SplitThree(h, m, s, ":");
  }

  lemma NoColonInDigits(s: string)
    requires IsDigits(s)
    ensures ':' !in s
  {
    forall k | 0 <= k < |s| ensures s[k] != ':' {
      assert IsAsciiDigit(s[k]);
    }
  }

  /** The lines `write_readme` writes, each without its final newline. */
  function ReadmeLines(comment: string, now: string, url: string, elapsed: Elapsed,
                       downloaded: seq<string>, failed: seq<string>): seq<string>
  {
    ReadmeHead(comment, now, url, elapsed) + downloaded
    + (if failed != [] then [FailedHeader] + failed else [])
  }

  /** The lines up to and including the header of the downloaded files. */
  function ReadmeHead(comment: string, now: string, url: string, elapsed: Elapsed): seq<string> {
    [ReadmeHeader]
    + (if comment != "" then [comment] else [])
    + ["Downloaded on: " + now, "Downloaded from: " + url]
    + (if elapsed.num != 0 then ["Download time: " + TimeDelta(Rounded(elapsed)) + " secs "] else [])
    + [DownloadedHeader]
  }

  /** Each line followed by a newline. */
  function Lines(lines: seq<string>): string {
    if lines == [] then "" else lines[0] + "\n" + Lines(lines[1..])
  }

  lemma {:induction false} LinesConcat(a: seq<string>, b: seq<string>)
    ensures Lines(a + b) == Lines(a) + Lines(b)
  {
    if a != [] {
      assert (a + b)[1..] == a[1..] + b;
      LinesConcat(a[1..], b);
    } else {
      assert a + b == b;
    }
  }

  /** Newline-terminated lines are the lines joined by newlines, plus one
      empty piece after the last newline. */
  lemma {:induction false} LinesIsJoin(lines: seq<string>)
    ensures Lines(lines) == Join(lines + [""], "\n")
  {
    if lines != [] {
      LinesIsJoin(lines[1..]);
      assert (lines + [""])[1..] == lines[1..] + [""];
      JoinCons(lines[0], lines[1..] + [""], "\n");
      assert lines + [""] == [lines[0]] + (lines[1..] + [""]);
    }
  }

  /** The README+ text. */
  function ReadmeText(comment: string, now: string, url: string, elapsed: Elapsed,
                      downloaded: seq<string>, failed: seq<string>): string
  {
    Lines(ReadmeLines(comment, now, url, elapsed, downloaded, failed))
  }

  predicate NoNewline(s: string) {
    forall k :: 0 <= k < |s| ==> s[k] != '\n'
  }

  lemma TimeDeltaHasNoNewline(n: nat)
    ensures NoNewline(TimeDelta(n))
  {
    var seconds := n % 86400;
    var h := DecimalString(seconds / 60 / 60);
    var m := TwoDigits(seconds / 60 % 60);
    var s := TwoDigits(seconds % 60);
    NoNewlineInDigits(h);
    NoNewlineInDigits(m);
    NoNewlineInDigits(s);
    assert NoNewline(":");
    NoNewlineConcat(h, ":");
    NoNewlineConcat(h + ":", m);
    NoNewlineConcat(h + ":" + m, ":");
    NoNewlineConcat(h + ":" + m + ":", s);
    var clock := h + ":" + m + ":" + s;
    var days := n / 86400;
    if days != 0 {
      var unit := if days == 1 then " day, " else " days, ";
      assert NoNewline(unit);
      NoNewlineInDigits(DecimalString(days));
      NoNewlineConcat(DecimalString(days), unit);
      NoNewlineConcat(DecimalString(days) + unit, clock);
    }
  }

  lemma NoNewlineInDigits(s: string)
    requires IsDigits(s)
    ensures NoNewline(s)
  {
    forall k | 0 <= k < |s| ensures s[k] != '\n' {
      assert IsAsciiDigit(s[k]);
    }
  }

  predicate NoNewlines(lines: seq<string>) {
    forall k :: 0 <= k < |lines| ==> NoNewline(lines[k])
  }

  lemma NoNewlineConcat(a: string, b: string)
    requires NoNewline(a) && NoNewline(b)
    ensures NoNewline(a + b)
  {
    forall k | 0 <= k < |a + b| ensures (a + b)[k] != '\n' {
      if k < |a| {
        assert (a + b)[k] == a[k];
      } else {
        assert (a + b)[k] == b[k - |a|];
      }
    }
  }

  lemma NoNewlinesConcat(a: seq<string>, b: seq<string>)
    requires NoNewlines(a) && NoNewlines(b)
    ensures NoNewlines(a + b)
  {
    forall k | 0 <= k < |a + b| ensures NoNewline((a + b)[k]) {
      if k < |a| {
        assert (a + b)[k] == a[k];
      } else {
        assert (a + b)[k] == b[k - |a|];
      }
    }
  }

  lemma HeadersHaveNoNewline()
    ensures NoNewline(ReadmeHeader) && NoNewline(DownloadedHeader) && NoNewline(FailedHeader)
    ensures NoNewline("Downloaded on: ") && NoNewline("Downloaded from: ")
    ensures NoNewline("Download time: ") && NoNewline(" secs ")
  {
    ReadmeHeaderHasNoNewline();
    assert NoNewline(FailedHeader);
  }

  lemma HeaderPieces()
    ensures NoNewline("About: this an automatically ") && NoNewline("generated description ")
    ensures NoNewline("                        ") && NoNewline("file for the data located in this folder.")
  {
    assert NoNewline("About: this an automatically ");
    assert NoNewline("generated description ");
    assert NoNewline("                        ");
  }

  lemma ReadmeHeaderHasNoNewline()
    ensures NoNewline(ReadmeHeader)
  {
    HeaderPieces();
    NoNewlineConcat4("About: this an automatically ", "generated description ",
      "                        ", "file for the data located in this folder.");
  }

  lemma NoNewlineConcat4(a: string, b: string, c: string, d: string)
    requires NoNewline(a) && NoNewline(b) && NoNewline(c) && NoNewline(d)
    ensures NoNewline(a + b + c + d)
  {
    NoNewlineConcat(a, b);
    NoNewlineConcat(a + b, c);
    NoNewlineConcat(a + b + c, d);
  }

  /** None of the README+ lines holds a newline when none of the written
      values does. */
  lemma ReadmeLinesHaveNoNewline(comment: string, now: string, url: string, elapsed: Elapsed,
                                 downloaded: seq<string>, failed: seq<string>)
    requires NoNewline(comment) && NoNewline(now) && NoNewline(url)
    requires NoNewlines(downloaded) && NoNewlines(failed)
    ensures NoNewlines(ReadmeLines(comment, now, url, elapsed, downloaded, failed))
  {
    ReadmeHeadHasNoNewline(comment, now, url, elapsed);
    var head := ReadmeHead(comment, now, url, elapsed);
    var e := if failed != [] then [FailedHeader] + failed else [];
    HeadersHaveNoNewline();
    NoNewlinesConcat([FailedHeader], failed);
    NoNewlinesConcat(head, downloaded);
    NoNewlinesConcat(head + downloaded, e);
  }

  lemma ReadmeHeadHasNoNewline(comment: string, now: string, url: string, elapsed: Elapsed)
    requires NoNewline(comment) && NoNewline(now) && NoNewline(url)
    ensures NoNewlines(ReadmeHead(comment, now, url, elapsed))
  {
    HeadersHaveNoNewline();
    NoNewlineConcat("Downloaded on: ", now);
    NoNewlineConcat("Downloaded from: ", url);
    TimeDeltaHasNoNewline(Rounded(elapsed));
    NoNewlineConcat("Download time: ", TimeDelta(Rounded(elapsed)));
    NoNewlineConcat("Download time: " + TimeDelta(Rounded(elapsed)), " secs ");
    var a := [ReadmeHeader] + (if comment != "" then [comment] else []);
    var b := ["Downloaded on: " + now, "Downloaded from: " + url];
    var c := if elapsed.num != 0 then ["Download time: " + TimeDelta(Rounded(elapsed)) + " secs "] else [];
    NoNewlinesConcat(a, b);
    NoNewlinesConcat(a + b, c);
    NoNewlinesConcat(a + b + c, [DownloadedHeader]);
    assert a + b + c + [DownloadedHeader] == ReadmeHead(comment, now, url, elapsed);
  }

  /** Reading the README+ back line by line recovers the layout exactly,
      as long as none of the written values holds a newline. */
  lemma ReadmeReadsBack(comment: string, now: string, url: string, elapsed: Elapsed,
                        downloaded: seq<string>, failed: seq<string>)
    requires NoNewline(comment) && NoNewline(now) && NoNewline(url)
    requires NoNewlines(downloaded) && NoNewlines(failed)
    ensures Split(ReadmeText(comment, now, url, elapsed, downloaded, failed), "\n")
      == ReadmeLines(comment, now, url, elapsed, downloaded, failed) + [""]
  {
    var lines := ReadmeLines(comment, now, url, elapsed, downloaded, failed);
    LinesIsJoin(lines);
    ReadmeLinesHaveNoNewline(comment, now, url, elapsed, downloaded, failed);
    NoNewlinesConcat(lines, [""]);
    var parts := lines + [""];
    forall k | 0 <= k < |parts| ensures "\n"[0] !in parts[k] {
      assert NoNewline(parts[k]);
    }
    SplitJoin(parts, "\n");
  }

  /** The optional sections: the comment line is there iff the comment is
      non-empty, the time line iff the time is non-zero, the failed section
      iff there are failed files; the downloaded names always follow their
      header, in order, and close the file when nothing failed. */
  lemma ReadmeSections(comment: string, now: string, url: string, elapsed: Elapsed,
                       downloaded: seq<string>, failed: seq<string>)
    ensures var head := ReadmeHead(comment, now, url, elapsed);
      var lines := ReadmeLines(comment, now, url, elapsed, downloaded, failed);
      && lines[..|head|] == head
      && lines[|head|..|head| + |downloaded|] == downloaded
      && (failed == [] ==> |lines| == |head| + |downloaded|)
      && (failed != [] ==> lines[|head| + |downloaded|..] == [FailedHeader] + failed)
  {
    var head := ReadmeHead(comment, now, url, elapsed);
    var tail := if failed != [] then [FailedHeader] + failed else [];
    assert ReadmeLines(comment, now, url, elapsed, downloaded, failed) == head + downloaded + tail;
  }

  /** The fixed lines: the title, the comment line iff the comment is
      non-empty, the date and the address, the time line iff the time is
      non-zero, and the header of the downloaded files last. */
  lemma ReadmeHeadShape(comment: string, now: string, url: string, elapsed: Elapsed)
    ensures var head := ReadmeHead(comment, now, url, elapsed);
      var c := if comment != "" then 1 else 0;
      && |head| == 4 + c + (if elapsed.num != 0 then 1 else 0)
      && head[0] == ReadmeHeader
      && (comment != "" ==> head[1] == comment)
      && head[1 + c] == "Downloaded on: " + now
      && head[2 + c] == "Downloaded from: " + url
      && (elapsed.num != 0 ==> head[3 + c] == "Download time: " + TimeDelta(Rounded(elapsed)) + " secs ")
      && head[|head| - 1] == DownloadedHeader
  {
  }

  /** `write_readme`'s writing: the fixed lines, then one loop over the
      downloaded names and, when some failed, the failed section. */
  method RenderReadme(comment: string, now: string, url: string, elapsed: Elapsed,
                      downloaded: seq<string>, failed: seq<string>)
    returns (text: string)
    ensures text == ReadmeText(comment, now, url, elapsed, downloaded, failed)
  {
    var head := ReadmeHead(comment, now, url, elapsed);
    text := Lines(head);
    text := AppendLines(text, downloaded);
    LinesConcat(head, downloaded);
    if failed != [] {
      text := text + FailedHeader + "\n";
      text := AppendLines(text, failed);
      LinesConcat([FailedHeader], failed);
      LinesConcat(head + downloaded, [FailedHeader] + failed);
    } else {
      assert head + downloaded + [] == head + downloaded;
    }
  }

  /** One writing loop: each name followed by a newline. */
  method AppendLines(text0: string, lines: seq<string>) returns (text: string)
    ensures text == text0 + Lines(lines)
  {
    text := text0;
    for k := 0 to |lines|
      invariant text == text0 + Lines(lines[..k])
    {
      LinesConcat(lines[..k], [lines[k]]);
      assert lines[..k + 1] == lines[..k] + [lines[k]];
      text := text + lines[k] + "\n";
    }
    assert lines[..|lines|] == lines;
  }

  /** `write_readme`: writes the manifest to `path`; `false` when the file
      cannot be opened for writing. */
  method WriteReadme(fs: FileSystem, path: Path, comment: string, now: string, url: string,
                     elapsed: Elapsed, downloaded: seq<string>, failed: seq<string>)
    returns (ok: bool)
    modifies fs
    ensures ok <==> old(path != [] && fs.IsDir(path[..|path| - 1]) && !fs.IsDir(path))
    ensures fs.nodes == if ok then old(fs.nodes)[path := File(ReadmeText(comment, now, url, elapsed, downloaded, failed))]
                        else old(fs.nodes)
  {
    var text := RenderReadme(comment, now, url, elapsed, downloaded, failed);
    ok := fs.WriteFile(path, text);
  }

  /** The tree after `write_readme` of `text` into the folder `here`,
      whose failure the adapters ignore. */
  function Manifested(m: map<Path, Node>, here: Path, readme: string, text: string): map<Path, Node> {
    if DirIn(m, here) && !DirIn(m, here + [readme]) then m[here + [readme] := File(text)] else m
  }

  /** Writing the manifest touches nothing but the manifest. */
  lemma ManifestedOnly(m: map<Path, Node>, here: Path, readme: string, text: string)
    ensures var w := Manifested(m, here, readme, text);
      && (forall q :: q in m && q != here + [readme] ==> q in w && w[q] == m[q])
      && (forall q :: q in w ==> q in m || q == here + [readme])
  {
  }

  // ---------------------------------------------------------------------
  // Staging, backup and cleaning

  /** `if os.path.exists(d): shutil.rmtree(d)` then `os.makedirs(d)`: whether
      it succeeds, and the tree afterwards. */
  function Recreate(m: map<Path, Node>, d: Path): (bool, map<Path, Node>) {
    if d in m && m[d].File? then (false, m)
    else
      var cleared := if d in m then RemovedTree(m, d) else m;
      if CanMakeDirs(cleared, d) then (true, WithDirs(cleared, d)) else (false, cleared)
  }

  /** After a successful recreation `d` is an empty directory, and nothing
      outside `d` and its new ancestors has changed. */
  lemma RecreateGivesEmptyDir(m: map<Path, Node>, d: Path)
    requires WellFormed(m)
    requires Recreate(m, d).0
    ensures var r := Recreate(m, d).1;
      && d in r && r[d] == Dir
      && (forall q :: q in r && Within(d, q) ==> q == d)
      && (forall q :: q in m && !Within(d, q) ==> q in r && r[q] == m[q])
      && (forall q :: q in r && q !in m ==> q in Prefixes(d))
  {
    assert d == d[..|d|];
    assert d in Prefixes(d);
    if d !in m {
      NothingBelowMissing(m, d);
    }
  }

  /** Recreating a folder changes nothing outside it. */
  lemma RecreateFrame(m: map<Path, Node>, d: Path)
    ensures var r := Recreate(m, d).1;
      forall q :: q in m && !Within(d, q) ==> q in r && r[q] == m[q]
  {
  }

  /** Recreating twice is recreating once: a second run on the same day
      leaves one fresh, empty folder. */
  lemma RecreateIdempotent(m: map<Path, Node>, d: Path)
    requires WellFormed(m)
    requires Recreate(m, d).0
    ensures Recreate(Recreate(m, d).1, d) == Recreate(m, d)
  {
    var r := Recreate(m, d).1;
    RecreateGivesEmptyDir(m, d);
    var cleared := RemovedTree(r, d);
    assert CanMakeDirs(cleared, d) by {
      forall k | 0 < k < |d| ensures d[..k] !in cleared || cleared[d[..k]].Dir? {
        if d[..k] in cleared && d[..k] in m {
          assert !Within(d, d[..k]);
        }
      }
    }
    var again := WithDirs(cleared, d);
    assert Recreate(r, d) == (true, again);
    assert again == r by {
      forall q | q in r ensures q in again && again[q] == r[q] {
        if Within(d, q) {
          assert q == d;
        }
      }
      assert forall q :: q in again ==> q in r;
    }
  }

  /** `create_backup_dir`: the dated folder `backupDir/today`, recreated
      empty; `None` for `False`.  `today` is `strftime('%Y-%m-%d')` of the
      current date. */
  method CreateBackupDir(fs: FileSystem, backupDir: Path, today: string) returns (r: Option<Path>)
    modifies fs
    ensures var d := backupDir + [today];
      && (r.Some? <==> Recreate(old(fs.nodes), d).0)
      && (r.Some? ==> r.value == d)
      && fs.nodes == Recreate(old(fs.nodes), d).1
  {
    var d := backupDir + [today];
    var ok := RecreateDir(fs, d);
    r := if ok then Some(d) else None;
  }

  /** `create_tmp_dir`: the staging folder `destination/temp`, recreated
      empty; `None` for `False`. */
  method CreateTmpDir(fs: FileSystem, destination: Path) returns (r: Option<Path>)
    modifies fs
    ensures var d := destination + ["temp"];
      && (r.Some? <==> Recreate(old(fs.nodes), d).0)
      && (r.Some? ==> r.value == d)
      && fs.nodes == Recreate(old(fs.nodes), d).1
  {
    var d := destination + ["temp"];
    var ok := RecreateDir(fs, d);
    r := if ok then Some(d) else None;
  }

  method RecreateDir(fs: FileSystem, d: Path) returns (ok: bool)
    requires d != []
    modifies fs
    ensures (ok, fs.nodes) == Recreate(old(fs.nodes), d)
  {
    if fs.Exists(d) {
      ok := fs.RemoveTree(d);
      if !ok {
        return;
      }
    }
    ok := fs.MakeDirs(d);
  }

  /** An entry below `dest` that `clean_destination_dir` deletes: a regular
      file directly in `dest`, or anything in a subdirectory of `dest` other
      than `temp`. */
  predicate Doomed(m: map<Path, Node>, dest: Path, q: Path) {
    && |q| > |dest| && q[..|dest|] == dest
    && var child := dest + [q[|dest|]];
       child in m && (if m[child].File? then q == child else q[|dest|] != "temp")
  }

  /** The tree after `clean_destination_dir(dest)`. */
  function Cleaned(m: map<Path, Node>, dest: Path): map<Path, Node> {
    map q | q in m && !Doomed(m, dest, q) :: m[q]
  }

  /** After cleaning, the only entry left directly in `dest` is the `temp`
      directory; everything outside `dest` and everything inside `temp`
      is untouched. */
  lemma CleanedSparesOnlyTemp(m: map<Path, Node>, dest: Path)
    ensures var r := Cleaned(m, dest);
      && (forall n :: dest + [n] in r ==> n == "temp" && r[dest + [n]] == Dir)
      && (forall q :: q in m && !Within(dest, q) ==> q in r && r[q] == m[q])
      && (dest + ["temp"] in m && m[dest + ["temp"]] == Dir ==>
            forall q :: q in m && Within(dest + ["temp"], q) ==> q in r && r[q] == m[q])
  {
    var r := Cleaned(m, dest);
    forall n | dest + [n] in r ensures n == "temp" && r[dest + [n]] == Dir {
      var q := dest + [n];
      assert q[..|dest|] == dest && q[|dest|] == n;
      assert !Doomed(m, dest, q);
    }
    forall q | q in m && Within(dest + ["temp"], q) && dest + ["temp"] in m && m[dest + ["temp"]] == Dir
      ensures q in r
    {
      assert q[..|dest|] == dest;
      assert q[|dest|] == "temp";
    }
  }

  /** Cleaning twice is cleaning once. */
  lemma CleanedIdempotent(m: map<Path, Node>, dest: Path)
    ensures Cleaned(Cleaned(m, dest), dest) == Cleaned(m, dest)
  {
    var r := Cleaned(m, dest);
    CleanedSparesOnlyTemp(m, dest);
    forall q | q in r ensures !Doomed(r, dest, q) {
      if |q| > |dest| && q[..|dest|] == dest {
        var child := dest + [q[|dest|]];
        if child in r {
          assert q[|dest|] == "temp" && r[child] == Dir;
        }
      }
    }
  }

  /** Entries already cleaned while only the names in `done` were visited. */
  function CleanedSome(m: map<Path, Node>, dest: Path, done: set<string>): map<Path, Node> {
    map q | q in m && !(Doomed(m, dest, q) && q[|dest|] in done) :: m[q]
  }

  /** `clean_destination_dir`: `false` when `dest` is not a directory;
      otherwise every regular file and every subdirectory but `temp` in it is
      deleted, in whatever order `os.listdir` yields them. */
  method CleanDestinationDir(fs: FileSystem, dest: Path) returns (ok: bool)
    modifies fs
    ensures ok <==> old(fs.IsDir(dest))
    ensures fs.nodes == if ok then Cleaned(old(fs.nodes), dest) else old(fs.nodes)
  {
    if !fs.IsDir(dest) {
      return false;
    }
    ghost var m0 := fs.nodes;
    var names := fs.Children(dest);
    ghost var done: set<string> := {};
    assert fs.nodes == CleanedSome(m0, dest, done);
    while names != {}
      invariant fs.nodes == CleanedSome(m0, dest, done)
      invariant names !! done
      invariant forall n :: dest + [n] in m0 ==> n in names || n in done
      decreases names
    {
      var n :| n in names;
      var child := dest + [n];
      CleanStep(m0, dest, done, n);
      if fs.IsFile(child) {
        var _ := fs.RemoveFile(child);
      }
      if fs.IsDir(child) && n != "temp" {
        var _ := fs.RemoveTree(child);
      }
      names := names - {n};
      done := done + {n};
    }
    assert CleanedSome(m0, dest, done) == Cleaned(m0, dest);
    ok := true;
  }

  /** `q` lies in the entry `n` of `dest`. */
  lemma WithinChild(dest: Path, n: string, q: Path)
    ensures Within(dest + [n], q) <==> |q| > |dest| && q[..|dest|] == dest && q[|dest|] == n
  {
    var child := dest + [n];
    if |q| > |dest| {
      assert q[..|child|] == q[..|dest|] + [q[|dest|]];
    }
  }

  /** One step of the cleaning loop, visiting the entry `n` of `dest`. */
  lemma CleanStep(m: map<Path, Node>, dest: Path, done: set<string>, n: string)
    requires n !in done
    ensures var cur := CleanedSome(m, dest, done);
      var next := CleanedSome(m, dest, done + {n});
      var child := dest + [n];
      && (child in cur <==> child in m)
      && (child in cur ==> cur[child] == m[child])
      && (child in m && m[child].File? ==> next == cur - {child})
      && (child in m && m[child].Dir? && n != "temp" ==> next == RemovedTree(cur, child))
      && (child !in m || (m[child].Dir? && n == "temp") ==> next == cur)
  {
    var child := dest + [n];
    assert child[..|dest|] == dest && child[|dest|] == n;
    var cur := CleanedSome(m, dest, done);
    var next := CleanedSome(m, dest, done + {n});
    forall q ensures q in next <==> q in cur && !(Doomed(m, dest, q) && Within(child, q)) {
      WithinChild(dest, n, q);
    }
    if child in m && m[child].File? {
      forall q ensures q in next <==> q in cur - {child} {
        WithinChild(dest, n, q);
      }
    }
    if child in m && m[child].Dir? && n != "temp" {
      forall q ensures q in next <==> q in cur && !Within(child, q) {
        WithinChild(dest, n, q);
      }
    }
  }
}
