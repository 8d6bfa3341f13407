/** The NCBI subsets adapter (brdm/NcbiSubsetData.py): query entries, the
    batched Entrez fetch of one subset, the accession list written beside
    it, the retries of `download`, `backup`, `restore` and `update`. */
module NcbiSubsetData {
  import opened Wrappers
  import opened Strings
  import opened FileSystem
  import opened BaseRefData
  import opened AdapterCommon

  // ---------------------------------------------------------------------
  // Query entries

  /** An entry of `query_set`, `"<file name>|<query>"`: the stripped text
      before the first `|` and the stripped text after it, up to a second
      `|`; `None` when there is no `|` (indexing raises `IndexError`). */
  function QueryEntry(entry: string): (r: Option<(string, string)>)
    ensures r.Some? <==> |Split(entry, "|")| >= 2
  {
    var parts := Split(entry, "|");
    if |parts| < 2 then None else Some((Strip(parts[0]), Strip(parts[1])))
  }

  /** An entry written `name | query` reads back as its two halves. */
  lemma QueryEntryReadsBack(name: string, query: string)
    requires name != "" && !IsSpace(name[0]) && !IsSpace(name[|name| - 1]) && '|' !in name
    requires query != "" && !IsSpace(query[0]) && !IsSpace(query[|query| - 1]) && '|' !in query
    ensures QueryEntry(name + " | " + query) == Some((name, query))
  {
    var x, y := name + " ", " " + query;
    assert Strip(x) == name && Strip(y) == query by {
      StripPadded(name);
      StripPadded(query);
    }
    assert name + " | " + query == x + "|" + y by {
      assert " | " == " " + "|" + " ";
    }
    assert Split(x + "|" + y, "|") == [x, y] by {
      assert Join([x, y], "|") == x + "|" + y by {
        assert [x, y][1..] == [y];
      }
      SplitJoin([x, y], "|");
    }
  }

  // ---------------------------------------------------------------------
  // Batches: `for start in range(0, count, batch_size)`

  /** The windows `(start, min(count, start + batch_size))` of the batches
      from `start` on. */
  function Windows(count: nat, size: nat, start: nat): seq<(nat, nat)>
    requires size > 0
    decreases count - start
  {
    if start >= count then []
    else [(start, if start + size < count then start + size else count)] + Windows(count, size, start + size)
  }

  /** The windows are non-empty, at most `batch_size` long, each starting
      where the one before ends, from `start` to `count`: they cover the
      records `start..count` once each. */
  lemma {:induction false} WindowsPartition(count: nat, size: nat, start: nat)
    requires size > 0
    ensures var ws := Windows(count, size, start);
      && (start >= count <==> ws == [])
      && (ws != [] ==> ws[0].0 == start && ws[|ws| - 1].1 == count)
      && (forall k :: 0 <= k < |ws| ==> ws[k].0 < ws[k].1 <= ws[k].0 + size)
      && (forall k :: 0 <= k < |ws| - 1 ==> ws[k].1 == ws[k + 1].0)
    decreases count - start
  {
    if start < count {
      var ws := Windows(count, size, start);
      var rest := Windows(count, size, start + size);
      WindowsPartition(count, size, start + size);
      assert ws[1..] == rest;
      forall k | 0 <= k < |ws| - 1 ensures ws[k].1 == ws[k + 1].0 {
        if k > 0 {
          assert ws[k] == rest[k - 1] && ws[k + 1] == rest[k];
        }
      }
    }
  }

  // ---------------------------------------------------------------------
  // Fetching one batch

  /** What one `Entrez.efetch` call gives: a handle on the text, an
      `HTTPError` with a 5xx code (logged, and the loop goes on), or another
      error, which is raised again. */
  datatype Fetch = Handle(text: string) | ServerError | OtherError

  datatype Net = Net(
    search: (string, nat) -> Option<nat>,          // `Count` of `esearch` for a query in subset attempt `a`; None for HTTPError
    fetch: (string, nat, nat, nat) -> Fetch)       // `efetch` for a query, subset attempt, batch start and fetch attempt

  /** The inner `while attempt < max_attemp` loop for the batch at `start`,
      after `k` attempts with `last` the text of the newest handle: the loop
      has no `break`, so every attempt runs and the last handle obtained is
      read.  `None` when it raises: another error, or no handle at all in
      this batch (the name is unbound on the first batch, and on a later one
      it is the previous batch's handle, already closed). */
  function BatchFetch(net: Net, query: string, a: nat, start: nat, max: int, k: nat, last: Option<string>): Option<string>
    decreases max - k
  {
    if k >= max then last
    else
      match net.fetch(query, a, start, k + 1)
      case Handle(t) => BatchFetch(net, query, a, start, max, k + 1, Some(t))
      case ServerError => BatchFetch(net, query, a, start, max, k + 1, last)
      case OtherError => None
  }

  /** Reference reading of the same loop, looking backwards: the text of
      the last handle among attempts `1..k`. */
  function LastHandle(net: Net, query: string, a: nat, start: nat, k: nat): Option<string> {
    if k == 0 then None
    else
      match net.fetch(query, a, start, k)
      case Handle(t) => Some(t)
      case _ => LastHandle(net, query, a, start, k - 1)
  }

  /** None of the attempts `k+1..max` hits a non-5xx error. */
  predicate NoOtherError(net: Net, query: string, a: nat, start: nat, k: nat, max: int) {
    forall j: nat :: k < j <= max ==> !net.fetch(query, a, start, j).OtherError?
  }

  /** A batch is read exactly when no attempt hits a non-5xx error and some
      attempt gets a handle, and what is read is the last handle's text. */
  lemma BatchFetchIsLastHandle(net: Net, query: string, a: nat, start: nat, max: int)
    ensures BatchFetch(net, query, a, start, max, 0, None) ==
      if max > 0 && NoOtherError(net, query, a, start, 0, max) then LastHandle(net, query, a, start, max) else None
  {
    BatchFetchFrom(net, query, a, start, max, 0);
  }

  lemma {:induction false} BatchFetchFrom(net: Net, query: string, a: nat, start: nat, max: int, k: nat)
    ensures BatchFetch(net, query, a, start, max, k, LastHandle(net, query, a, start, k)) ==
      if k >= max then LastHandle(net, query, a, start, k)
      else if NoOtherError(net, query, a, start, k, max) then LastHandle(net, query, a, start, max) else None
    decreases max - k
  {
    if k < max {
      BatchFetchFrom(net, query, a, start, max, k + 1);
      if !NoOtherError(net, query, a, start, k + 1, max) {
        var j: nat :| k + 1 < j <= max && net.fetch(query, a, start, j).OtherError?;
      }
      if net.fetch(query, a, start, k + 1).OtherError? {
        assert !NoOtherError(net, query, a, start, k, max);
      }
    }
  }

  method FetchBatch(net: Net, query: string, a: nat, start: nat, max: int) returns (text: Option<string>)
    ensures text == BatchFetch(net, query, a, start, max, 0, None)
  {
    var last: Option<string> := None;
    var k: nat := 0;
    while k < max
      invariant BatchFetch(net, query, a, start, max, 0, None) == BatchFetch(net, query, a, start, max, k, last)
      decreases max - k
    {
      var fetched := net.fetch(query, a, start, k + 1);
      k := k + 1;
      match fetched
      case Handle(t) =>
        last := Some(t);
      case ServerError =>
      case OtherError =>
        return None;
    }
    text := last;
  }

  // ---------------------------------------------------------------------
  // Fetching all batches

  /** The batches at the windows `ws` fetched and written one after the
      other: whether every one was read, and the text `fasta_file.write`
      received, which ends with the last batch before the first one that
      raises. */
  function FetchAll(net: Net, query: string, a: nat, max: int, ws: seq<(nat, nat)>): (bool, string) {
    if ws == [] then (true, "")
    else
      match BatchFetch(net, query, a, ws[0].0, max, 0, None)
      case None => (false, "")
      case Some(t) =>
        var rest := FetchAll(net, query, a, max, ws[1..]);
        (rest.0, t + rest.1)
  }

  /** All batches are read exactly when each one is. */
  lemma {:induction false} FetchAllSome(net: Net, query: string, a: nat, max: int, ws: seq<(nat, nat)>)
    ensures FetchAll(net, query, a, max, ws).0 <==>
      forall k :: 0 <= k < |ws| ==> BatchFetch(net, query, a, ws[k].0, max, 0, None).Some?
  {
    if ws != [] {
      FetchAllSome(net, query, a, max, ws[1..]);
      if !BatchFetch(net, query, a, ws[0].0, max, 0, None).Some? {
        assert !(forall k :: 0 <= k < |ws| ==> BatchFetch(net, query, a, ws[k].0, max, 0, None).Some?);
      }
      forall k | 1 <= k < |ws| ensures ws[k] == ws[1..][k - 1] {
      }
    }
  }

  /** Fetching the windows `ws` and then `more`: once a batch of `ws`
      raises, nothing of `more` is fetched or written; otherwise the texts
      follow one another. */
  lemma {:induction false} FetchAllAppend(net: Net, query: string, a: nat, max: int, ws: seq<(nat, nat)>, more: seq<(nat, nat)>)
    ensures var f := FetchAll(net, query, a, max, ws);
      FetchAll(net, query, a, max, ws + more) ==
        if f.0 then After(f.1, FetchAll(net, query, a, max, more)) else f
  {
    if ws == [] {
      assert ws + more == more;
      assert "" + FetchAll(net, query, a, max, more).1 == FetchAll(net, query, a, max, more).1;
    } else {
      assert (ws + more)[0] == ws[0] && (ws + more)[1..] == ws[1..] + more;
      FetchAllAppend(net, query, a, max, ws[1..], more);
      var b := BatchFetch(net, query, a, ws[0].0, max, 0, None);
      if b.Some? {
        var f := FetchAll(net, query, a, max, ws[1..]);
        if f.0 {
          var g := FetchAll(net, query, a, max, more);
          assert b.value + (f.1 + g.1) == (b.value + f.1) + g.1;
        }
      }
    }
  }

  /** `written` followed by what comes after it. */
  function After(written: string, rest: (bool, string)): (bool, string) {
    (rest.0, written + rest.1)
  }

  /** The `for start in range(0, count, batch_size)` loop, for a positive
      batch size: whether every batch was read, and the text written. */
  method FetchBatches(net: Net, query: string, a: nat, count: nat, size: nat, max: int) returns (complete: bool, text: string)
    requires size > 0
    ensures (complete, text) == FetchAll(net, query, a, max, Windows(count, size, 0))
  {
    var start := 0;
    text := "";
    assert After("", FetchAll(net, query, a, max, Windows(count, size, 0))) == FetchAll(net, query, a, max, Windows(count, size, 0)) by {
      assert "" + FetchAll(net, query, a, max, Windows(count, size, 0)).1 == FetchAll(net, query, a, max, Windows(count, size, 0)).1;
    }
    while start < count
      invariant FetchAll(net, query, a, max, Windows(count, size, 0)) ==
        After(text, FetchAll(net, query, a, max, Windows(count, size, start)))
      decreases count - start
    {
      var ws := Windows(count, size, start);
      assert ws[0].0 == start && ws[1..] == Windows(count, size, start + size);
      var batch := FetchBatch(net, query, a, start, max);
      if batch.None? {
        assert text + "" == text;
        return false, text;
      }
      var rest := FetchAll(net, query, a, max, ws[1..]);
      assert After(text, After(batch.value, rest)) == After(text + batch.value, rest) by {
        assert text + (batch.value + rest.1) == text + batch.value + rest.1;
      }
      text := text + batch.value;
      start := start + size;
    }
    assert text + "" == text;
    complete := true;
  }

  // ---------------------------------------------------------------------
  // Headers and accession ids

  /** `confirm_count`: the lines holding a `>`. */
  function HeaderCount(lines: seq<string>): nat {
    if lines == [] then 0 else (if '>' in lines[0] then 1 else 0) + HeaderCount(lines[1..])
  }

  /** What is written to the `.accID` file: for every line holding a `>`,
      its text up to the first space, and a newline. */
  function AccIdText(lines: seq<string>): string {
    if lines == [] then ""
    else (if '>' in lines[0] then Split(lines[0], " ")[0] + "\n" else "") + AccIdText(lines[1..])
  }

  /** The loop over the lines of the written FASTA file. */
  method CountHeaders(text: string) returns (confirm: nat, accids: string)
    ensures confirm == HeaderCount(ReadLines(text)) && accids == AccIdText(ReadLines(text))
  {
    var lines := ReadLines(text);
    confirm, accids := 0, "";
    var i := 0;
    while i < |lines|
      invariant i <= |lines|
      invariant HeaderCount(lines) == confirm + HeaderCount(lines[i..])
      invariant AccIdText(lines) == accids + AccIdText(lines[i..])
    {
      assert lines[i..][1..] == lines[i + 1..];
      if '>' in lines[i] {
        var id := Split(lines[i], " ")[0] + "\n";
        assert AccIdText(lines[i..]) == id + AccIdText(lines[i + 1..]);
        assert accids + (id + AccIdText(lines[i + 1..])) == (accids + id) + AccIdText(lines[i + 1..]);
        confirm, accids := confirm + 1, accids + id;
      } else {
        assert AccIdText(lines[i..]) == AccIdText(lines[i + 1..]);
      }
      i := i + 1;
    }
    assert lines[i..] == [];
  }

  /** A FASTA record: accession id, description and sequence. */
  datatype Record = Record(id: string, description: string, sequence: string)

  predicate WellFormedRecord(r: Record) {
    && ' ' !in r.id && '\n' !in r.id
    && '\n' !in r.description
    && '\n' !in r.sequence && '>' !in r.sequence
  }

  /** The lines of a FASTA text: `>id description` and the sequence. */
  function FastaLines(rs: seq<Record>): seq<string> {
    if rs == [] then []
    else [HeaderLine(rs[0]), rs[0].sequence + "\n"] + FastaLines(rs[1..])
  }

  function HeaderLine(r: Record): string {
    ">" + r.id + " " + r.description + "\n"
  }

  /** A record's header line is a line holding a `>`, and its text up to
      the first space is `>` and the id. */
  lemma HeaderLineShape(r: Record)
    requires WellFormedRecord(r)
    ensures var h := HeaderLine(r);
      IsLine(h) && '>' in h && Split(h, " ")[0] == ">" + r.id
  {
    var h := HeaderLine(r);
    var t := ">" + r.id;
    assert h[0] == '>';
    assert '\n' !in t + " " + r.description;
    LineOf(t + " " + r.description);
    assert ' ' !in t;
    assert h == (t + " ") + (r.description + "\n");
    FirstTokenIff(h, ' ', t);
  }

  /** The accession file expected for the records: `>id` per line. */
  function AccessionLines(rs: seq<Record>): string {
    if rs == [] then "" else ">" + rs[0].id + "\n" + AccessionLines(rs[1..])
  }

  /** For a FASTA text of well-formed records the count check sees one
      header per record, and the accession file lists the records' ids in
      order. */
  lemma FastaAccessions(rs: seq<Record>)
    requires forall k :: 0 <= k < |rs| ==> WellFormedRecord(rs[k])
    ensures var lines := ReadLines(Concat(FastaLines(rs)));
      HeaderCount(lines) == |rs| && AccIdText(lines) == AccessionLines(rs)
  {
    FastaLinesAreLines(rs);
    ReadLinesConcat(FastaLines(rs));
    FastaHeaders(rs);
  }

  lemma {:induction false} FastaLinesAreLines(rs: seq<Record>)
    requires forall k :: 0 <= k < |rs| ==> WellFormedRecord(rs[k])
    ensures forall k :: 0 <= k < |FastaLines(rs)| ==> IsLine(FastaLines(rs)[k])
  {
    if rs != [] {
      var r := rs[0];
      FastaLinesAreLines(rs[1..]);
      HeaderLineShape(r);
      LineOf(r.sequence);
      assert forall k :: 2 <= k < |FastaLines(rs)| ==> FastaLines(rs)[k] == FastaLines(rs[1..])[k - 2];
    }
  }

  lemma {:induction false} FastaHeaders(rs: seq<Record>)
    requires forall k :: 0 <= k < |rs| ==> WellFormedRecord(rs[k])
    ensures HeaderCount(FastaLines(rs)) == |rs| && AccIdText(FastaLines(rs)) == AccessionLines(rs)
  {
    if rs != [] {
      var r := rs[0];
      var b := r.sequence + "\n";
      var lines := FastaLines(rs);
      var tail := FastaLines(rs[1..]);
      var rest := [b] + tail;
      FastaHeaders(rs[1..]);
      assert HeaderCount(rest) == HeaderCount(tail) && AccIdText(rest) == AccIdText(tail) by {
        assert '>' !in b;
        assert rest[0] == b && rest[1..] == tail;
      }
      assert lines[0] == HeaderLine(r) && lines[1..] == rest;
      HeaderLineShape(r);
    }
  }

  // ---------------------------------------------------------------------
  // download_a_subset

  /** What one call of `download_a_subset` comes to: its exit, and the
      texts it leaves in the `.fasta` and `.accID` files. */
  datatype Attempt = Attempt(exit: Exit, fasta: string, accids: string)

  /** The batch windows `range(0, count, batch_size)` walks: none for a
      negative step. */
  function Batches(count: nat, size: int): seq<(nat, nat)>
    requires size != 0
  {
    if size > 0 then Windows(count, size, 0) else []
  }

  /** `download_a_subset(file_name, query)` in subset attempt `a` with
      `batch_size` `size` and `connection_retry_num` `max`.  The search
      failing gives `False` with both files empty; a zero batch size makes
      `range` raise `ValueError`; a batch that raises aborts the call, with
      the `.fasta` file holding the batches written before it; at the end
      the result is whether the header count equals the search count. */
  function SubsetAttempt(net: Net, query: string, a: nat, size: int, max: int): Attempt {
    match net.search(query, a)
    case None => Attempt(Return(false), "", "")
    case Some(count) =>
      if size == 0 then Attempt(Raise, "", "")
      else
        var fetched := FetchAll(net, query, a, max, Batches(count, size));
        if !fetched.0 then Attempt(Raise, fetched.1, "")
        else Tallied(fetched.1, count)
  }

  /** The end of an attempt whose batches all came back as `text`: the
      header count checked against the search count, the accession ids. */
  function Tallied(text: string, count: nat): Attempt {
    var lines := ReadLines(text);
    Attempt(Return(HeaderCount(lines) == count), text, AccIdText(lines))
  }

  /** An attempt returns `True` exactly when the search answers, the batch
      size is not zero, every batch is read and the headers in the text
      number the search count. */
  lemma SubsetAttemptSucceeds(net: Net, query: string, a: nat, size: int, max: int)
    ensures SubsetAttempt(net, query, a, size, max).exit == Return(true) <==>
      && net.search(query, a).Some? && size != 0
      && (forall k :: 0 <= k < |Batches(net.search(query, a).value, size)| ==>
            BatchFetch(net, query, a, Batches(net.search(query, a).value, size)[k].0, max, 0, None).Some?)
      && HeaderCount(ReadLines(SubsetAttempt(net, query, a, size, max).fasta)) == net.search(query, a).value
  {
    if net.search(query, a).Some? && size != 0 {
      FetchAllSome(net, query, a, max, Batches(net.search(query, a).value, size));
    }
  }

  /** When batch `k` is the first that raises, the attempt raises with the
      `.fasta` file holding the texts of the batches before it, all of
      which were read, and the `.accID` file empty. */
  lemma SubsetAttemptKeepsEarlierBatches(net: Net, query: string, a: nat, size: int, max: int, k: nat)
    requires net.search(query, a).Some? && size != 0
    requires var ws := Batches(net.search(query, a).value, size);
      && k < |ws|
      && (forall j :: 0 <= j < k ==> BatchFetch(net, query, a, ws[j].0, max, 0, None).Some?)
      && BatchFetch(net, query, a, ws[k].0, max, 0, None).None?
    ensures var ws := Batches(net.search(query, a).value, size);
      && FetchAll(net, query, a, max, ws[..k]).0
      && SubsetAttempt(net, query, a, size, max) == Attempt(Raise, FetchAll(net, query, a, max, ws[..k]).1, "")
  {
    var ws := Batches(net.search(query, a).value, size);
    FetchAllSome(net, query, a, max, ws[..k]);
    FetchAllAppend(net, query, a, max, ws[..k], ws[k..]);
    assert ws[..k] + ws[k..] == ws;
    assert ws[k..][0] == ws[k];
  }

  /** When the fetched text is a FASTA text of `count` well-formed records,
      the attempt returns `True`, keeps the text and writes the records'
      accession ids in order. */
  lemma SubsetAttemptOfRecords(net: Net, query: string, a: nat, size: int, max: int, rs: seq<Record>)
    requires net.search(query, a) == Some(|rs|) && size != 0
    requires FetchAll(net, query, a, max, Batches(|rs|, size)) == (true, Concat(FastaLines(rs)))
    requires forall k :: 0 <= k < |rs| ==> WellFormedRecord(rs[k])
    ensures SubsetAttempt(net, query, a, size, max) == Attempt(Return(true), Concat(FastaLines(rs)), AccessionLines(rs))
  {
    FastaAccessions(rs);
  }

  /** No subdirectory in `dir`: every file written there can be opened. */
  ghost predicate Flat(m: map<Path, Node>, dir: Path) {
    forall n :: dir + [n] in m ==> m[dir + [n]].File?
  }

  /** What a subset attempt `(name, fasta, accids)` leaves in `dir`. */
  function Wrote(m: map<Path, Node>, dir: Path, w: (string, string, string)): map<Path, Node> {
    m[dir + [w.0 + ".fasta"] := File(w.1)][dir + [w.0 + ".accID"] := File(w.2)]
  }

  /** The files left by the attempts `ws` in order. */
  function Written(m: map<Path, Node>, dir: Path, ws: seq<(string, string, string)>): map<Path, Node> {
    if ws == [] then m else Wrote(Written(m, dir, ws[..|ws| - 1]), dir, ws[|ws| - 1])
  }

  lemma {:induction false} WrittenConcat(m: map<Path, Node>, dir: Path, ws: seq<(string, string, string)>, more: seq<(string, string, string)>)
    ensures Written(m, dir, ws + more) == Written(Written(m, dir, ws), dir, more)
    decreases |more|
  {
    if more == [] {
      assert ws + more == ws;
    } else {
      assert (ws + more)[..|ws + more| - 1] == ws + more[..|more| - 1];
      WrittenConcat(m, dir, ws, more[..|more| - 1]);
    }
  }

  /** Writing the two files of an attempt keeps `dir` a directory without
      subdirectories. */
  lemma WroteFlat(m: map<Path, Node>, dir: Path, w: (string, string, string))
    requires DirIn(m, dir) && Flat(m, dir)
    ensures DirIn(Wrote(m, dir, w), dir) && Flat(Wrote(m, dir, w), dir)
  {
    assert dir != dir + [w.0 + ".fasta"] && dir != dir + [w.0 + ".accID"];
  }

  /** The control flow of `download_a_subset` apart from the files: the
      search, the batches and the header count. */
  method AttemptTexts(net: Net, query: string, a: nat, size: int, max: int, ghost attempts: nat -> Attempt)
    returns (t: Attempt)
    requires Produces(attempts, net, query, size, max)
    ensures t == attempts(a)
  {
    assert attempts(a) == SubsetAttempt(net, query, a, size, max);
    var count := net.search(query, a);
    if count.None? {
      return Attempt(Return(false), "", "");
    }
    if size == 0 {
      return Attempt(Raise, "", "");
    }
    var complete, text := true, "";
    if size > 0 {
      complete, text := FetchBatches(net, query, a, count.value, size, max);
      if !complete {
        return Attempt(Raise, text, "");
      }
    }
    assert FetchAll(net, query, a, max, Batches(count.value, size)) == (true, text);
    var confirm, ids := CountHeaders(text);
    t := Attempt(Return(confirm == count.value), text, ids);
  }

  /** `download_a_subset` in the working directory `dir`: both files are
      opened for writing first; what they hold at the end is the attempt's
      FASTA text and accession ids: the FASTA file holds the batches
      written before a batch raised, the accession file stays empty when
      the call ends early. */
  method DownloadASubset(fs: FileSystem, dir: Path, net: Net, name: string, query: string, a: nat, size: int, max: int,
                         ghost attempts: nat -> Attempt)
    returns (r: Exit)
    requires DirIn(fs.nodes, dir) && Flat(fs.nodes, dir)
    requires Produces(attempts, net, query, size, max)
    modifies fs
    ensures var t := attempts(a);
      r == t.exit && fs.nodes == Wrote(old(fs.nodes), dir, (name, t.fasta, t.accids))
  {
    var fastaFile := dir + [name + ".fasta"];
    var accIdFile := dir + [name + ".accID"];
    assert fastaFile != accIdFile by {
      assert fastaFile[|dir|][|name| + 1] != accIdFile[|dir|][|name| + 1];
    }
    assert fastaFile[..|fastaFile| - 1] == dir && accIdFile[..|accIdFile| - 1] == dir;
    ghost var m0 := fs.nodes;
    var _ := fs.WriteFile(fastaFile, "");
    var _ := fs.WriteFile(accIdFile, "");
    assert fs.nodes == Wrote(m0, dir, (name, "", ""));
    WroteFlat(m0, dir, (name, "", ""));
    var t := AttemptTexts(net, query, a, size, max, attempts);
    var _ := fs.WriteFile(fastaFile, t.fasta);
    var _ := fs.WriteFile(accIdFile, t.accids);
    r := t.exit;
    assert fs.nodes == Wrote(m0, dir, (name, t.fasta, t.accids)) by {
      Overwrote(m0, fastaFile, accIdFile, File(""), File(""), File(t.fasta), File(t.accids));
    }
  }

  /** Writing the same two files twice leaves only the second writes. */
  lemma Overwrote(m: map<Path, Node>, f: Path, g: Path, x: Node, y: Node, x': Node, y': Node)
    requires f != g
    ensures m[f := x][g := y][f := x'][g := y'] == m[f := x'][g := y']
  {
  }

  // ---------------------------------------------------------------------
  // download

  /** The attempts at one subset, by attempt number. */
  function Attempts(net: Net, query: string, size: int, cmax: int): nat -> Attempt {
    (b: nat) => SubsetAttempt(net, query, b, size, cmax)
  }

  /** `attempts` gives, by attempt number, the attempts at `query`. */
  ghost predicate Produces(attempts: nat -> Attempt, net: Net, query: string, size: int, cmax: int) {
    forall b: nat {:trigger SubsetAttempt(net, query, b, size, cmax)} :: attempts(b) == SubsetAttempt(net, query, b, size, cmax)
  }

  lemma AttemptsProduce(net: Net, query: string, size: int, cmax: int)
    ensures Produces(Attempts(net, query, size, cmax), net, query, size, cmax)
  {
  }

  /** The attempts `a+1..download_retry_num` at one subset `name`, ending
      at the first that does not return `False`: the exit of the last one,
      and what each attempt left, in order. */
  function Tries(attempts: nat -> Attempt, name: string, dmax: int, a: nat): (Exit, seq<(string, string, string)>)
    decreases dmax - a
  {
    if a >= dmax then (Return(false), [])
    else
      var t := attempts(a + 1);
      var w := (name, t.fasta, t.accids);
      if t.exit == Return(false) then
        var rest := Tries(attempts, name, dmax, a + 1);
        (rest.0, [w] + rest.1)
      else (t.exit, [w])
  }

  /** Some attempt among `1..dmax` returns `True`. */
  predicate SomeAttemptSucceeds(attempts: nat -> Attempt, dmax: int) {
    exists b: nat :: 0 < b <= dmax && attempts(b).exit == Return(true)
  }

  /** The retries end in `True` only when some attempt returns `True`, and
      they end in `False` exactly when every attempt returns `False`. */
  lemma {:induction false} TriesOutcome(attempts: nat -> Attempt, name: string, dmax: int, a: nat)
    ensures Tries(attempts, name, dmax, a).0 == Return(false) <==>
      forall b: nat :: a < b <= dmax ==> attempts(b).exit == Return(false)
    ensures Tries(attempts, name, dmax, a).0 == Return(true) ==>
      exists b: nat :: a < b <= dmax && attempts(b).exit == Return(true)
    decreases dmax - a
  {
    if a < dmax {
      TriesOutcome(attempts, name, dmax, a + 1);
      if attempts(a + 1).exit != Return(false) {
        assert !(forall b: nat :: a < b <= dmax ==> attempts(b).exit == Return(false));
      }
    }
  }

  /** The `while attempt < max_download_attempts and download_success ==
      False` loop of one subset. */
  method RetrySubset(fs: FileSystem, dir: Path, net: Net, name: string, query: string, size: int, cmax: int, dmax: int,
                     ghost attempts: nat -> Attempt)
    returns (e: Exit)
    requires DirIn(fs.nodes, dir) && Flat(fs.nodes, dir)
    requires Produces(attempts, net, query, size, cmax)
    modifies fs
    ensures var t := Tries(attempts, name, dmax, 0);
      e == t.0 && fs.nodes == Written(old(fs.nodes), dir, t.1)
    ensures DirIn(fs.nodes, dir) && Flat(fs.nodes, dir)
  {
    ghost var m0 := fs.nodes;
    ghost var acc: seq<(string, string, string)> := [];
    var a: nat := 0;
    e := Return(false);
    assert [] + Tries(attempts, name, dmax, 0).1 == Tries(attempts, name, dmax, 0).1;
    while a < dmax && e == Return(false)
      invariant DirIn(fs.nodes, dir) && Flat(fs.nodes, dir)
      invariant fs.nodes == Written(m0, dir, acc)
      invariant e == Return(false) ==>
        Tries(attempts, name, dmax, 0) == (Tries(attempts, name, dmax, a).0, acc + Tries(attempts, name, dmax, a).1)
      invariant e != Return(false) ==> Tries(attempts, name, dmax, 0) == (e, acc)
      decreases dmax - a
    {
      ghost var w := (name, attempts(a + 1).fasta, attempts(a + 1).accids);
      ghost var before := fs.nodes;
      e := DownloadASubset(fs, dir, net, name, query, a + 1, size, cmax, attempts);
      assert DirIn(fs.nodes, dir) && Flat(fs.nodes, dir) && fs.nodes == Written(m0, dir, acc + [w]) by {
        WroteFlat(before, dir, w);
        WrittenSnoc(m0, dir, acc, w);
      }
      TriesStep(attempts, name, dmax, a, acc);
      acc := acc + [w];
      a := a + 1;
    }
    if e == Return(false) {
      assert acc + [] == acc;
    }
  }

  /** One attempt of the retry loop, seen from the accumulated writes. */
  lemma TriesStep(attempts: nat -> Attempt, name: string, dmax: int, a: nat, acc: seq<(string, string, string)>)
    requires a < dmax
    ensures var t := attempts(a + 1);
      var w := (name, t.fasta, t.accids);
      var here := Tries(attempts, name, dmax, a);
      var next := Tries(attempts, name, dmax, a + 1);
      && (t.exit == Return(false) ==> here.0 == next.0 && acc + here.1 == (acc + [w]) + next.1)
      && (t.exit != Return(false) ==> here.0 == t.exit && acc + here.1 == acc + [w])
  {
  }

  lemma WrittenSnoc(m: map<Path, Node>, dir: Path, acc: seq<(string, string, string)>, w: (string, string, string))
    ensures Written(m, dir, acc + [w]) == Wrote(Written(m, dir, acc), dir, w)
  {
    assert (acc + [w])[..|acc + [w]| - 1] == acc;
  }

  /** The outcome of `download()` over the entries from `i` on, with the
      subsets `done` already downloaded and `writes` already made. */
  datatype Run = Run(exit: Exit, downloaded: seq<string>, writes: seq<(string, string, string)>)

  function DownloadsFrom(parse: string -> Option<(string, string)>, attemptsFor: string -> (nat -> Attempt), entries: seq<string>, dmax: int, i: nat,
                         done: seq<string>, writes: seq<(string, string, string)>): Run
    decreases |entries| - i
  {
    if i >= |entries| then Run(Return(true), done, writes)
    else
      match parse(entries[i])
      case None => Run(Raise, done, writes)
      case Some(entry) =>
        var t := Tries(attemptsFor(entry.1), entry.0, dmax, 0);
        if t.0 == Return(true) then DownloadsFrom(parse, attemptsFor, entries, dmax, i + 1, done + [entry.0], writes + t.1)
        else Run(t.0, done, writes + t.1)
  }

  /** The attempts at each query of the entries. */
  function AttemptsFor(net: Net, size: int, cmax: int): string -> (nat -> Attempt) {
    (query: string) => Attempts(net, query, size, cmax)
  }

  /** Subset `entry` gets `True` from one of its attempts. */
  predicate Succeeds(parse: string -> Option<(string, string)>, attemptsFor: string -> (nat -> Attempt), entry: string, dmax: int) {
    parse(entry).Some? && SomeAttemptSucceeds(attemptsFor(parse(entry).value.1), dmax)
  }

  /** Subset `entry` gets `False` from every attempt. */
  predicate Exhausted(parse: string -> Option<(string, string)>, attemptsFor: string -> (nat -> Attempt), entry: string, dmax: int) {
    && parse(entry).Some?
    && forall b: nat :: 0 < b <= dmax ==> attemptsFor(parse(entry).value.1)(b).exit == Return(false)
  }

  /** `download()` returns `True` only when every entry names a subset that
      one of its attempts downloaded, the downloaded list being the entries'
      file names in order. */
  lemma {:induction false} DownloadsSucceeded(parse: string -> Option<(string, string)>, attemptsFor: string -> (nat -> Attempt), entries: seq<string>, dmax: int, i: nat,
                                              done: seq<string>, writes: seq<(string, string, string)>)
    requires i <= |entries|
    requires DownloadsFrom(parse, attemptsFor, entries, dmax, i, done, writes).exit == Return(true)
    ensures var d := DownloadsFrom(parse, attemptsFor, entries, dmax, i, done, writes).downloaded;
      && |d| == |done| + |entries| - i && d[..|done|] == done
      && forall k :: i <= k < |entries| ==> Succeeds(parse, attemptsFor, entries[k], dmax) && d[|done| + k - i] == parse(entries[k]).value.0
    decreases |entries| - i
  {
    if i < |entries| {
      var entry := parse(entries[i]).value;
      var t := Tries(attemptsFor(entry.1), entry.0, dmax, 0);
      TriesOutcome(attemptsFor(entry.1), entry.0, dmax, 0);
      var done' := done + [entry.0];
      assert t.0 == Return(true);
      var d := DownloadsFrom(parse, attemptsFor, entries, dmax, i + 1, done', writes + t.1).downloaded;
      assert d == DownloadsFrom(parse, attemptsFor, entries, dmax, i, done, writes).downloaded;
      DownloadsSucceeded(parse, attemptsFor, entries, dmax, i + 1, done', writes + t.1);
      assert d[..|done|] == d[..|done'|][..|done|];
      assert d[|done|] == d[..|done'|][|done|];
      assert Succeeds(parse, attemptsFor, entries[i], dmax);
    }
  }

  /** `download()` returns `False` only when some entry's attempts all
      returned `False`. */
  lemma {:induction false} DownloadsFailed(parse: string -> Option<(string, string)>, attemptsFor: string -> (nat -> Attempt), entries: seq<string>, dmax: int, i: nat,
                                           done: seq<string>, writes: seq<(string, string, string)>)
    requires DownloadsFrom(parse, attemptsFor, entries, dmax, i, done, writes).exit == Return(false)
    ensures exists k :: i <= k < |entries| && Exhausted(parse, attemptsFor, entries[k], dmax)
    decreases |entries| - i
  {
    var entry := parse(entries[i]).value;
    var t := Tries(attemptsFor(entry.1), entry.0, dmax, 0);
    TriesOutcome(attemptsFor(entry.1), entry.0, dmax, 0);
    if t.0 == Return(true) {
      DownloadsFailed(parse, attemptsFor, entries, dmax, i + 1, done + [entry.0], writes + t.1);
    } else {
      assert Exhausted(parse, attemptsFor, entries[i], dmax);
    }
  }

  const Comment := "This folder contains NCBI subset(CO1,ITS etc.) reference databases that downloaded from NCBI."

  /** The `download_url` line: the prefix and Python's rendering of the
      query list, `['a|b', 'c|d']`. */
  function QueriesUrl(entries: seq<string>): string {
    "NCBI nucleotide entrez database with queries:" + "[" + Join(Quoted(entries), ", ") + "]"
  }

  function Quoted(entries: seq<string>): (r: seq<string>)
    ensures |r| == |entries|
  {
    if entries == [] then [] else ["'" + entries[0] + "'"] + Quoted(entries[1..])
  }

  /** The tree after a run of `download()` in `dir`: what the attempts
      wrote, and the README+ manifest `readme` when every subset came
      through. */
  function DownloadedTree(m: map<Path, Node>, dir: Path, run: Run, entries: seq<string>, readme: string,
                          now: string, elapsed: Elapsed): map<Path, Node> {
    var written := Written(m, dir, run.writes);
    if run.exit == Return(true)
    then written[dir + [readme] := File(ReadmeText(Comment, now, QueriesUrl(entries), elapsed, run.downloaded, []))]
    else written
  }

  /** The entry loop of `download()` in the working directory `dir`, with
      the entries parsed by `parse`. */
  method DownloadSubsets(fs: FileSystem, dir: Path, parse: string -> Option<(string, string)>, net: Net, entries: seq<string>,
                         size: int, cmax: int, dmax: int)
    returns (r: Exit, downloaded: seq<string>)
    requires DirIn(fs.nodes, dir) && Flat(fs.nodes, dir)
    modifies fs
    ensures var run := DownloadsFrom(parse, AttemptsFor(net, size, cmax), entries, dmax, 0, [], []);
      && r == run.exit && downloaded == run.downloaded
      && fs.nodes == Written(old(fs.nodes), dir, run.writes)
    ensures DirIn(fs.nodes, dir) && Flat(fs.nodes, dir)
  {
    ghost var m0 := fs.nodes;
    ghost var writes: seq<(string, string, string)> := [];
    downloaded := [];
    var i := 0;
    while i < |entries|
      invariant i <= |entries|
      invariant DirIn(fs.nodes, dir) && Flat(fs.nodes, dir)
      invariant fs.nodes == Written(m0, dir, writes)
      invariant DownloadsFrom(parse, AttemptsFor(net, size, cmax), entries, dmax, 0, [], []) == DownloadsFrom(parse, AttemptsFor(net, size, cmax), entries, dmax, i, downloaded, writes)
    {
      var entry := parse(entries[i]);
      if entry.None? {
        return Raise, downloaded;
      }
      var name, query := entry.value.0, entry.value.1;
      AttemptsProduce(net, query, size, cmax);
      var e := RetrySubset(fs, dir, net, name, query, size, cmax, dmax, Attempts(net, query, size, cmax));
      ghost var t := Tries(Attempts(net, query, size, cmax), name, dmax, 0);
      assert fs.nodes == Written(m0, dir, writes + t.1) by {
        WrittenConcat(m0, dir, writes, t.1);
      }
      assert AttemptsFor(net, size, cmax)(query) == Attempts(net, query, size, cmax);
      writes := writes + t.1;
      if e != Return(true) {
        return e, downloaded;
      }
      downloaded := downloaded + [name];
      i := i + 1;
    }
    r := Return(true);
  }

  /** `download()` in the working directory `dir`, the README+ manifest
      written as `readme` when every subset came through. */
  method Download(fs: FileSystem, dir: Path, net: Net, entries: seq<string>, size: int, cmax: int, dmax: int,
                  readme: string, now: string, elapsed: Elapsed)
    returns (r: Exit, downloaded: seq<string>)
    requires DirIn(fs.nodes, dir) && Flat(fs.nodes, dir)
    modifies fs
    ensures var run := DownloadsFrom(QueryEntry, AttemptsFor(net, size, cmax), entries, dmax, 0, [], []);
      && r == run.exit && downloaded == run.downloaded
      && fs.nodes == DownloadedTree(old(fs.nodes), dir, run, entries, readme, now, elapsed)
  {
    r, downloaded := DownloadSubsets(fs, dir, QueryEntry, net, entries, size, cmax, dmax);
    if r == Return(true) {
      var path := dir + [readme];
      assert path[..|path| - 1] == dir;
      var _ := WriteReadme(fs, path, Comment, now, QueriesUrl(entries), elapsed, downloaded, []);
    }
  }

  // ---------------------------------------------------------------------
  // Backup

  /** The names in `listing` that are regular files in `dir`, in order:
      `[f for f in os.listdir(dir) if os.path.isfile(f)]`. */
  function FileNames(m: map<Path, Node>, dir: Path, listing: seq<string>): (names: seq<string>)
    ensures forall n :: n in names <==> n in listing && dir + [n] in m && m[dir + [n]].File?
  {
    if listing == [] then []
    else
      var rest := FileNames(m, dir, listing[1..]);
      if dir + [listing[0]] in m && m[dir + [listing[0]]].File? then [listing[0]] + rest else rest
  }

  /** Filtering a listing without repeats gives names without repeats. */
  lemma {:induction false} FileNamesDistinct(m: map<Path, Node>, dir: Path, listing: seq<string>)
    requires Distinct(listing)
    ensures Distinct(FileNames(m, dir, listing))
  {
    if listing != [] {
      var tail := listing[1..];
      forall i, j | 0 <= i < j < |tail| ensures tail[i] != tail[j] {
        assert tail[i] == listing[i + 1] && tail[j] == listing[j + 1];
      }
      FileNamesDistinct(m, dir, tail);
      var rest := FileNames(m, dir, tail);
      var names := FileNames(m, dir, listing);
      var kept := dir + [listing[0]] in m && m[dir + [listing[0]]].File?;
      assert names == if kept then [listing[0]] + rest else rest;
      forall i, j | 0 <= i < j < |names| ensures names[i] != names[j] {
        if kept {
          assert names[j] == rest[j - 1] && rest[j - 1] in rest;
          if i > 0 {
            assert names[i] == rest[i - 1];
          }
        } else {
          assert names[i] == rest[i] && names[j] == rest[j];
        }
      }
    }
  }

  /** `backup()` with the working directory `cwd` (during `update` the
      staging folder): the dated folder recreated, then every regular file
      of `cwd`, in the order of `listing`, copied into it; `False` when the
      folder cannot be made or `os.listdir` or a copy raises. */
  function BackedUp(m: map<Path, Node>, backupDir: Path, today: string, cwd: Path, listing: seq<string>): (bool, map<Path, Node>) {
    var d := backupDir + [today];
    var made := Recreate(m, d);
    if !made.0 then (false, made.1)
    else if !DirIn(made.1, cwd) then (false, made.1)
    else CopiedAll(made.1, Under(cwd, FileNames(made.1, cwd, listing)), d)
  }

  method Backup(fs: FileSystem, backupDir: Path, today: string, cwd: Path) returns (ok: bool, ghost listing: seq<string>)
    modifies fs
    ensures var made := Recreate(old(fs.nodes), backupDir + [today]);
      made.0 && DirIn(made.1, cwd) ==> Listing(made.1, cwd, listing)
    ensures (ok, fs.nodes) == BackedUp(old(fs.nodes), backupDir, today, cwd, listing)
  {
    var folder := CreateBackupDir(fs, backupDir, today);
    if folder.None? {
      return false, [];
    }
    if !fs.IsDir(cwd) {
      return false, [];
    }
    var names := fs.ListDir(cwd);
    listing := names;
    ok := CopyFilesInto(fs, Under(cwd, FileNames(fs.nodes, cwd, names)), folder.value);
  }

  /** From a well-formed tree whose working directory lies outside the dated
      folder, a backup succeeds, the dated folder holds a copy of every
      regular file of the working directory and nothing else, and nothing
      outside the dated folder changes. */
  lemma BackupCopiesFiles(m: map<Path, Node>, backupDir: Path, today: string, cwd: Path, listing: seq<string>)
    requires WellFormed(m) && Recreate(m, backupDir + [today]).0
    requires DirIn(m, cwd) && !Within(backupDir + [today], cwd)
    requires Listing(Recreate(m, backupDir + [today]).1, cwd, listing)
    ensures var d := backupDir + [today];
      var r := BackedUp(m, backupDir, today, cwd, listing);
      && r.0
      && (forall n :: cwd + [n] in m && m[cwd + [n]].File? ==> d + [n] in r.1 && r.1[d + [n]] == m[cwd + [n]])
      && (forall n :: d + [n] in r.1 ==> cwd + [n] in m && m[cwd + [n]].File?)
      && (forall q :: q in m && !Within(d, q) ==> q in r.1 && r.1[q] == m[q])
  {
    var d := backupDir + [today];
    var made := Recreate(m, d).1;
    RecreateGivesEmptyDir(m, d);
    CopiesIntoEmpty(made, d, cwd, listing);
    forall n | cwd + [n] in m && m[cwd + [n]].File? ensures cwd + [n] in made && made[cwd + [n]] == m[cwd + [n]] {
      if Within(d, cwd + [n]) {
        WithinParent(d, cwd, n);
      }
    }
  }

  /** Copying the regular files of `cwd` into an empty directory `d` that
      does not hold `cwd`. */
  lemma CopiesIntoEmpty(made: map<Path, Node>, d: Path, cwd: Path, listing: seq<string>)
    requires d in made && made[d] == Dir && forall q :: q in made && Within(d, q) ==> q == d
    requires DirIn(made, cwd) && !Within(d, cwd)
    requires Listing(made, cwd, listing)
    ensures var r := CopiedAll(made, Under(cwd, FileNames(made, cwd, listing)), d);
      && r.0
      && (forall n :: cwd + [n] in made && made[cwd + [n]].File? ==> d + [n] in r.1 && r.1[d + [n]] == made[cwd + [n]])
      && (forall n :: d + [n] in r.1 ==> cwd + [n] in made && made[cwd + [n]].File?)
      && (forall q :: q in made && !Within(d, q) ==> q in r.1 && r.1[q] == made[q])
  {
    var names := FileNames(made, cwd, listing);
    var sources := Under(cwd, names);
    FileNamesDistinct(made, cwd, listing);
    forall k | 0 <= k < |sources|
      ensures sources[k] != [] && sources[k] in made && made[sources[k]].File? && !Within(d, sources[k])
      ensures !DirIn(made, Target(sources[k], d))
    {
      assert names[k] in names;
      var t := Target(sources[k], d);
      assert t == d + [names[k]];
      assert t != d && Within(d, t);
      assert t !in made;
    }
    CopiedAllSucceeds(made, sources, d);
    CopiedNames(made, cwd, d, names);
    forall n | d + [n] in CopiedAll(made, sources, d).1 ensures n in names {
      assert Within(d, d + [n]) && d + [n] != d;
    }
  }

  /** A child of `dir` lies in `d` only when `d` is that child or `dir` is
      already in `d`. */
  lemma WithinParent(d: Path, dir: Path, n: string)
    requires Within(d, dir + [n])
    ensures d == dir + [n] || Within(d, dir)
  {
    if |d| <= |dir| {
      assert (dir + [n])[..|d|] == dir[..|d|];
    }
  }

  // ---------------------------------------------------------------------
  // Restore

  /** How `restore` ends: `False`, `None` after copying, or an exception. */
  datatype RestoreEnd = Refused | Finished | Raised

  /** `d` has no entries: `os.listdir(d)` is empty. */
  ghost predicate EmptyDir(m: map<Path, Node>, d: Path) {
    forall n :: d + [n] !in m
  }

  /** `restore` gets past its checks: the named backup folder is a
      directory with entries and the destination is a directory. */
  ghost predicate RestoreProceeds(m: map<Path, Node>, backupDir: Path, dest: Path, folder: string) {
    var rf := backupDir + [folder];
    rf in m && m[rf].Dir? && !EmptyDir(m, rf) && DirIn(m, dest)
  }

  /** `restore(folder)` with the working directory `dest`: `False` when the
      folder is missing or empty; `os.listdir` of a regular file raises;
      otherwise the regular files of `dest` are deleted and every entry of
      the folder, in the order of `listing`, is copied into `dest`, a
      subdirectory making `shutil.copy` raise. */
  ghost function Restored(m: map<Path, Node>, backupDir: Path, dest: Path, folder: string, listing: seq<string>): (RestoreEnd, map<Path, Node>) {
    var rf := backupDir + [folder];
    if rf !in m then (Refused, m)
    else if m[rf].File? then (Raised, m)
    else if EmptyDir(m, rf) then (Refused, m)
    else if !DirIn(m, dest) then (Raised, m)
    else
      var c := CopiedAll(WithoutFiles(m, dest, {}), Under(rf, listing), dest);
      (if c.0 then Finished else Raised, c.1)
  }

  method Restore(fs: FileSystem, backupDir: Path, dest: Path, folder: string) returns (r: RestoreEnd, ghost listing: seq<string>)
    modifies fs
    ensures RestoreProceeds(old(fs.nodes), backupDir, dest, folder) ==>
      Listing(WithoutFiles(old(fs.nodes), dest, {}), backupDir + [folder], listing)
    ensures (r, fs.nodes) == Restored(old(fs.nodes), backupDir, dest, folder, listing)
  {
    var rf := backupDir + [folder];
    if !fs.Exists(rf) {
      return Refused, [];
    }
    if !fs.IsDir(rf) {
      return Raised, [];
    }
    var entries := fs.ListDir(rf);
    if |entries| == 0 {
      assert EmptyDir(fs.nodes, rf);
      return Refused, [];
    }
    assert rf + [entries[0]] in fs.nodes;
    var ok := RemoveRegularFiles(fs, dest, {});
    if !ok {
      return Raised, [];
    }
    var names := fs.ListDir(rf);
    listing := names;
    ok := CopyFilesInto(fs, Under(rf, names), dest);
    r := if ok then Finished else Raised;
  }

  /** `restore` answers `False` exactly when the folder is missing or is an
      empty directory, and then changes nothing. */
  lemma RestoreRefusals(m: map<Path, Node>, backupDir: Path, dest: Path, folder: string, listing: seq<string>)
    ensures var rf := backupDir + [folder];
      var r := Restored(m, backupDir, dest, folder, listing);
      && (r.0 == Refused <==> rf !in m || (m[rf].Dir? && EmptyDir(m, rf)))
      && (r.0 == Refused ==> r.1 == m)
  {
  }

  /** A restore that finishes from a folder apart from the destination
      leaves in the destination a copy of every entry of the folder and no
      other regular file, and changes nothing outside the destination. */
  lemma RestoredFiles(m: map<Path, Node>, backupDir: Path, dest: Path, folder: string, listing: seq<string>)
    requires Restored(m, backupDir, dest, folder, listing).0 == Finished
    requires Listing(WithoutFiles(m, dest, {}), backupDir + [folder], listing)
    requires !Within(dest, backupDir + [folder]) && !Within(backupDir + [folder], dest)
    ensures var rf := backupDir + [folder];
      var r := Restored(m, backupDir, dest, folder, listing).1;
      && (forall n :: rf + [n] in m ==> dest + [n] in r && r[dest + [n]] == m[rf + [n]])
      && (forall n :: dest + [n] in r && r[dest + [n]].File? ==> rf + [n] in m)
      && (forall q :: q in m && !Within(dest, q) ==> q in r && r[q] == m[q])
  {
    var rf := backupDir + [folder];
    var cleared := WithoutFiles(m, dest, {});
    WithoutFilesRemovesExactly(m, dest, {});
    forall k | 0 <= k < |listing| ensures !Within(dest, rf + [listing[k]]) {
      if Within(dest, rf + [listing[k]]) {
        WithinParent(dest, rf, listing[k]);
      }
    }
    CopiedNames(cleared, rf, dest, listing);
    forall n | rf + [n] in m ensures rf + [n] in cleared {
      if Within(dest, rf + [n]) {
        WithinParent(dest, rf, n);
      }
    }
  }

  /** When the folder holds only regular files, none named like a
      subdirectory of the destination, and the destination is a directory
      apart from the folder, a restore finishes. */
  lemma RestoreFinishes(m: map<Path, Node>, backupDir: Path, dest: Path, folder: string, listing: seq<string>)
    requires RestoreProceeds(m, backupDir, dest, folder)
    requires Listing(WithoutFiles(m, dest, {}), backupDir + [folder], listing)
    requires !Within(dest, backupDir + [folder]) && !Within(backupDir + [folder], dest)
    requires forall n :: backupDir + [folder] + [n] in m ==>
      m[backupDir + [folder] + [n]].File? && !DirIn(m, dest + [n])
    ensures Restored(m, backupDir, dest, folder, listing).0 == Finished
  {
    var rf := backupDir + [folder];
    var cleared := WithoutFiles(m, dest, {});
    WithoutFilesRemovesExactly(m, dest, {});
    var sources := Under(rf, listing);
    forall k | 0 <= k < |sources|
      ensures sources[k] != [] && sources[k] in cleared && cleared[sources[k]].File? && !Within(dest, sources[k])
      ensures !DirIn(cleared, Target(sources[k], dest))
    {
      if Within(dest, sources[k]) {
        WithinParent(dest, rf, listing[k]);
        assert Within(rf, dest);
      }
      assert listing[k] in listing;
      assert Target(sources[k], dest) == dest + [listing[k]];
    }
    CopiedAllSucceeds(cleared, sources, dest);
  }

  /** Writing the attempts' files changes nothing outside `dir`. */
  lemma {:induction false} WrittenFrame(m: map<Path, Node>, dir: Path, ws: seq<(string, string, string)>)
    ensures var r := Written(m, dir, ws);
      forall q :: q in m && !Within(dir, q) ==> q in r && r[q] == m[q]
    decreases |ws|
  {
    if ws != [] {
      WrittenFrame(m, dir, ws[..|ws| - 1]);
      var w := ws[|ws| - 1];
      assert Within(dir, dir + [w.0 + ".fasta"]) && Within(dir, dir + [w.0 + ".accID"]);
    }
  }

  /** A run of `download()` changes nothing outside its folder. */
  lemma DownloadedFrame(m: map<Path, Node>, dir: Path, run: Run, entries: seq<string>, readme: string, now: string, elapsed: Elapsed)
    ensures var r := DownloadedTree(m, dir, run, entries, readme, now, elapsed);
      forall q :: q in m && !Within(dir, q) ==> q in r && r[q] == m[q]
  {
    WrittenFrame(m, dir, run.writes);
    assert Within(dir, dir + [readme]);
  }

  /** A backup changes nothing outside the dated folder, and adds nothing
      but entries in it and its ancestors. */
  lemma BackedUpFrame(m: map<Path, Node>, backupDir: Path, today: string, cwd: Path, listing: seq<string>)
    ensures var d := backupDir + [today];
      var r := BackedUp(m, backupDir, today, cwd, listing).1;
      && (forall q :: q in m && !Within(d, q) ==> q in r && r[q] == m[q])
      && (forall q :: q in r && q !in m ==> Within(d, q) || Within(q, d))
  {
    var d := backupDir + [today];
    var made := Recreate(m, d);
    RecreateFrame(m, d);
    forall q | q in made.1 && q !in m ensures Within(q, d) {
      var k :| 0 < k <= |d| && q == d[..k];
    }
    if made.0 && DirIn(made.1, cwd) {
      var sources := Under(cwd, FileNames(made.1, cwd, listing));
      CopiedAllFrame(made.1, sources, d);
      CopiedAllAddsInside(made.1, sources, d);
    }
  }


  // ---------------------------------------------------------------------
  // update

  /** `update()`: the staging folder `dest/temp` recreated, the subsets
      downloaded there, the staged files backed up into `backupDir/today`,
      the regular files of `dest` replaced by the staged ones and the
      staging folder removed.  An `os`/`shutil` call that raises gives
      `Raise`; a failed download or backup gives `False` before the
      destination is touched.  `staging` is the tree after the download,
      `listing` the order in which the backup lists the staged files. */
  method Update(fs: FileSystem, dest: Path, backupDir: Path, today: string, net: Net, entries: seq<string>,
                size: int, cmax: int, dmax: int, readme: string, now: string, elapsed: Elapsed)
    returns (r: Exit, ghost staged: Exit, ghost staging: map<Path, Node>, ghost listing: seq<string>)
    requires WellFormed(fs.nodes)
    modifies fs
    ensures Staged(old(fs.nodes), dest, net, entries, size, cmax, dmax, readme, now, elapsed, staged, staging)
    ensures staged != Return(true) ==> r == staged && fs.nodes == staging
    ensures staged == Return(true) ==> Published(staging, dest, backupDir, today, listing, r, fs.nodes)
    ensures forall q :: q in old(fs.nodes) && !Within(dest, q) && !Within(backupDir + [today], q) ==>
      q in fs.nodes && fs.nodes[q] == old(fs.nodes)[q]
    ensures r == Return(false) ==>
      forall q :: q in old(fs.nodes) && Outside(dest, backupDir, today, q) ==> q in fs.nodes && fs.nodes[q] == old(fs.nodes)[q]
    ensures r == Return(true) ==> dest + ["temp"] !in fs.nodes
    ensures r == Return(true) && Apart(dest, backupDir + [today]) ==>
      var temp := dest + ["temp"];
      && (forall n :: n != "temp" && temp + [n] in staging ==> dest + [n] in fs.nodes && fs.nodes[dest + [n]] == staging[temp + [n]])
      && (forall n :: dest + [n] in fs.nodes && fs.nodes[dest + [n]].File? ==> temp + [n] in staging)
  {
    var temp := dest + ["temp"];
    ghost var m0 := fs.nodes;
    listing := [];
    forall q | q in m0 && !Within(dest, q) ensures !Within(temp, q) {
      if Within(temp, q) {
        assert Within(dest, temp);
        WithinWithin(dest, temp, q);
      }
    }
    r := Stage(fs, dest, net, entries, size, cmax, dmax, readme, now, elapsed);
    staged, staging := r, fs.nodes;
    if r != Return(true) {
      return;
    }
    r, listing := Publish(fs, dest, backupDir, today);
  }

  /** The first half of `update()` from the tree `m`: a failure to
      recreate the staging folder raises with the tree it leaves; otherwise
      the download's answer, with its files and README written into the
      new folder. */
  ghost predicate Staged(m: map<Path, Node>, dest: Path, net: Net, entries: seq<string>, size: int, cmax: int, dmax: int,
                         readme: string, now: string, elapsed: Elapsed, r: Exit, staged: map<Path, Node>) {
    var temp := dest + ["temp"];
    var made := Recreate(m, temp);
    var run := DownloadsFrom(QueryEntry, AttemptsFor(net, size, cmax), entries, dmax, 0, [], []);
    && (!made.0 ==> r == Raise && staged == made.1)
    && (made.0 ==> r == run.exit && staged == DownloadedTree(made.1, temp, run, entries, readme, now, elapsed))
  }

  /** The first half of `update()`: recreating the staging folder and
      downloading into it.  Nothing outside the staging folder changes. */
  method Stage(fs: FileSystem, dest: Path, net: Net, entries: seq<string>,
               size: int, cmax: int, dmax: int, readme: string, now: string, elapsed: Elapsed)
    returns (r: Exit)
    requires WellFormed(fs.nodes)
    modifies fs
    ensures Staged(old(fs.nodes), dest, net, entries, size, cmax, dmax, readme, now, elapsed, r, fs.nodes)
    ensures forall q :: q in old(fs.nodes) && !Within(dest + ["temp"], q) ==> q in fs.nodes && fs.nodes[q] == old(fs.nodes)[q]
  {
    var temp := dest + ["temp"];
    ghost var m0 := old(fs.nodes);
    RecreateFrame(m0, temp);
    var made := MakeStaging(fs, temp);
    if !made {
      return Raise;
    }
    ghost var m1 := fs.nodes;
    ghost var run := DownloadsFrom(QueryEntry, AttemptsFor(net, size, cmax), entries, dmax, 0, [], []);
    var downloaded;
    r, downloaded := Download(fs, temp, net, entries, size, cmax, dmax, readme, now, elapsed);
    DownloadedFrame(m1, temp, run, entries, readme, now, elapsed);
  }

  /** `if os.path.exists(temp): shutil.rmtree(temp)` and `os.makedirs(temp)`;
      in a well-formed tree the new folder is empty. */
  method MakeStaging(fs: FileSystem, temp: Path) returns (ok: bool)
    requires WellFormed(fs.nodes) && temp != []
    modifies fs
    ensures (ok, fs.nodes) == Recreate(old(fs.nodes), temp)
    ensures ok ==> DirIn(fs.nodes, temp) && Flat(fs.nodes, temp)
  {
    ghost var m0 := fs.nodes;
    ok := RecreateDir(fs, temp);
    if ok {
      RecreateGivesEmptyDir(m0, temp);
      forall n | temp + [n] in fs.nodes ensures false {
        assert Within(temp, temp + [n]);
      }
    }
  }

  /** The end of `update()` from the staged tree `m`: the backup lists the
      staged files in the order `listing`; a failed backup answers `False`
      with the tree it leaves; otherwise the promotion's success answers
      `True` and its failure raises, with the tree after it. */
  ghost predicate Published(m: map<Path, Node>, dest: Path, backupDir: Path, today: string, listing: seq<string>,
                            r: Exit, after: map<Path, Node>) {
    var temp := dest + ["temp"];
    var dated := Recreate(m, backupDir + [today]);
    var b := BackedUp(m, backupDir, today, temp, listing);
    var p := Promoted(b.1, dest, temp);
    && (dated.0 && DirIn(dated.1, temp) ==> Listing(dated.1, temp, listing))
    && (!b.0 ==> r == Return(false) && after == b.1)
    && (b.0 ==> r == (if p.0 then Return(true) else Raise) && after == p.1)
  }

  /** The second half of `update()`, with the download staged in
      `dest/temp`: the backup, whose failure answers `False` before the
      destination is touched, then the promotion of the staged files, whose
      failure raises.  `listing` is the order in which the backup lists the
      staged files. */
  method Publish(fs: FileSystem, dest: Path, backupDir: Path, today: string) returns (r: Exit, ghost listing: seq<string>)
    modifies fs
    ensures Published(old(fs.nodes), dest, backupDir, today, listing, r, fs.nodes)
    ensures forall q :: q in old(fs.nodes) && !Within(dest, q) && !Within(backupDir + [today], q) ==>
      q in fs.nodes && fs.nodes[q] == old(fs.nodes)[q]
    ensures r == Return(false) ==>
      forall q :: q in old(fs.nodes) && !Within(backupDir + [today], q) ==> q in fs.nodes && fs.nodes[q] == old(fs.nodes)[q]
    ensures r == Return(true) ==> dest + ["temp"] !in fs.nodes
    ensures r == Return(true) && Apart(dest, backupDir + [today]) ==>
      var temp := dest + ["temp"];
      && (forall n :: n != "temp" && temp + [n] in old(fs.nodes) ==> dest + [n] in fs.nodes && fs.nodes[dest + [n]] == old(fs.nodes)[temp + [n]])
      && (forall n :: dest + [n] in fs.nodes && fs.nodes[dest + [n]].File? ==> temp + [n] in old(fs.nodes))
  {
    var temp := dest + ["temp"];
    ghost var staged := fs.nodes;
    var ok;
    ok, listing := Backup(fs, backupDir, today, temp);
    BackedUpFrame(staged, backupDir, today, temp, listing);
    if !ok {
      return Return(false), listing;
    }
    ghost var backed := fs.nodes;
    PromotedFrame(backed, dest);
    ok := Promote(fs, dest, temp);
    if !ok {
      return Raise, listing;
    }
    PromotedFiles(backed, dest);
    assert Within(temp, temp);
    r := Return(true);
    if Apart(dest, backupDir + [today]) {
      StagedUntouched(staged, backed, dest, backupDir + [today]);
    }
  }

  /** Under a backup folder apart from `dest`, the backup leaves the staged
      entries as they were. */
  lemma StagedUntouched(staging: map<Path, Node>, backed: map<Path, Node>, dest: Path, d: Path)
    requires Apart(dest, d)
    requires forall q :: q in staging && !Within(d, q) ==> q in backed && backed[q] == staging[q]
    requires forall q :: q in backed && q !in staging ==> Within(d, q) || Within(q, d)
    ensures forall n :: dest + ["temp"] + [n] in staging <==> dest + ["temp"] + [n] in backed
    ensures forall n :: dest + ["temp"] + [n] in staging ==> backed[dest + ["temp"] + [n]] == staging[dest + ["temp"] + [n]]
  {
    var temp := dest + ["temp"];
    forall n ensures !Within(d, temp + [n]) && !Within(temp + [n], d) {
      if Within(d, temp + [n]) {
        WithinParent(d, temp, n);
        if Within(d, temp) {
          WithinParent(d, dest, "temp");
        }
      }
    }
  }

}
