/** The FTP flavour of the NCBI BLAST adapter (the top-level
    NcbiBlastData.py): the nr/nt name filter of `download`, the connection
    loop `ftp_connect`, the resumable transfer `download_ftp_file` and the
    result of `download_blast_file`.  The server is an oracle: what each
    try of a connection finds, what each `retrbinary` call delivers and how
    it ends. */
module NcbiBlastFtp {
  import opened Wrappers
  import opened FileSystem
  import NcbiBlastData

  // ---------------------------------------------------------------------
  // download: the nr/nt filter

  /** `[f for f in all_files if nr_nt_re.match(f)]` over the names `nlst`
      returns. */
  function NrNtFiles(names: seq<string>): seq<string>
    decreases |names|
  {
    if names == [] then []
    else (if NcbiBlastData.IsArchiveName(names[0]) then [names[0]] else []) + NrNtFiles(names[1..])
  }

  /** The filter keeps exactly the accepted names. */
  lemma {:induction false} NrNtFilesMembers(names: seq<string>)
    ensures forall x :: x in NrNtFiles(names) <==> x in names && NcbiBlastData.IsArchiveName(x)
    decreases |names|
  {
    if names != [] {
      NrNtFilesMembers(names[1..]);
      assert names == [names[0]] + names[1..];
    }
  }

  /** Filtering a listing is filtering its parts: the kept names keep the
      listing's order. */
  lemma {:induction false} NrNtFilesConcat(a: seq<string>, b: seq<string>)
    ensures NrNtFiles(a + b) == NrNtFiles(a) + NrNtFiles(b)
    decreases |a|
  {
    if a != [] {
      assert (a + b)[1..] == a[1..] + b;
      NrNtFilesConcat(a[1..], b);
    } else {
      assert a + b == b;
    }
  }

  /** Filtering twice keeps what filtering once keeps. */
  lemma {:induction false} NrNtFilesIdempotent(names: seq<string>)
    ensures NrNtFiles(NrNtFiles(names)) == NrNtFiles(names)
    decreases |names|
  {
    if names != [] {
      var head := if NcbiBlastData.IsArchiveName(names[0]) then [names[0]] else [];
      NrNtFilesConcat(head, NrNtFiles(names[1..]));
      NrNtFilesIdempotent(names[1..]);
      if head != [] {
        assert NrNtFiles(head) == head by {
          assert head[1..] == [];
        }
      }
    }
  }

  // ---------------------------------------------------------------------
  // ftp_connect

  /** The server as one `ftp_connect` call finds it, try by try (from 0). */
  datatype Site = Site(
    opens: nat -> bool,           // `ftplib.FTP(host)` returns at try i
    logsIn: nat -> bool,          // `login` and `cwd` then return at try i
    answers: (nat, nat) -> bool)  // the NOOP probe, before try i, of the connection opened at try c
                                  // gets `200 NOOP command successful`

  /** `ftp`: the initial `0`, or the connection object opened at a try. */
  datatype Conn = NoConn | Conn(at: nat)

  /** `test_existing_connection(ftp)` before try `i`; on `0` the probe
      raises and the answer is `False`. */
  predicate Live(site: Site, ftp: Conn, i: nat) {
    ftp.Conn? && site.answers(ftp.at, i)
  }

  /** The loop of `ftp_connect` from try `i` with `retry` tries left: a try
      that raises uses one up; an object `ftplib.FTP` returned is kept even
      when `login` or `cwd` then raises.  A negative `retry` never runs
      out, and a connection that logs in but fails the probe uses none up,
      so `fuel` bounds the tries. */
  function ConnectFrom(site: Site, retry: int, ftp: Conn, i: nat, fuel: nat): (Conn, nat)
    decreases fuel - i
  {
    if Live(site, ftp, i) || retry == 0 || fuel <= i then (ftp, i)
    else if !site.opens(i) then ConnectFrom(site, retry - 1, ftp, i + 1, fuel)
    else if !site.logsIn(i) then ConnectFrom(site, retry - 1, Conn(i), i + 1, fuel)
    else ConnectFrom(site, retry, Conn(i), i + 1, fuel)
  }

  /** How many of the tries `i` up to `n` raise. */
  function Failures(site: Site, i: nat, n: nat): nat
    decreases n - i
  {
    if n <= i then 0
    else (if site.opens(i) && site.logsIn(i) then 0 else 1) + Failures(site, i + 1, n)
  }

  /** `ftp_connect` ends with a live connection, with its tries used up, or
      out of fuel; it returns the connection the last try that got one
      opened, or `0` when none did, and never uses more tries than it
      has. */
  lemma {:induction false} ConnectEnds(site: Site, retry: int, ftp: Conn, i: nat, fuel: nat)
    requires ftp.Conn? ==> ftp.at < i
    ensures var (c, n) := ConnectFrom(site, retry, ftp, i, fuel);
      && i <= n
      && (Live(site, c, n) || fuel <= n || Failures(site, i, n) == retry)
      && (retry >= 0 ==> Failures(site, i, n) <= retry)
      && (c == ftp ==> forall j :: i <= j < n ==> !site.opens(j))
      && (c != ftp ==> c.Conn? && i <= c.at < n && site.opens(c.at) && forall j :: c.at < j < n ==> !site.opens(j))
    decreases fuel - i
  {
    if !(Live(site, ftp, i) || retry == 0 || fuel <= i) {
      var next := if site.opens(i) then Conn(i) else ftp;
      var left := if site.opens(i) && site.logsIn(i) then retry else retry - 1;
      ConnectEnds(site, left, next, i + 1, fuel);
      assert ConnectFrom(site, retry, ftp, i, fuel) == ConnectFrom(site, left, next, i + 1, fuel);
    }
  }

  /** With a server that never accepts, `ftp_connect` gives up after
      exactly `retry` tries and returns `0`. */
  lemma {:induction false} ConnectGivesUp(site: Site, retry: nat, i: nat, fuel: nat)
    requires forall j :: !site.opens(j)
    requires i + retry <= fuel
    ensures ConnectFrom(site, retry, NoConn, i, fuel) == (NoConn, i + retry)
    decreases retry
  {
    if retry > 0 {
      ConnectGivesUp(site, retry - 1, i + 1, fuel);
    }
  }

  method FtpConnect(site: Site, retry: int, fuel: nat) returns (ftp: Conn, tries: nat)
    ensures (ftp, tries) == ConnectFrom(site, retry, NoConn, 0, fuel)
  {
    var retryNum := retry;
    ftp := NoConn;
    tries := 0;
    while !Live(site, ftp, tries) && retryNum != 0 && tries < fuel
      invariant ConnectFrom(site, retry, NoConn, 0, fuel) == ConnectFrom(site, retryNum, ftp, tries, fuel)
      decreases fuel - tries
    {
      if site.opens(tries) {
        ftp := Conn(tries);
        if !site.logsIn(tries) {
          retryNum := retryNum - 1;
        }
      } else {
        retryNum := retryNum - 1;
      }
      tries := tries + 1;
    }
  }

  // ---------------------------------------------------------------------
  // download_ftp_file

  /** How a `retrbinary` call ends: it returns, or raises `error_temp`, an
      `IOError`, `error_perm` or anything else. */
  datatype Ending = Completed | ErrorTemp | IoError | ErrorPerm | OtherError

  /** One `retrbinary` call: how many bytes reach the local file, and how
      the call ends. */
  datatype Transfer = Transfer(got: nat, ending: Ending)

  /** The remote file and the server's behaviour around it. */
  datatype Remote = Remote(
    size: Option<nat>,           // `size(file_name)`; None where it raises
    sizeAgain: bool,             // the second `size` query, made for a print, returns
    content: string,             // the bytes the server sends, from offset 0
    transfers: nat -> Transfer,  // the k-th `retrbinary` call (from 0)
    sites: nat -> Site)          // the server as the j-th reconnection finds it

  /** The bytes a transfer asked to start at `pos` (`rest=pos`, or no
      `rest` at 0) delivers when `got` of them arrive. */
  function Chunk(content: string, pos: nat, got: nat): (c: string)
    ensures pos + |c| <= |content| || c == []
    ensures pos + |c| <= |content| ==> c == content[pos..pos + |c|]
  {
    if |content| <= pos then []
    else if |content| <= pos + got then content[pos..]
    else content[pos..pos + got]
  }

  /** Whether the j-th reconnection `ftp_connect` makes returns a
      connection. */
  predicate Reconnects(remote: Remote, connectRetry: int, connectFuel: nat, j: nat) {
    ConnectFrom(remote.sites(j), connectRetry, NoConn, 0, connectFuel).0.Conn?
  }

  /** How the resume loop stops: the local size reached the remote size,
      a transient error found no retry or no connection left, another
      error struck, or it was still running when the fuel ran out. */
  datatype LoopEnd = Reached | GaveUp | Aborted | Looping

  /** `while ftp_file_size != file_obj.tell()` with the local file holding
      `data`, `left` retries, `k` transfers and `j` reconnections made:
      how the loop stops and what the local file then holds.  A transient
      error with retries left reconnects and uses one up; a negative retry
      count never reaches zero. */
  function ResumeFrom(remote: Remote, size: nat, connectRetry: int, connectFuel: nat,
                      left: int, data: string, k: nat, j: nat, fuel: nat): (LoopEnd, string)
    decreases fuel
  {
    if |data| == size then (Reached, data)
    else if fuel == 0 then (Looping, data)
    else
      var t := remote.transfers(k);
      var more := data + Chunk(remote.content, |data|, t.got);
      match t.ending
      case Completed => ResumeFrom(remote, size, connectRetry, connectFuel, left, more, k + 1, j, fuel - 1)
      case ErrorTemp | IoError =>
        if left == 0 || !Reconnects(remote, connectRetry, connectFuel, j) then (GaveUp, more)
        else ResumeFrom(remote, size, connectRetry, connectFuel, left - 1, more, k + 1, j + 1, fuel - 1)
      case ErrorPerm | OtherError => (Aborted, more)
  }

  /** `download_ftp_file(file_name, ftp_connection)` run in the folder
      `here`: the result (`None` while the loop still runs when the fuel
      is out) and the tree afterwards.  A falsy connection gives `False`,
      since the new one goes to `ftp` and is never read; a failed size
      query gives `False` before the file is opened; `open` and the second
      size query raise outside any `try`; another error deletes the
      local file. */
  function FtpFileRun(m: map<Path, Node>, here: Path, name: string, connected: bool, remote: Remote,
                      downloadRetry: int, connectRetry: int, connectFuel: nat, fuel: nat): (Option<Exit>, map<Path, Node>)
  {
    var p := here + [name];
    if !connected || remote.size.None? then (Some(Return(false)), m)
    else if !remote.sizeAgain then (Some(Raise), m)
    else if !DirIn(m, here) || DirIn(m, p) then (Some(Raise), m)
    else
      var s := ResumeFrom(remote, remote.size.value, connectRetry, connectFuel, downloadRetry, [], 0, 0, fuel);
      match s.0
      case Reached => (Some(Return(true)), m[p := File(s.1)])
      case GaveUp => (Some(Return(false)), m[p := File(s.1)])
      case Aborted => (Some(Return(false)), m - {p})
      case Looping => (None, m[p := File(s.1)])
  }

  method DownloadFtpFile(fs: FileSystem, here: Path, name: string, connected: bool, remote: Remote,
                         downloadRetry: int, connectRetry: int, connectFuel: nat, fuel: nat)
    returns (r: Option<Exit>)
    modifies fs
    ensures (r, fs.nodes) == FtpFileRun(old(fs.nodes), here, name, connected, remote, downloadRetry, connectRetry, connectFuel, fuel)
  {
    var p := here + [name];
    if !connected || remote.size.None? {
      return Some(Return(false));
    }
    var size := remote.size.value;
    if !remote.sizeAgain {
      return Some(Raise);
    }
    assert p[..|p| - 1] == here;
    var created := fs.WriteFile(p, []);
    if !created {
      return Some(Raise);
    }
    ghost var s := ResumeFrom(remote, size, connectRetry, connectFuel, downloadRetry, [], 0, 0, fuel);
    var end := ResumeLoop(fs, p, remote, size, connectRetry, connectFuel, downloadRetry, fuel);
    assert fs.nodes == old(fs.nodes)[p := File(s.1)];
    match end
    case Reached => r := Some(Return(true));
    case GaveUp => r := Some(Return(false));
    case Looping => r := None;
    case Aborted =>
      ghost var m1 := fs.nodes;
      var removed := fs.RemoveFile(p);
      assert fs.nodes == old(fs.nodes) - {p} by {
        assert m1 - {p} == old(fs.nodes) - {p};
      }
      r := Some(Return(false));
  }

  /** `while ftp_file_size != file_obj.tell()` on the freshly opened local
      file `p`: how the loop stops, with each transfer's bytes written to
      `p` as they arrive. */
  method ResumeLoop(fs: FileSystem, p: Path, remote: Remote, size: nat, connectRetry: int, connectFuel: nat,
                    downloadRetry: int, fuel: nat) returns (end: LoopEnd)
    requires p in fs.nodes && fs.nodes[p] == File([])
    modifies fs
    ensures var s := ResumeFrom(remote, size, connectRetry, connectFuel, downloadRetry, [], 0, 0, fuel);
      end == s.0 && fs.nodes == old(fs.nodes)[p := File(s.1)]
  {
    ghost var m0 := fs.nodes;
    var left := downloadRetry;
    var data: string := [];
    var k, j, steps := 0, 0, 0;
    assert fs.nodes == m0[p := File(data)];
    while |data| != size
      invariant steps <= fuel
      invariant fs.nodes == m0[p := File(data)]
      invariant ResumeFrom(remote, size, connectRetry, connectFuel, downloadRetry, [], 0, 0, fuel)
             == ResumeFrom(remote, size, connectRetry, connectFuel, left, data, k, j, fuel - steps)
      decreases fuel - steps
    {
      if steps == fuel {
        return Looping;
      }
      ghost var before := ResumeFrom(remote, size, connectRetry, connectFuel, left, data, k, j, fuel - steps);
      var t := remote.transfers(k);
      data := data + Chunk(remote.content, |data|, t.got);
      fs.nodes := fs.nodes[p := File(data)];
      assert fs.nodes == m0[p := File(data)];
      k, steps := k + 1, steps + 1;
      if t.ending == ErrorTemp || t.ending == IoError {
        if left == 0 {
          assert before == (GaveUp, data);
          return GaveUp;
        }
        var again, tries := FtpConnect(remote.sites(j), connectRetry, connectFuel);
        if again.NoConn? {
          assert before == (GaveUp, data);
          return GaveUp;
        }
        j, left := j + 1, left - 1;
      } else if t.ending != Completed {
        assert before == (Aborted, data);
        return Aborted;
      }
    }
    end := Reached;
  }

  /** Where the resume loop gives up, `download_ftp_file` returns `False`
      and leaves what came in the local file. */
  lemma GaveUpRun(m: map<Path, Node>, here: Path, name: string, connected: bool, remote: Remote,
                  downloadRetry: int, connectRetry: int, connectFuel: nat, fuel: nat, data: string)
    requires connected && remote.size.Some? && remote.sizeAgain
    requires DirIn(m, here) && !DirIn(m, here + [name])
    requires ResumeFrom(remote, remote.size.value, connectRetry, connectFuel, downloadRetry, [], 0, 0, fuel) == (GaveUp, data)
    ensures FtpFileRun(m, here, name, connected, remote, downloadRetry, connectRetry, connectFuel, fuel)
         == (Some(Return(false)), m[here + [name] := File(data)])
  {
  }

  /** The local file only ever holds a prefix of the remote file: each
      transfer resumes at the local position. */
  lemma {:induction false} ResumeKeepsPrefix(remote: Remote, size: nat, connectRetry: int, connectFuel: nat,
                                             left: int, data: string, k: nat, j: nat, fuel: nat)
    requires |data| <= |remote.content| && data == remote.content[..|data|]
    ensures var s := ResumeFrom(remote, size, connectRetry, connectFuel, left, data, k, j, fuel);
      && |data| <= |s.1| <= |remote.content| && s.1 == remote.content[..|s.1|]
      && (s.0 == Reached ==> |s.1| == size)
    decreases fuel
  {
    if |data| != size && fuel != 0 {
      var t := remote.transfers(k);
      var c := Chunk(remote.content, |data|, t.got);
      var more := data + c;
      assert more == remote.content[..|more|];
      if t.ending == Completed {
        ResumeKeepsPrefix(remote, size, connectRetry, connectFuel, left, more, k + 1, j, fuel - 1);
      } else if (t.ending == ErrorTemp || t.ending == IoError) && left != 0 && Reconnects(remote, connectRetry, connectFuel, j) {
        ResumeKeepsPrefix(remote, size, connectRetry, connectFuel, left - 1, more, k + 1, j + 1, fuel - 1);
      }
    }
  }

  /** `download_ftp_file` returns `True` only when the local file is the
      first `size` bytes of the remote file, `size` being what the server
      reported; whatever it returns, it touches no other place than the
      local file, and a `False` leaves the local file missing or holding a
      prefix of the remote one. */
  lemma FtpFileResult(m: map<Path, Node>, here: Path, name: string, connected: bool, remote: Remote,
                      downloadRetry: int, connectRetry: int, connectFuel: nat, fuel: nat)
    ensures var (r, after) := FtpFileRun(m, here, name, connected, remote, downloadRetry, connectRetry, connectFuel, fuel);
      var p := here + [name];
      && (r == Some(Return(true)) ==>
            && remote.size.Some? && remote.size.value <= |remote.content|
            && p in after && after[p] == File(remote.content[..remote.size.value]))
      && (r == Some(Return(false)) && p in after && after != m ==>
            && after[p].File? && |after[p].data| <= |remote.content|
            && after[p].data == remote.content[..|after[p].data|])
      && (forall q :: q != p ==> (q in after <==> q in m) && (q in m ==> after[q] == m[q]))
  {
    var p := here + [name];
    if connected && remote.size.Some? && remote.sizeAgain && DirIn(m, here) && !DirIn(m, p) {
      ResumeKeepsPrefix(remote, remote.size.value, connectRetry, connectFuel, downloadRetry, [], 0, 0, fuel);
    }
  }

  /** A failed size query, or a falsy connection, gives `False` before
      anything is written. */
  lemma FtpFileNoSize(m: map<Path, Node>, here: Path, name: string, connected: bool, remote: Remote,
                      downloadRetry: int, connectRetry: int, connectFuel: nat, fuel: nat)
    requires !connected || remote.size.None?
    ensures FtpFileRun(m, here, name, connected, remote, downloadRetry, connectRetry, connectFuel, fuel) == (Some(Return(false)), m)
  {
  }

  /** Each transient error uses up one retry: when every transfer fails
      that way before a byte arrives and every reconnection works, the loop
      gives up after `left` reconnections, with the local file as it
      was. */
  lemma {:induction false} RetriesRunOut(remote: Remote, size: nat, connectRetry: int, connectFuel: nat,
                                         left: nat, data: string, k: nat, j: nat, fuel: nat)
    requires |data| != size && left < fuel
    requires forall i :: remote.transfers(i) == Transfer(0, ErrorTemp)
    requires forall i :: Reconnects(remote, connectRetry, connectFuel, i)
    ensures ResumeFrom(remote, size, connectRetry, connectFuel, left, data, k, j, fuel) == (GaveUp, data)
    decreases left
  {
    var more := data + Chunk(remote.content, |data|, 0);
    assert more == data;
    if left > 0 {
      RetriesRunOut(remote, size, connectRetry, connectFuel, left - 1, data, k + 1, j + 1, fuel - 1);
    }
  }

  /** When the reported size is the file's and every transfer returns
      after at least one byte, the loop reaches the end with the whole
      file, resuming where the previous transfer stopped. */
  lemma {:induction false} ResumeReaches(remote: Remote, connectRetry: int, connectFuel: nat,
                                         left: int, data: string, k: nat, j: nat, fuel: nat)
    requires |data| <= |remote.content| && data == remote.content[..|data|]
    requires forall i :: remote.transfers(i).ending == Completed && remote.transfers(i).got >= 1
    requires |remote.content| - |data| <= fuel
    ensures ResumeFrom(remote, |remote.content|, connectRetry, connectFuel, left, data, k, j, fuel) == (Reached, remote.content)
    decreases fuel
  {
    var size := |remote.content|;
    if |data| == size {
      assert data == remote.content;
    } else {
      var t := remote.transfers(k);
      var more := data + Chunk(remote.content, |data|, t.got);
      assert more == remote.content[..|more|];
      ResumeReaches(remote, connectRetry, connectFuel, left, more, k + 1, j, fuel - 1);
    }
  }

  // ---------------------------------------------------------------------
  // download_blast_file

  /** What a `retrbinary` call hands its callback, block by block, and how
      it ends. */
  datatype Fetch = Fetch(blocks: seq<string>, ending: Ending)

  function Joined(blocks: seq<string>): string
    decreases |blocks|
  {
    if blocks == [] then [] else blocks[0] + Joined(blocks[1..])
  }

  /** `download_blast_file(short_file_name, ftp)` in the folder `here`:
      the `.md5` sidecar is fetched into a list (an `error_perm` is logged
      and the blocks that came are kept, any other error raises), its
      first block is read (raising when there is none), the archive is
      fetched into the local file (raising when `open` or the transfer
      does), and `check_md5`'s answer is ignored. */
  function BlastFileRun(m: map<Path, Node>, here: Path, name: string, md5: Fetch, archive: Fetch): (Exit, map<Path, Node>) {
    var p := here + [name];
    if md5.ending != Completed && md5.ending != ErrorPerm then (Raise, m)
    else if md5.blocks == [] then (Raise, m)
    else if !DirIn(m, here) || DirIn(m, p) then (Raise, m)
    else
      var after := m[p := File(Joined(archive.blocks))];
      if archive.ending != Completed then (Raise, after) else (Return(true), after)
  }

  method DownloadBlastFile(fs: FileSystem, here: Path, name: string, md5: Fetch, archive: Fetch) returns (r: Exit)
    modifies fs
    ensures (r, fs.nodes) == BlastFileRun(old(fs.nodes), here, name, md5, archive)
  {
    var md5Data: seq<string> := [];
    md5Data := md5Data + md5.blocks;
    if md5.ending != Completed && md5.ending != ErrorPerm {
      return Raise;
    }
    if |md5Data| == 0 {
      return Raise;
    }
    var p := here + [name];
    assert p[..|p| - 1] == here;
    var ok := fs.WriteFile(p, Joined(archive.blocks));
    if !ok {
      return Raise;
    }
    if archive.ending != Completed {
      return Raise;
    }
    r := Return(true);
  }

  /** `download_blast_file` never returns `False`: it returns `True` with
      the archive in the local file, or raises; a missing `.md5` sidecar
      makes it raise before anything is written. */
  lemma BlastFileNeverFalse(m: map<Path, Node>, here: Path, name: string, md5: Fetch, archive: Fetch)
    ensures var (r, after) := BlastFileRun(m, here, name, md5, archive);
      && r != Return(false)
      && (r == Return(true) ==> here + [name] in after && after[here + [name]] == File(Joined(archive.blocks)))
      && (md5.blocks == [] ==> r == Raise && after == m)
  {
  }
}
