# Reference data manager, modelled in Dafny

The reference data manager keeps local copies of public bioinformatics
reference databases: NCBI BLAST nr/nt, NCBI nucleotide subsets fetched
through Entrez queries, the NCBI taxonomy dump, NCBI whole genomes,
GreenGenes and UNITE. Each database has an adapter with `download`,
`backup`, `restore` and `update`. `update` downloads into a staging folder
`temp` inside the destination, backs the release up into a dated folder
under the backup directory, and replaces the destination's files with the
staged ones.

This project models the decision logic of those adapters, and the parts of
the file tree that the adapters touch.

- **The shared base class.** Restore-date resolution (the `a-b-c` format
  check, the approximate day gap and the choice of the closest earlier
  snapshot), the README+ manifest layout, the checksum comparison, archive
  dispatch by suffix, and the staging, backup and cleaning of directories.
- **Per adapter.** The parsers and formatters of its records and checksum
  sidecars, and its bounded retry and completion loops, run against given
  sequences of attempt outcomes. Also the guards of its `update`.
- **The standalone FTP adapter for BLAST.** The nr/nt filter, the
  `ftp_connect` retry loop, the resume loop of `download_ftp_file` and the
  result of `download_blast_file`.

## How it is modelled

- **The file tree.** The tree is a map from absolute paths (lists of
  components) to `File(data)` or `Dir`. It is held by the class
  `FileSystem.FileSystem`, whose methods mirror the `os`/`shutil` calls the
  adapters make, including the cases where those calls raise. Each adapter
  step is a method on that object, proved equal to a function of the old
  tree. The lemmas about those functions state what the source promises:
  - what is removed, copied or moved;
  - what stays unchanged outside the folders involved;
  - the answer the call returns.
- **The outside world.** Network transfers, the MD5 digest (RFC 1321) and
  the contents of archives are parameters of each operation, as functions
  from the attempt number to the outcome. The date, the clock reading and
  the elapsed time are parameters too.
- **Outcomes.** A method either returns `True` or `False`, or raises an
  exception. The model represents this as `Exit = Return(bool) | Raise`.
  `Raise` covers exceptions that the source does not catch, such as
  `IndexError`, `NameError` or `TypeError`.
- **Loops.** Every loop of the source is a `while` loop in a method. Its
  invariant ties it to a recursive specification function, and lemmas by
  induction on that function state the loop's outcome.

## Model

In the table, a "bar" is the `|` character that separates the fields of a configuration entry.

| member | source | states |
|---|---|---|
| FileSystem.RemovedTree | brdm/BaseRefData.py:174-175 | after `shutil.rmtree(p)` exactly the entries at or below `p` are gone and the rest keep their content |
| FileSystem.WithDirs | brdm/BaseRefData.py:176 | after `os.makedirs(p)` every prefix of `p` exists, old entries are unchanged and the only new entries are directories on the way to `p` |
| FileSystem.AncestorIsDir | brdm/BaseRefData.py:176 | in a tree built by these calls every proper prefix of an entry is a directory |
| FileSystem.NothingBelowMissing | brdm/BaseRefData.py:174-176 | nothing lies below a path that does not exist |
| FileSystem.Relocated | brdm/UniteData.py:162 | the places a move gives the entries at or below the source are exactly the target-relative places of existing entries |
| FileSystem.MovedFrame | brdm/UniteData.py:162 | `shutil.move` changes nothing outside its source and target |
| FileSystem.WithinWithin | brdm/UniteData.py:162 | lying below is transitive |
| FileSystem.FileSystem.constructor | brdm/BaseRefData.py:17 | the tree the adapter starts from is the one given |
| FileSystem.FileSystem.Children | brdm/BaseRefData.py:205 | the names of a folder are exactly the entries directly below it |
| FileSystem.FileSystem.ListDir | brdm/BaseRefData.py:205 | `os.listdir` names every entry directly in the folder once |
| FileSystem.FileSystem.RemoveTree | brdm/BaseRefData.py:175 | `shutil.rmtree` succeeds exactly on a directory and then leaves `RemovedTree` |
| FileSystem.FileSystem.MakeDirs | brdm/BaseRefData.py:176 | `os.makedirs` succeeds exactly when the folder is missing and no prefix is a regular file, and then leaves `WithDirs` |
| FileSystem.FileSystem.RemoveFile | brdm/BaseRefData.py:113 | `os.remove` succeeds exactly on a regular file and removes only it |
| FileSystem.FileSystem.ReadFile | brdm/BaseRefData.py:159-160 | reading succeeds exactly on a regular file |
| FileSystem.FileSystem.WriteFile | brdm/BaseRefData.py:124 | opening for writing succeeds exactly when the parent is a directory and the path is no directory; the file then holds the data and nothing else changes |
| FileSystem.FileSystem.CopyFileInto | brdm/NcbiWholeGenome.py:245 | `shutil.copy2(f, dir)` succeeds exactly when `f` is a file, `dir` a directory and `dir/name` no directory, and then `dir/name` holds `f`'s content |
| FileSystem.FileSystem.Move | brdm/UniteData.py:162 | `shutil.move` succeeds and leaves the tree exactly as `Moved` specifies |
| Strings.Split | brdm/UniteData.py:79-80 | `s.split(sep)` yields at least one piece, and no piece holds the separator |
| Strings.JoinSplit | brdm/UniteData.py:79-80 | joining the pieces of a split with the separator gives back the original text |
| Strings.SplitJoin | brdm/GreenGeneData.py:192-194 | splitting a join gives back the pieces when none holds the separator's first character |
| Strings.SplitThree | brdm/GreenGeneData.py:192-194 | an entry of three fields separated by bars splits back into those three fields |
| Strings.ReplaceIsJoinOfSplit | brdm/NcbiWholeGenome.py:147 | `s.replace(a, b)` is `b.join(s.split(a))` |
| Strings.ReplaceCharByNothing | brdm/GreenGeneData.py:356 | deleting every occurrence of one character keeps the other characters in order |
| Strings.ReadLinesRoundTrip | brdm/NcbiTaxonomyData.py:227 | the lines `readlines` yields, laid end to end, are the file's text |
| Strings.ReadLinesShape | brdm/NcbiWholeGenome.py:195 | only the last character of a line can be a newline, and every line but the last ends with one |
| Strings.ReadLinesConcat | brdm/NcbiTaxonomyData.py:227-232 | lines written one after another are read back one by one |
| Strings.FirstTokenIff | brdm/NcbiTaxonomyData.py:188 | `s.split(c)[0]` is `t` exactly when `t` holds no `c` and is followed by one, or is the whole text |
| Strings.Strip | brdm/UniteData.py:79-80 | `strip()` leaves a slice that neither starts nor ends with whitespace |
| Strings.StripPadded | brdm/UniteData.py:79-80 | a word padded by one space on either side strips back to itself |
| Strings.ParseInt | brdm/NcbiSubsetData.py:164 | `int(s)` of a plain digit string is its decimal value |
| Strings.DecimalRoundTrip | brdm/BaseRefData.py:231-233 | `int(str(n)) == n` for every non-negative `n` |
| BaseRefData.SplitTriple | brdm/BaseRefData.py:256-264 | splitting `a-b-c` of digit strings on `-` gives exactly `[a, b, c]` |
| BaseRefData.FormatAcceptsTriple | brdm/BaseRefData.py:256-264 | any three digit strings joined by `-` pass the restore-date format check |
| BaseRefData.FormatGivesTriple | brdm/BaseRefData.py:256-264 | a string that passes the format check is its three `-`-separated fields joined back |
| BaseRefData.DayGapOfFields | brdm/BaseRefData.py:218-238 | with three digit fields on both sides the gap is Δyear·365 + Δmonth·30 + Δday |
| BaseRefData.DayGapSelf | brdm/BaseRefData.py:218-238 | a well-formed date is at gap 0 from itself |
| BaseRefData.DayGapMissingField | brdm/BaseRefData.py:228-237 | a date without a `-` makes the field access raise, and the gap is -1 |
| BaseRefData.DayGapLaterDateIsZero | brdm/BaseRefData.py:231-238 | the approximation is not calendar order: 31 January to 1 February is a gap of 0 in any year |
| BaseRefData.Gaps | brdm/BaseRefData.py:293-296 | one gap per listed entry, each the gap of that entry (or -1 when it is no dated folder) |
| BaseRefData.Chosen | brdm/BaseRefData.py:292-302 | the chosen index, when there is one, is in range and has a non-negative gap |
| BaseRefData.ChosenIsFirstMinimum | brdm/BaseRefData.py:292-302 | the selection loop finds nothing exactly when every gap is negative, and otherwise the first entry of minimal non-negative gap |
| BaseRefData.ChosenIsClosest | brdm/BaseRefData.py:292-302 | no candidate has a smaller non-negative gap than the chosen one, and no earlier one an equal gap |
| BaseRefData.CheckRestoreDate | brdm/BaseRefData.py:270-320 | the restore folder the method returns is the one `RestoreTarget` specifies, `None` standing for `False` |
| BaseRefData.RestoreTargetIsDated | brdm/BaseRefData.py:293-312 | a returned snapshot is a listed directory with a well-formed name, a non-negative gap, and not empty |
| BaseRefData.RestoreTargetIsClosest | brdm/BaseRefData.py:293-302 | no listed entry is a closer snapshot than the returned one |
| BaseRefData.ChosenEntry | brdm/BaseRefData.py:303-312 | a returned folder is the chosen entry of the listing and holds something |
| BaseRefData.RestoreDestination | brdm/BaseRefData.py:242-253 | an accepted destination is no existing directory; an absolute one is kept as given, a relative one is placed under the working directory |
| BaseRefData.RestoreDestinationRefusesExisting | brdm/BaseRefData.py:248-252 | the destination is refused exactly when it is an existing directory |
| BaseRefData.CheckMd5 | brdm/BaseRefData.py:153-165 | true exactly when the expected digest is non-empty, the file is readable and its digest equals the expected one |
| BaseRefData.CheckMd5RejectsEmpty | brdm/BaseRefData.py:155-157 | an empty expected digest is refused, whatever the file holds |
| BaseRefData.ArchiveKindOf | brdm/BaseRefData.py:77-99 | the branch taken: gzip for `.gz` but not `tar.gz`, tar for `tar.gz`, zip for `.zip`, none otherwise |
| BaseRefData.ArchiveSuffixes | brdm/BaseRefData.py:77-99 | the three suffix tests are exclusive: the `.zip` branch never runs after a gzip branch |
| BaseRefData.GunzipTarget | brdm/BaseRefData.py:79 | the gzip output name is the input without its `.gz` |
| BaseRefData.UnzipFile | brdm/BaseRefData.py:75-108 | true exactly when the name is no archive or its decompression succeeds |
| BaseRefData.TwoDigits | brdm/BaseRefData.py:133 | the minutes and seconds of a time delta are two digits reading back as the number |
| BaseRefData.TimeDeltaUnderADay | brdm/BaseRefData.py:132-133 | under a day the rendered download time splits on `:` into hours, two-digit minutes and two-digit seconds |
| BaseRefData.LinesIsJoin | brdm/BaseRefData.py:136-142 | newline-terminated lines are the lines joined by newlines plus a final empty line |
| BaseRefData.ReadmeReadsBack | brdm/BaseRefData.py:119-151 | splitting the README+ text on newlines gives back the lines written, provided no value holds a newline |
| BaseRefData.ReadmeSections | brdm/BaseRefData.py:135-142 | the downloaded names follow the fixed lines in order; the failed section is present exactly when some file failed |
| BaseRefData.ReadmeHeadShape | brdm/BaseRefData.py:125-135 | the fixed lines: the title, the comment iff non-empty, the date, the address, the download time iff the elapsed time (a ratio, not only whole seconds) is non-zero, showing it rounded to the nearest second with ties to even, the downloaded header |
| BaseRefData.RoundedNearest | brdm/BaseRefData.py:133 | `round` of the elapsed time is a nearest whole number of seconds, an even one on a tie |
| BaseRefData.ShortDownloadShowsZero | brdm/BaseRefData.py:131-133 | a non-zero elapsed time of at most half a second still gets a download-time line, which shows `0:00:00` |
| BaseRefData.RenderReadme | brdm/BaseRefData.py:124-142 | the text the writing loop produces is the README+ text |
| BaseRefData.AppendLines | brdm/BaseRefData.py:136-137 | the loop appends each name followed by a newline |
| BaseRefData.WriteReadme | brdm/BaseRefData.py:119-151 | the README+ file holds that text, its time line written from the elapsed time as given, after a successful write; it fails exactly when the file cannot be opened, and then nothing changes |
| BaseRefData.RecreateGivesEmptyDir | brdm/BaseRefData.py:174-176 | after a successful recreation the folder is an empty directory and only its new ancestors were added |
| BaseRefData.RecreateFrame | brdm/BaseRefData.py:174-176 | recreating a folder changes nothing outside it |
| BaseRefData.RecreateIdempotent | brdm/BaseRefData.py:169-181 | recreating twice is recreating once: a second backup on the same day gives the same tree |
| BaseRefData.CreateBackupDir | brdm/BaseRefData.py:169-181 | returns the dated folder under the backup directory exactly when recreating it succeeds |
| BaseRefData.CreateTmpDir | brdm/BaseRefData.py:185-198 | returns `destination/temp` exactly when recreating it succeeds |
| BaseRefData.RecreateDir | brdm/BaseRefData.py:174-176 | the remove-then-make step, with its success and new tree as `Recreate` specifies |
| BaseRefData.CleanedSparesOnlyTemp | brdm/BaseRefData.py:201-214 | after cleaning, only the `temp` directory is left directly in the destination; entries outside it and inside `temp` are untouched |
| BaseRefData.CleanedIdempotent | brdm/BaseRefData.py:201-214 | cleaning twice is cleaning once |
| BaseRefData.CleanDestinationDir | brdm/BaseRefData.py:201-214 | fails exactly when the destination is not a directory; otherwise the tree is the cleaned tree |
| AdapterCommon.ReadmeAndBackup | brdm/GreenGeneData.py:41-49 | writing the README+ manifest into the staging folder and backing up the two readmes ends with the answer and the tree `ReadmeBackedUp` gives, and changes nothing outside the staging and dated backup folders |
| AdapterCommon.ReadmeBackedUpKeeps | brdm/NcbiBlastData.py:76-91 | the readme backup changes nothing outside the dated folder but the README+, and every regular file it leaves outside the dated folder was there or is the README+ |
| AdapterCommon.RetryUntil | brdm/NcbiTaxonomyData.py:135-138 | the attempt loop succeeds exactly when some attempt within `max` works; it stops at the first one that does, and otherwise uses up all `max` attempts |
| AdapterCommon.CopyFilesInto | brdm/NcbiSubsetData.py:97-100 | the copy loop's success and new tree are those of `CopiedAll`: copies in order, stopping at the first that raises |
| AdapterCommon.CopiedAllPlacesCopies | brdm/NcbiSubsetData.py:99-100 | after a successful loop every source has a regular-file copy in the folder, and no other place changed |
| AdapterCommon.Under | brdm/NcbiSubsetData.py:97 | the listed names as paths in the folder, one per name, in order |
| AdapterCommon.CopiedNames | brdm/NcbiSubsetData.py:97-100 | copying the listed files of a folder: each copy holds what its source held, other entries of the target are as before, nothing outside the target changes |
| AdapterCommon.CopiedAllUntargeted | brdm/NcbiSubsetData.py:99-100 | a place no copy goes to is unchanged by the loop |
| AdapterCommon.CopiedAllAddsInside | brdm/NcbiSubsetData.py:99-100 | every place the copies add lies in the target folder |
| AdapterCommon.CopiedAllKeepsFiles | brdm/NcbiSubsetData.py:99-100 | copying never removes a regular file |
| AdapterCommon.CopiedAllSucceeds | brdm/NcbiSubsetData.py:99-100 | every copy succeeds when each source is a regular file outside an existing target folder and no copy would land on a directory |
| AdapterCommon.CopiedAllCarries | brdm/NcbiSubsetData.py:99-100 | with distinct targets outside the sources, each copy holds what its source held |
| AdapterCommon.WithoutFilesRemovesExactly | brdm/NcbiSubsetData.py:75-77 | exactly the regular files directly in the folder (and not kept) are deleted; subfolders and everything elsewhere survive unchanged |
| AdapterCommon.RemoveRegularFiles | brdm/NcbiTaxonomyData.py:94-97 | the deletion loop fails exactly when the folder is missing; otherwise it leaves the tree `WithoutFiles` specifies |
| AdapterCommon.CopiedTreeMirrors | brdm/NcbiSubsetData.py:80 | the modelled `copy_tree` puts every entry below the source at the same relative place below the target, changes nothing outside the target and adds only mirrors (the clashes and `.nfs` names where distutils differs are under Left out) |
| AdapterCommon.CopyTree | brdm/NcbiSubsetData.py:80 | the modelled `copy_tree` fails exactly when the source is not a directory, and otherwise leaves the mirrored tree; the other ways distutils' `copy_tree` fails or places a file are under Left out |
| AdapterCommon.FirstTokenChecksum | brdm/NcbiTaxonomyData.py:184-198 | the check passes exactly when the sidecar and the data are readable and the sidecar starts with the data's digest as its first space-separated token |
| AdapterCommon.FirstTokenChecksumFile | brdm/NcbiTaxonomyData.py:184-198 | the result is `FirstTokenChecksum` of the files as they were, and the sidecar, when it existed, is deleted |
| AdapterCommon.BackupFiles | brdm/NcbiWholeGenome.py:233-251 | the backup succeeds exactly when the dated folder is recreated and every copy into it succeeds; the tree is the copies into the fresh folder |
| AdapterCommon.BackupFilesFrame | brdm/NcbiWholeGenome.py:233-251 | a backup changes nothing outside the dated folder |
| AdapterCommon.CopiedAllFrame | brdm/NcbiWholeGenome.py:245-246 | `copy2` into a folder only writes directly inside that folder |
| AdapterCommon.FormatFromShape | brdm/NcbiTaxonomyData.py:226-233 | output line k is input line k converted; conversion succeeds exactly when every line converts and otherwise stops at the first that does not |
| AdapterCommon.FormatLines | brdm/NcbiTaxonomyData.py:228-232 | the writing loop's text is the converted lines in order, and it fails exactly where the conversion does |
| AdapterCommon.ConvertedReadBack | brdm/NcbiTaxonomyData.py:224-233 | a header line followed by the converted lines reads back, line by line, as the header and those lines |
| AdapterCommon.BackupReadmes | brdm/NcbiWholeGenome.py:233-251 | the dated folder gets copies of the README+ and the provider readme from the staging folder; success exactly when both copies do |
| AdapterCommon.Promote | brdm/NcbiSubsetData.py:74-82 | deleting the destination's regular files, `copy_tree` from the staging folder and removing it give the tree `Promoted` specifies |
| AdapterCommon.PromotedFiles | brdm/NcbiSubsetData.py:74-82 | after a promotion the staging folder is gone, every staged entry sits in the destination, every regular file there was staged, and nothing outside changed |
| AdapterCommon.PromotedStaged | brdm/NcbiSubsetData.py:80 | every staged entry appears directly in the destination with its staged content |
| AdapterCommon.PromotedOnlyStaged | brdm/NcbiSubsetData.py:75-80 | every regular file directly in the destination after the copy was staged |
| AdapterCommon.PromotedFrame | brdm/NcbiSubsetData.py:74-82 | promoting changes nothing outside the destination, whether or not it succeeds |
| AdapterCommon.PromotedKeepsFolders | brdm/NcbiSubsetData.py:75-80 | old subfolders of the destination with no staged counterpart survive as folders |
| GreenGeneData.DigestIsToken | brdm/GreenGeneData.py:125-133 | the digest taken from a sidecar never holds a space, and for `gg_13_5.fasta.gz` one is always taken |
| GreenGeneData.FirstTokenSidecar | brdm/GreenGeneData.py:125-128 | a GNU `md5sum` line `<digest>  <name>` gives its digest for the file read by its first token |
| GreenGeneData.BsdSidecar | brdm/GreenGeneData.py:129-133 | a BSD `md5` line `MD5 (<name>) = <digest>` gives its digest (the fourth space-separated field) for every other file |
| GreenGeneData.ChecksumOf | brdm/GreenGeneData.py:123-144 | the check passes exactly when the sidecar and the data are readable, a digest can be taken, and it equals the data's digest |
| GreenGeneData.Checksum | brdm/GreenGeneData.py:123-144 | the result is `ChecksumOf` the files as they were; the sidecar `<file>.md5` is removed when it was read |
| GreenGeneData.FormatEntryReadsBack | brdm/GreenGeneData.py:191-198 | an entry of three names, each bar between them padded by one space, gives back its three names |
| GreenGeneData.FormatEntryOfFields | brdm/GreenGeneData.py:191-198 | an entry of three non-blank fields separated by bars gives the three fields stripped |
| GreenGeneData.GetFormatFileList | brdm/GreenGeneData.py:186-206 | succeeds exactly when every entry has three non-blank fields; then one sequence file, taxonomy file and output name per entry, the first two joined to the destination |
| GreenGeneData.SplitEntries | brdm/GreenGeneData.py:191-201 | the entry loop for any entry reader: success exactly when every entry parses, one triple per entry, in order |
| GreenGeneData.KeptRanks | brdm/GreenGeneData.py:350-354 | the mothur line keeps at most one name per level, and never an empty one |
| GreenGeneData.KeptRanksStep | brdm/GreenGeneData.py:350-354 | one more level adds its name without the three-letter prefix exactly when that is non-empty |
| GreenGeneData.MothurRanks | brdm/GreenGeneData.py:349-354 | the loop builds the kept names joined by `;` |
| GreenGeneData.MothurLineOfTaxonomy | brdm/GreenGeneData.py:344-356 | a taxonomy line `<id>\t<level>; <level>; …` becomes `<id>\t<names>;` with the prefixes dropped and empty levels skipped |
| GreenGeneData.MothurLineOf | brdm/GreenGeneData.py:345-356 | the converted line once the input splits into an id and its ranks |
| GreenGeneData.SplitTabbed | brdm/GreenGeneData.py:345-347 | `line[:-1].split("\t")` of `<id>\t<ranks>\n` is exactly the id and the ranks |
| GreenGeneData.ClosedWithoutSpaces | brdm/GreenGeneData.py:355-356 | removing spaces changes nothing in names without spaces |
| GreenGeneData.KeptRanksWithout | brdm/GreenGeneData.py:350-354 | a kept name holds no character that no level holds |
| GreenGeneData.MothurRanksReadBack | brdm/GreenGeneData.py:349-356 | the ranks of a mothur line split on `;` give back the kept names and a final empty field |
| GreenGeneData.RdpJoinsTight | brdm/GreenGeneData.py:316-317 | ranks joined by `; ` come out joined by `;` |
| GreenGeneData.RdpKeepsLines | brdm/GreenGeneData.py:315-317 | the rdp file has exactly one output line per input line, in input order |
| GreenGeneData.Attempt | brdm/GreenGeneData.py:91-103 | one attempt passes exactly when both downloads, this attempt's own checksum and the unzip succeed |
| GreenGeneData.FileLoop | brdm/GreenGeneData.py:90-103 | with the checksum taken per attempt (the corrected loop of the Findings), the attempt loop for one file completes exactly when some attempt within the bound passes both downloads, its own checksum and the unzip |
| GreenGeneData.Download | brdm/GreenGeneData.py:64-120 | succeeds exactly when the readme loop succeeds and every data file has a passing attempt; then every listed file is recorded as downloaded, in order |
| GreenGeneData.CheckedFilesPassed | brdm/GreenGeneData.py:86-113 | a recorded file had an attempt that passed the whole check, and the readme was fetched |
| GreenGeneData.StaleChecksumPassesFile | brdm/GreenGeneData.py:90-103 | as written, a second file whose downloads fail still counts after a first file passed, while the checked loop refuses it |
| GreenGeneData.FileAttemptsOutcome | brdm/GreenGeneData.py:90-103 | as written, a file completes exactly when some attempt within the bound finds `checksum_success` true, from its own checksum or a stale one carried over, and unpacks the file |
| GreenGeneData.PassingAttemptCompletes | brdm/GreenGeneData.py:90-103 | as written, an attempt that passes both downloads, its own checksum and the unzip completes the file, whatever `checksum_success` held before |
| GreenGeneData.CheckedFilesAsWritten | brdm/GreenGeneData.py:86-113 | the data-file loop as written completes every file list the per-attempt check completes, from any carried-in `checksum_success` |
| GreenGeneData.CheckedImpliesAsWritten | brdm/GreenGeneData.py:64-120 | `download()` as written returns `True` whenever the download with the per-attempt checksum does |
| GreenGeneData.Update | brdm/GreenGeneData.py:34-61 | never returns `True`: a failed staging folder raises and leaves the tree `Recreate` gives; a failed download gives `False` with the staged tree; otherwise a failed README+ or readme backup gives `False` and a successful one reaches the cleaning call with two arguments, which raises, the tree in both cases being `ReadmeBackedUp`'s; nothing outside the staging and backup folders changes |
| NcbiBlastData.GetAllFile | brdm/NcbiBlastData.py:119-134 | the names the loop collects are `ArchiveNames` of the page's links: the matching ones, up to the first link without text |
| NcbiBlastData.WithText | brdm/NcbiBlastData.py:127-129 | the links before the first one without text all have text, and the link at that position has none |
| NcbiBlastData.ArchiveNamesExact | brdm/NcbiBlastData.py:125-130 | a name is returned exactly when it is `nr` or `nt`, a dot, two digits and `.tar.gz` (the pattern anchored at its start, `$` allowing one final newline) and is the text of a link before the first link without text |
| NcbiBlastData.ArchiveNamesOrdered | brdm/NcbiBlastData.py:127-130 | the returned names keep the page's order: they come from increasing link positions |
| NcbiBlastData.PassLoop | brdm/NcbiBlastData.py:176-192 | one round over the listed files adds, in order, each file not yet downloaded whose checksum passes, stopping at the target |
| NcbiBlastData.RoundsLoop | brdm/NcbiBlastData.py:171-192 | the download rounds `1..max`, each a pass over the files, stop as soon as the target count is reached, and the list they leave is the one `Rounds` specifies (whose soundness and bound are proved by `RoundsSound` and `PassBounded`) |
| NcbiBlastData.Download | brdm/NcbiBlastData.py:138-210 | the result and the downloaded list are those `DownloadResult` specifies |
| NcbiBlastData.PassSound | brdm/NcbiBlastData.py:176-189 | a round keeps the list free of repeats, of unlisted names and of files whose checksum never passed |
| NcbiBlastData.RoundsSound | brdm/NcbiBlastData.py:171-197 | every round keeps the list sound |
| NcbiBlastData.PassBounded | brdm/NcbiBlastData.py:191-192 | a round started below the target never overshoots it |
| NcbiBlastData.RoundsBounded | brdm/NcbiBlastData.py:172 | the rounds never collect more than the target |
| NcbiBlastData.DownloadOutcome | brdm/NcbiBlastData.py:138-210 | `True` only with the readme, a non-empty list and exactly the target number of distinct checked files (all of them for 0); `False` without the readme or with an empty list |
| NcbiBlastData.Unzip | brdm/NcbiBlastData.py:100-116 | succeeds exactly when every file unpacks; otherwise it stops at the first that does not |
| NcbiBlastData.Install | brdm/NcbiBlastData.py:60-71 | cleaning the destination, `copy_tree` and removing the staging folder leave the tree `InstallResult` specifies |
| NcbiBlastData.InstalledTop | brdm/NcbiBlastData.py:60-71 | after a successful install the destination's top level is the staging folder's, the staging folder is gone, and nothing outside the destination changed |
| NcbiBlastData.Publish | brdm/NcbiBlastData.py:54-73 | writing the README+, backing up the two readmes and installing the staging folder end with the answer and the tree `PublishResult` gives; nothing here raises |
| NcbiBlastData.PublishFailFrame | brdm/NcbiBlastData.py:54-58 | a failed backup of the readmes is `False` and changes nothing outside the staging and dated backup folders |
| NcbiBlastData.PublishedTop | brdm/NcbiBlastData.py:59-73 | after a successful install the staging folder is gone, each entry staged directly in it is now directly in the destination, every regular file there was staged or is the README+, and nothing outside the destination and the backup folder changed |
| NcbiBlastData.PublishedManifest | brdm/NcbiBlastData.py:206-209 | after a successful install the destination holds the README+ written at the end of `download` |
| NcbiBlastData.Update | brdm/NcbiBlastData.py:34-73 | a failed staging folder raises and a failed download gives `False`, each with its tree; after a good download the answer and tree are `PublishResult`'s; every failure before the destination is cleaned changes nothing outside the staging and backup folders; `True` keeps the promise `InstalledFrom` states |
| NcbiBlastData.FailedBeforeInstall | brdm/NcbiBlastData.py:37-58 | when the readme backup fails after the staging folder was recreated and the download landed, nothing outside the staging and backup folders has changed since `update` began |
| NcbiBlastData.InstalledAfterUpdate | brdm/NcbiBlastData.py:37-73 | when `update` answers `True`, the downloaded archives sit directly in the destination, in a well-formed tree nothing else but the README+ is a regular file there, the README+ is the one written, the staging folder is gone, and nothing outside the destination and the backup folder changed |
| NcbiBlastFtp.NrNtFilesMembers | NcbiBlastData.py:122-126 | a listed name is kept exactly when it is `nr` or `nt`, a dot, two digits and `.tar.gz`, anchored at its start, `$` allowing one final newline |
| NcbiBlastFtp.NrNtFilesConcat | NcbiBlastData.py:126 | filtering a listing is filtering its parts in turn: the kept names keep the listing's order |
| NcbiBlastFtp.NrNtFilesIdempotent | NcbiBlastData.py:126 | filtering the kept names again keeps them all |
| NcbiBlastFtp.ConnectEnds | NcbiBlastData.py:37-51 | `ftp_connect` stops with a live connection, with its tries used up, or out of fuel; it returns the object the last opening try produced, or `0` when none did, and never fails more often than it may retry |
| NcbiBlastFtp.ConnectGivesUp | NcbiBlastData.py:39-51 | against a server that never accepts, `ftp_connect` gives up after exactly `connection_retry_num` tries and returns `0` |
| NcbiBlastFtp.FtpConnect | NcbiBlastData.py:37-51 | the connection loop returns the connection and the number of tries `ConnectFrom` gives |
| NcbiBlastFtp.Chunk | NcbiBlastData.py:192-196 | a transfer started at `pos` delivers the remote file's bytes from `pos` on, or nothing past the end |
| NcbiBlastFtp.DownloadFtpFile | NcbiBlastData.py:170-228 | the size queries, the resume loop and its error handling end as `FtpFileRun` says, in answer and tree |
| NcbiBlastFtp.ResumeLoop | NcbiBlastData.py:189-219 | the resume loop stops as `ResumeFrom` says, and the local file then holds exactly the bytes that arrived, nothing else changing |
| NcbiBlastFtp.GaveUpRun | NcbiBlastData.py:210-213 | where the resume loop gives up, the call returns `False` and leaves what came in the local file |
| NcbiBlastFtp.ResumeKeepsPrefix | NcbiBlastData.py:190-197 | the local file only ever holds a growing prefix of the remote file, and holds `size` bytes when the loop reaches its end |
| NcbiBlastFtp.FtpFileResult | NcbiBlastData.py:170-228 | `True` only when the local file is the first `size` bytes of the remote file, `size` being what the server reported; a `False` leaves the local file missing or holding a prefix; no other place changes |
| NcbiBlastFtp.FtpFileNoSize | NcbiBlastData.py:174-185 | a falsy connection or a failed size query gives `False` before anything is written |
| NcbiBlastFtp.RetriesRunOut | NcbiBlastData.py:198-213 | each transient error uses up one retry: when every transfer fails that way and every reconnection works, the loop gives up with the local file as it was |
| NcbiBlastFtp.ResumeReaches | NcbiBlastData.py:190-197 | when every transfer brings at least one byte, the loop reaches the end with the whole remote file |
| NcbiBlastFtp.DownloadBlastFile | NcbiBlastData.py:146-166 | the sidecar fetch, the first-block read and the archive transfer end as `BlastFileRun` says |
| NcbiBlastFtp.BlastFileNeverFalse | NcbiBlastData.py:146-166 | `download_blast_file` never returns `False`: it returns `True` with the archive in the local file or raises, and a missing `.md5` sidecar makes it raise before anything is written |
| NcbiSubsetData.QueryEntry | brdm/NcbiSubsetData.py:122-123 | an entry yields a file name and a query exactly when it holds a bar; otherwise the indexing fails |
| NcbiSubsetData.QueryEntryReadsBack | brdm/NcbiSubsetData.py:122-123 | an entry written as a name, a bar and a query, with the halves free of bars and of surrounding blanks, reads back as those two halves |
| NcbiSubsetData.WindowsPartition | brdm/NcbiSubsetData.py:168-169 | the `range(0, count, batch_size)` windows are non-empty, at most a batch long, contiguous, and run from the start to `count` |
| NcbiSubsetData.BatchFetchIsLastHandle | brdm/NcbiSubsetData.py:172-189 | a batch is read exactly when no attempt meets a non-5xx HTTP error and some attempt obtains a handle; the text read is that of the last handle obtained |
| NcbiSubsetData.FetchBatch | brdm/NcbiSubsetData.py:172-189 | the retry loop of one batch returns what the batch specification `BatchFetch` gives |
| NcbiSubsetData.FetchAllSome | brdm/NcbiSubsetData.py:168-191 | all batches are read exactly when each batch is |
| NcbiSubsetData.FetchAllAppend | brdm/NcbiSubsetData.py:168-191 | the FASTA text is the batch texts in window order; once a batch raises, no later batch is fetched or written and the text stays what the earlier batches wrote |
| NcbiSubsetData.FetchBatches | brdm/NcbiSubsetData.py:168-191 | the loop over the windows reports whether every batch was read and returns the text written, as `FetchAll` on the windows |
| NcbiSubsetData.CountHeaders | brdm/NcbiSubsetData.py:194-199 | the loop over the lines counts those holding `>` and writes the text before the first space of each, one per line |
| NcbiSubsetData.HeaderLineShape | brdm/NcbiSubsetData.py:196-198 | a record's header line holds `>` and its text up to the first space is `>` followed by the accession id |
| NcbiSubsetData.FastaAccessions | brdm/NcbiSubsetData.py:194-199 | for a FASTA text of well-formed records the count is the number of records and the accession file lists their ids in order |
| NcbiSubsetData.FastaHeaders | brdm/NcbiSubsetData.py:194-199 | over the lines of well-formed records, one header is counted per record and the ids are written in record order |
| NcbiSubsetData.SubsetAttemptSucceeds | brdm/NcbiSubsetData.py:147-205 | an attempt returns `True` exactly when the search answers, the batch size is not zero, every batch is read and the header count equals the search count |
| NcbiSubsetData.SubsetAttemptKeepsEarlierBatches | brdm/NcbiSubsetData.py:168-191 | when batch `k` is the first to raise, the attempt raises, the `.fasta` file holds exactly the texts of batches `0..k-1` (all read) and the `.accID` file is empty |
| NcbiSubsetData.SubsetAttemptOfRecords | brdm/NcbiSubsetData.py:147-205 | when the batches bring a FASTA text of exactly `count` well-formed records, the attempt returns `True` with that text and the records' accession ids |
| NcbiSubsetData.WrittenConcat | brdm/NcbiSubsetData.py:149-152 | writing the attempts' files in two runs is writing them in one |
| NcbiSubsetData.WroteFlat | brdm/NcbiSubsetData.py:149-152 | writing an attempt's two files keeps the working folder a directory with no subdirectory |
| NcbiSubsetData.AttemptTexts | brdm/NcbiSubsetData.py:153-205 | the search, batch loop and header count compute the attempt's outcome, FASTA text and accession text |
| NcbiSubsetData.DownloadASubset | brdm/NcbiSubsetData.py:147-205 | both files are created first; the call's answer is the attempt's, and the files hold its FASTA text and accession ids: after a batch raises, the FASTA file holds the batches written before it and the accession file is empty |
| NcbiSubsetData.TriesOutcome | brdm/NcbiSubsetData.py:126-132 | the retries end `True` only when some attempt returns `True`, and `False` exactly when every attempt up to the maximum returns `False` |
| NcbiSubsetData.RetrySubset | brdm/NcbiSubsetData.py:124-132 | the retry loop of one subset ends as `Tries` says, with the attempts' files written in turn |
| NcbiSubsetData.DownloadsSucceeded | brdm/NcbiSubsetData.py:121-145 | `download()` returns `True` only when every entry parses and one of its attempts succeeds; the downloaded list is the entries' file names in order |
| NcbiSubsetData.DownloadsFailed | brdm/NcbiSubsetData.py:134-137 | `download()` returns `False` only when some entry's attempts all returned `False` |
| NcbiSubsetData.DownloadSubsets | brdm/NcbiSubsetData.py:117-136 | the loop over the entries, for any entry parser, ends with the answer and downloaded list of `DownloadsFrom` and the tree holding every attempt's files in order; a subset that never answers `True` stops the loop |
| NcbiSubsetData.Download | brdm/NcbiSubsetData.py:110-145 | the loop over the entries ends with the answer and downloaded list of `DownloadsFrom`, and the tree holding every file written plus the README+ manifest on success |
| NcbiSubsetData.FileNamesDistinct | brdm/NcbiSubsetData.py:97 | the regular files picked from a listing without repeats have no repeats |
| NcbiSubsetData.Backup | brdm/NcbiSubsetData.py:87-106 | the dated folder is recreated and every regular file of the working directory is copied in, ending as `BackedUp` says |
| NcbiSubsetData.BackupCopiesFiles | brdm/NcbiSubsetData.py:87-106 | from a well-formed tree, the backup succeeds and the dated folder holds a copy of every regular file of the working directory and nothing else; nothing outside it changes |
| NcbiSubsetData.CopiesIntoEmpty | brdm/NcbiSubsetData.py:99-100 | copying the working directory's regular files into an empty folder gives that folder exactly those files |
| NcbiSubsetData.BackedUpFrame | brdm/NcbiSubsetData.py:87-106 | a backup changes nothing outside the dated folder and adds only that folder, its contents and its ancestors |
| NcbiSubsetData.Restore | brdm/NcbiSubsetData.py:207-227 | the refusals, the removal of the destination's regular files and the copies of the folder's entries end as `Restored` says |
| NcbiSubsetData.RestoreRefusals | brdm/NcbiSubsetData.py:210-217 | restore answers `False` exactly when the folder is missing or is an empty directory, and then changes nothing |
| NcbiSubsetData.RestoredFiles | brdm/NcbiSubsetData.py:219-225 | a finished restore leaves in the destination a copy of every entry of the folder and no other regular file, and changes nothing outside the destination |
| NcbiSubsetData.RestoreFinishes | brdm/NcbiSubsetData.py:219-225 | when the folder holds only regular files, none named like a subdirectory of the destination, the restore finishes |
| NcbiSubsetData.WrittenFrame | brdm/NcbiSubsetData.py:149-152 | writing the attempts' files changes nothing outside the working folder |
| NcbiSubsetData.DownloadedFrame | brdm/NcbiSubsetData.py:110-145 | a run of `download()` changes nothing outside its folder |
| NcbiSubsetData.MakeStaging | brdm/NcbiSubsetData.py:53-56 | the staging folder is removed if present and created again; in a well-formed tree it is then an empty directory |
| NcbiSubsetData.Stage | brdm/NcbiSubsetData.py:53-64 | the staging folder is recreated and the download runs in it (`Staged`): a failed `makedirs` raises with the tree it leaves, otherwise the answer is the download's and the tree holds its files and README+; nothing outside the staging folder changes |
| NcbiSubsetData.Publish | brdm/NcbiSubsetData.py:67-83 | (`Published`) the backup lists the staged files in the order it returns; a failed backup answers `False` with the tree `BackedUp` leaves; otherwise the promotion's success answers `True` and its failure raises, with the tree `Promoted` gives; nothing outside the backup folder and the destination changes |
| NcbiSubsetData.StagedUntouched | brdm/NcbiSubsetData.py:67-71 | a backup into a folder apart from the destination leaves the staged entries as they were |
| NcbiSubsetData.Update | brdm/NcbiSubsetData.py:50-83 | the staging step ends as `Staged` says; when it does not answer `True` that is `update()`'s answer and tree, otherwise the answer and the tree are what `Published` gives from the staged tree; on `True` the destination's regular files are exactly the staged ones and the staging folder is gone; nothing outside the destination and the dated backup folder changes |
| NcbiTaxonomyData.FormatTaxonomy | brdm/NcbiTaxonomyData.py:220-238 | the output file is created with the header line (`False` when it cannot be), the `.dmp` lines are converted in order, the call answers `True` exactly when every line converts, and only the output file changes |
| NcbiTaxonomyData.UntagRanks | brdm/NcbiTaxonomyData.py:231-232 | removing the two-letter tags from the eight ranks of an output line gives back the fields from species to superkingdom |
| NcbiTaxonomyData.RanksBack | brdm/NcbiTaxonomyData.py:232 | when no field holds `;`, the ranks column splits on `; ` into the eight tagged ranks |
| NcbiTaxonomyData.ColumnsBack | brdm/NcbiTaxonomyData.py:232 | when no field holds a tab, an output line splits on tabs into id, name and ranks |
| NcbiTaxonomyData.RecordRoundTrip | brdm/NcbiTaxonomyData.py:229-232 | the reformatting loses nothing: the ten fields of an input line are read back from its output line when none holds a tab or `;` |
| NcbiTaxonomyData.TaxonomyLineIsLine | brdm/NcbiTaxonomyData.py:227-232 | a line as `readlines` yields it is converted into exactly one output line |
| NcbiTaxonomyData.FormattedReadsBack | brdm/NcbiTaxonomyData.py:224-232 | the output file read back line by line is the header followed by the converted input lines in order, up to the first that does not convert |
| NcbiTaxonomyData.HeaderIsLine | brdm/NcbiTaxonomyData.py:225 | the header written first is a single line |
| NcbiTaxonomyData.HttpsConnect | brdm/NcbiTaxonomyData.py:105-122 | the login loop connects exactly when some attempt within the retry count goes through, stops at the first one that does, and otherwise uses up every retry |
| NcbiTaxonomyData.Download | brdm/NcbiTaxonomyData.py:126-182 | the attempt loop and the unpacking end as `DownloadResult` says |
| NcbiTaxonomyData.AttemptsSucceed | brdm/NcbiTaxonomyData.py:137-162 | each part is fetched until it arrives: the readme is held exactly when some attempt brought it, the archive exactly when it was given in test mode or some attempt's checksum passed |
| NcbiTaxonomyData.DownloadOutcome | brdm/NcbiTaxonomyData.py:126-182 | `download()` returns `True` exactly when the readme came, a checksum passed and the archive unpacks, `False` exactly when only the unpacking fails, and raises otherwise, including every test-mode run |
| NcbiTaxonomyData.Install | brdm/NcbiTaxonomyData.py:78-83 | the destination's regular files are replaced by the staging folder's contents, and the staging folder is then gone |
| NcbiTaxonomyData.Tidy | brdm/NcbiTaxonomyData.py:89-100 | formatting the taxonomy and deleting every regular file but the kept three leaves the answer and the tree `Tidied` gives |
| NcbiTaxonomyData.TidiedKeeps | brdm/NcbiTaxonomyData.py:89-100 | the clean-up runs exactly when the destination is a folder, and otherwise changes nothing; afterwards the only regular files directly in it are the README+, the provider's readme and the formatted taxonomy; the two readmes and every subfolder are untouched; nothing deeper or elsewhere changes; the formatted taxonomy holds the conversion of the `.dmp` file; nothing else is added |
| NcbiTaxonomyData.Publish | brdm/NcbiTaxonomyData.py:74-102 | writing the README+ into the staging folder, installing it and tidying end with the answer and the tree `Published` gives for the staging folder holding the README+ |
| NcbiTaxonomyData.PublishedOutcome | brdm/NcbiTaxonomyData.py:77-102 | after a good download `update()` answers `True` exactly when the staging folder is installed; then the staging folder is gone, only the three kept files remain as regular files in the destination, the two readmes are the staged ones, the formatted taxonomy is the conversion of the staged `.dmp` file, and nothing outside the destination has changed |
| NcbiTaxonomyData.Update | brdm/NcbiTaxonomyData.py:50-102 | a failed staging folder is `False`, a download that is not `True` is its answer, and both change nothing outside the staging folder; after a `True` download the answer and the tree are `Published`'s for the staging folder holding the download and the README+; on `True` the staging folder is gone and only the three kept files remain in the destination |
| NcbiWholeGenome.GenomeFileName | brdm/NcbiWholeGenome.py:221-222 | the archive name `download` takes from a genome path is the assembly folder's own name followed by `_genomic.fna.gz` |
| NcbiWholeGenome.GenomeFileIsGzip | brdm/NcbiWholeGenome.py:146 | a genome archive name is unpacked as a single gzip member, not as a tar archive |
| NcbiWholeGenome.GzipSuffix | brdm/NcbiWholeGenome.py:222 | a name with the genome suffix ends in `.gz` and not in `tar.gz` |
| NcbiWholeGenome.GenomeFileNoTab | brdm/NcbiWholeGenome.py:218-222 | a genome path holds a tab only when its folder field does |
| NcbiWholeGenome.ParseRowsAppend | brdm/NcbiWholeGenome.py:217-223 | the parse is line by line: parsing `a + b` gives the paths of `a` then those of `b`, failing when either part fails |
| NcbiWholeGenome.ParseRowsMembers | brdm/NcbiWholeGenome.py:217-228 | the parse succeeds exactly when no line lacks field 11 (or field 19 where the level matches); then its paths are exactly those of the matching lines, none holding a tab |
| NcbiWholeGenome.ParseRowsOne | brdm/NcbiWholeGenome.py:218-223 | one line gives no path when its level differs, its genome path when it matches, and a failure when a field is missing |
| NcbiWholeGenome.RestFails | brdm/NcbiWholeGenome.py:225-228 | once a line fails the whole parse fails |
| NcbiWholeGenome.ParseAssemblySummary | brdm/NcbiWholeGenome.py:206-230 | the loop over the lines after the first three yields `AssemblySummary`: the genome paths in order, or the failure |
| NcbiWholeGenome.ReadMd5 | brdm/NcbiWholeGenome.py:192-203 | the loop over the checksum lines yields `ReadMd5Result` |
| NcbiWholeGenome.Usable | brdm/NcbiWholeGenome.py:196-198 | the scan reaches at most every line: it stops at the first line without a second field |
| NcbiWholeGenome.ReadMd5PicksLastMatch | brdm/NcbiWholeGenome.py:196-203 | `read_md5` returns the digest of the last line naming the file before the first line without a second field, and fails when no such line exists |
| NcbiWholeGenome.Md5ScanIsLastMatch | brdm/NcbiWholeGenome.py:196-199 | from any point the scan's answer is the last match in the usable lines, or the code held so far when there is none |
| NcbiWholeGenome.FilesLoop | brdm/NcbiWholeGenome.py:143-161 | one pass over the file list progresses as `FilesPass` says, stopping once the counter reaches the target |
| NcbiWholeGenome.GetFile | brdm/NcbiWholeGenome.py:144-161 | one file not yet recorded: no digest found raises; a passing checksum decides `unzip_success` afresh, a failing one keeps the previous value (unbound raises); a successful unzip counts the file and records its manifest line (`FileStep`) |
| NcbiWholeGenome.CompletionLoop | brdm/NcbiWholeGenome.py:139-164 | the completion attempts progress as `CompletionAttempts` says |
| NcbiWholeGenome.SummaryLoop | brdm/NcbiWholeGenome.py:110-122 | the summary attempts end as `SummaryAttempts` says, a failed parse keeping the file list it had |
| NcbiWholeGenome.Download | brdm/NcbiWholeGenome.py:75-190 | the readme loop, then per species the summary and completion loops, end as `DownloadResult` says, with the manifest lines collected |
| NcbiWholeGenome.SummaryAttemptsSucceed | brdm/NcbiWholeGenome.py:112-125 | the summary loop succeeds exactly when some attempt up to the maximum brings the summary |
| NcbiWholeGenome.DownloadRaisesWithoutSummary | brdm/NcbiWholeGenome.py:123-125 | when the readme arrives but no attempt brings the first species' summary, the log line's unbound `e` raises |
| NcbiWholeGenome.SkipNeverFires | brdm/NcbiWholeGenome.py:144 | a manifest line holds a tab and a parsed genome path does not, so the `not in downloaded_file` test never skips a file |
| NcbiWholeGenome.FilesPassExtends | brdm/NcbiWholeGenome.py:143-161 | a pass only appends manifest lines for listed files, one per counted archive, and reports completion only when the counter has reached the target |
| NcbiWholeGenome.CompletionExtends | brdm/NcbiWholeGenome.py:139-164 | the completion attempts only append manifest lines for listed files, and end completed only with the counter at the target |
| NcbiWholeGenome.SpeciesStepShape | brdm/NcbiWholeGenome.py:100-180 | a species that completes adds exactly `target` manifest lines (at least one), each for a genome in its list; the target is the first list's length when the caller passed 0 |
| NcbiWholeGenome.WalkCovers | brdm/NcbiWholeGenome.py:100-180 | for any species turn that keeps the lines it finds and, on completing, adds lines naming that species, the loop keeps its starting lines and on `True` leaves a line for every remaining species |
| NcbiWholeGenome.SpeciesFromCovers | brdm/NcbiWholeGenome.py:100-180 | the species loop keeps the lines it started with, and on `True` every remaining species has a manifest line |
| NcbiWholeGenome.DownloadCoversSpecies | brdm/NcbiWholeGenome.py:75-190 | `download` returns `True` only after every species contributed a manifest line, and returns `False` with no lines when the readme never arrives |
| NcbiWholeGenome.Update | brdm/NcbiWholeGenome.py:33-72 | `update()` never returns `True` (the `clean_destination_dir` call has one argument too many); a failed staging folder raises with the tree `Recreate` gives; a download that raises or fails gives the same answer with the staged tree; after a download that came through, the answer and the tree are those of `Publish`; nothing outside the staging and dated backup folders changes |
| NcbiWholeGenome.Publish | brdm/NcbiWholeGenome.py:53-60 | after a download that came through, the README+ manifest is written and backed up with the readme, leaving `ReadmeBackedUp`'s tree; a failed backup answers `False` and a successful one raises at the `clean_destination_dir` call; nothing outside the staging and dated backup folders changes |
| UniteData.EntryFieldsReadBack | brdm/UniteData.py:79-80 | an entry written as a folder and a name around a bar padded by spaces (or with no folder) gives its folder and file name back |
| UniteData.SplitPair | brdm/UniteData.py:79-80 | two pieces joined by one bar split back into those two pieces |
| UniteData.EntryWithoutBar | brdm/UniteData.py:79-80 | an entry without a bar has no second field: the indexing raises |
| UniteData.AsWrittenStuck | brdm/UniteData.py:83-98 | as written, once `os.makedirs` of the folder raises it raises on every later attempt, and nothing completes or changes |
| UniteData.OnlyFirstAttemptCounts | brdm/UniteData.py:83-98 | as written, a file with a folder completes exactly when its first attempt does |
| UniteData.AttemptsOutcome | brdm/UniteData.py:83-98 | with the folder made only when missing, an entry completes exactly when its folder can be worked in and some attempt within the bound gets and unpacks the file |
| UniteData.FolderMade | brdm/UniteData.py:87-89 | once made, the folder stays usable, and making it again changes nothing |
| UniteData.RetryInFolder | brdm/UniteData.py:83-98 | when attempt 1 fails and attempt 2 succeeds, the file never completes as written but completes with the folder made only when missing |
| UniteData.NoFolderAsWritten | brdm/UniteData.py:83-98 | as written, an entry without a folder retries until some attempt within the bound gets and unpacks the file, and changes nothing |
| UniteData.AsWrittenOutcome | brdm/UniteData.py:83-98 | the attempt loop as written, for every input: without a folder it completes exactly when some attempt passes; with one, exactly when an attempt is allowed, `os.makedirs` can make the folder and the first attempt passes; the folder is made whenever it can be |
| UniteData.MakeDirsElsewhere | brdm/UniteData.py:87-88 | after `os.makedirs` of one folder, another folder of the working folder can be made exactly when it could before, and the same one cannot be made again |
| UniteData.DownloadSucceedsAsWritten | brdm/UniteData.py:76-104 | as written, `download` returns `True` exactly when every entry is well formed and either has no folder and some attempt passes, or has a folder that `os.makedirs` can make, that no earlier entry named, and a passing first attempt |
| UniteData.AsWrittenStricter | brdm/UniteData.py:76-104 | whenever `download` as written returns `True`, so does the loop that makes each folder only when it is missing |
| UniteData.FileLoop | brdm/UniteData.py:83-98 | the attempt loop for one entry, with the folder made only when missing (the corrected loop of the Findings), ends as `Attempts` says, in answer and tree |
| UniteData.UsableKept | brdm/UniteData.py:87-89 | making one entry's folder does not change whether any other entry's folder can be worked in |
| UniteData.DownloadSucceeds | brdm/UniteData.py:76-111 | `download` returns `True` exactly when every entry is well formed, its folder can be worked in and some attempt completes it |
| UniteData.DownloadedNames | brdm/UniteData.py:100-101 | the names recorded are those of the completed entries, in configuration order; on `True` they are the names of all entries |
| UniteData.DownloadRaises | brdm/UniteData.py:79-80 | `download` raises only on an entry without a bar |
| UniteData.DownloadAddsFolders | brdm/UniteData.py:76-104 | the entry loop keeps every existing entry with its content and adds only directories |
| UniteData.DownloadEntries | brdm/UniteData.py:76-104 | the loop over `download_file` ends as `DownloadFrom` says: outcome, completed names and tree |
| UniteData.Download | brdm/UniteData.py:69-111 | the entry loop, the staged downloads and, on success, the README+ manifest end as `DownloadRun` says |
| UniteData.DownloadFrame | brdm/UniteData.py:69-111 | besides new folders, the staged files and the manifest, a download changes nothing |
| UniteData.Lifted | brdm/UniteData.py:161-162 | the places computed are exactly where the moved entries land one level up |
| UniteData.LiftedTreeShape | brdm/UniteData.py:161-162 | the tree with the moved entries one level up holds each moved entry at its new place with its content and every other entry unchanged |
| UniteData.LiftedNothing | brdm/UniteData.py:161-162 | moving no entry leaves the tree as it was |
| UniteData.LiftStep | brdm/UniteData.py:161-162 | one `shutil.move(a, "../" + a)` onto a free name extends the lifted tree by that entry |
| UniteData.MovedUpLifts | brdm/UniteData.py:161-162 | moving the listed entries up one by one, none of whose names is taken above, ends in the lifted tree |
| UniteData.MovedUpAll | brdm/UniteData.py:161-162 | the whole move loop, from the start of the listing, ends in the lifted tree |
| UniteData.ClearOfMissing | brdm/UniteData.py:161-162 | in a well-formed tree, a name with no entry above has nothing below it either |
| UniteData.FlattenedMovesUp | brdm/UniteData.py:158-165 | flattening a folder whose entry names are free one level up succeeds: every entry below it sits one level up with the same content, the folder is gone and nothing else changes |
| UniteData.FlattenedShape | brdm/UniteData.py:158-165 | the flattened tree holds each entry below the folder one level up, with its content |
| UniteData.FlattenedEntry | brdm/UniteData.py:161-165 | one entry below the flattened folder sits one level up with the same content |
| UniteData.MovedUpFrame | brdm/UniteData.py:161-162 | moving entries up changes nothing outside the folder above |
| UniteData.FlattenedFrame | brdm/UniteData.py:158-165 | flattening changes nothing outside the working folder |
| UniteData.FlattenedAllFrame | brdm/UniteData.py:158-165 | the whole `remove_path` loop changes nothing outside the working folder |
| UniteData.FlattenFolder | brdm/UniteData.py:159-165 | one `remove_path` entry ends as `Flattened` says, with the listing `os.listdir` gave |
| UniteData.FlattenStep | brdm/UniteData.py:158-165 | one more `remove_path` entry continues the loop from where it stood |
| UniteData.FlattenFolders | brdm/UniteData.py:158-165 | the `remove_path` loop ends as `FlattenedAll` says, with each listing the one `os.listdir` gave at its turn |
| UniteData.RemoveTrees | brdm/UniteData.py:152-156 | the `developer_path` loop ends as `RemovedAll` says |
| UniteData.RemovedAllExactly | brdm/UniteData.py:152-156 | the developer loop succeeds exactly when each folder is a directory at its turn; then nothing is left at or below any of them and everything outside them is as it was |
| UniteData.InfoSourcesListed | brdm/UniteData.py:141-144 | every `info_file_name` entry before the first one without a bar gives its place, in order; all parse exactly when none lacks a bar |
| UniteData.Backup | brdm/UniteData.py:130-170 | the dated folder, the readme copies, the developer removals and the `remove_path` loop end as `BackedUp` says |
| UniteData.BackupRefusesBadEntry | brdm/UniteData.py:141-147 | an `info_file_name` entry without a bar makes the backup return `False` |
| UniteData.BackedUpFrame | brdm/UniteData.py:130-170 | a backup changes nothing outside the working folder and the dated folder |
| UniteData.ApartChild | brdm/UniteData.py:140-144 | a copy placed directly in the dated folder lies outside a working folder apart from it |
| UniteData.BackupKeepsCopies | brdm/UniteData.py:138-147 | after a successful backup into a folder apart from the working folder, the README+ manifest and every `info_file_name` file are regular files in the dated folder |
| UniteData.Stage | brdm/UniteData.py:37-45 | the staging folder is recreated and the download runs in it; a failed `create_tmp_dir` raises on the unbound `e`; nothing outside the staging folder changes |
| UniteData.Publish | brdm/UniteData.py:49-66 | the backup from the staging folder, then the destination's regular files replaced by the staged ones and the staging folder removed; any failure gives `False` |
| UniteData.Update | brdm/UniteData.py:34-66 | a failed download keeps its outcome, a failed backup or promotion gives `False`; nothing outside the destination and the dated folder changes; on `True` the staging folder is gone, every staged entry sits directly in the destination and every regular file there was staged |

## Left out

- Network transport (`requests` sessions, `ftplib`, Biopython `Entrez`, BeautifulSoup): every transfer, listing and login is an outcome given per item and attempt in each adapter's `Net`, `Site` or `Remote` parameter.
- MD5 (RFC 1321) is a function parameter `md5`, so a digest is compared but never computed. Archive contents are not modelled: `unzip_file` keeps its suffix dispatch and name rewrite, and whether extraction works is a given flag.
- What a successful download writes into the staging folder is the `staged` parameter of each `update`; only the files the adapters write themselves (FASTA and accession files, manifests, taxonomy output) are computed.
- Clock and timing: the date, the clock reading and the elapsed time are parameters. The float `execution_time` is a ratio of whole numbers, which every finite float is, so its `round` is modelled exactly. It is taken to be non-negative: a clock set back during the download is not modelled. `time.sleep` is a pause with no effect. The two `os.sleep` calls (NcbiBlastData.py:48, 204) name no real function and would raise `AttributeError`; they are treated as pauses too.
- `os.chdir` and the ambient working directory: every operation takes the folder it works in (`here`, `cwd`, `dir`) as an explicit path.
- `os.chmod`, `folder_mode` and `file_mode`: permission bits are not modelled. A `chmod` that raises is therefore not a path of any `update` or `download`, including the `False` it would give at brdm/NcbiBlastData.py:49 and brdm/NcbiWholeGenome.py:48.
- The staging folder `destination_dir + 'temp'` is modelled as the child `temp` of the destination, which assumes the configured destination ends with a separator.
- Names from configuration entries and listings are single path components; a name holding `/` is not split into several.
- `\d` in `(nr|nt)\.\d{2}\.tar\.gz$` is read as an ASCII digit; Python also accepts other Unicode decimal digits.
- Bytes are modelled as characters. The UTF-8 decoding of the `.md5` block in `download_blast_file` cannot fail in the model.
- Buffered writes are treated as written at once: a file written before an exception, or left unclosed, holds everything written to it.
- NcbiSubsetData.QueriesUrl renders the query list with single quotes around each entry; Python's `repr` switches to double quotes and escapes characters for entries holding a quote or a backslash.
- NcbiSubsetData.BatchFetch treats a batch in which no attempt got a handle as raising; on a later batch the source reads the previous batch's closed handle, which raises `ValueError`, and on the first it names an unbound variable.
- NcbiTaxonomyData.HttpsConnect, NcbiBlastFtp.FtpConnect and NcbiBlastFtp.DownloadFtpFile take a `fuel` bound on their loops: with a negative retry count, or a connection that logs in but fails the probe, the source may loop forever, and the model stops there (`FtpFileRun` gives `None`).
- NcbiBlastFtp.DownloadFtpFile: the connection a transfer goes over is not tracked; each transfer's outcome is given by its number. The `ftp_connect` call in the falsy-connection branch is not modelled, since its result is never read.
- NcbiBlastFtp.FtpFileResult does not claim that `False` means an incomplete file: a transient error after the last byte, with no retries left, returns `False` with the whole file.
- The top-level `download` of NcbiBlastData.py returns `False` at once, since `testConnection` is a `pass` stub that returns `None` (NcbiData.py:22-23); only its nr/nt filter (NcbiBlastFtp.NrNtFiles) is modelled.
- NcbiBlastFtp.FtpConnect: the classes behind NcbiBlastData.py (NcbiData.py, BaseRefData.py) define no `connection_retry_num`, so as written `ftp_connect` raises `AttributeError` at NcbiBlastData.py:39 before any attempt; the model takes the retry count as a parameter and states the loop as if it were defined.
- NcbiBlastFtp.DownloadFtpFile: for the same reason, as written it raises `AttributeError` at NcbiBlastData.py:178 when given a connection (`download_retry_num` is undefined), and through `ftp_connect` at NcbiBlastData.py:175 when not; the model takes the retry count as a parameter.
- NcbiBlastFtp.DownloadBlastFile: `check_md5` is undefined too, so as written `download_blast_file` raises `AttributeError` at NcbiBlastData.py:162 and never returns `True`; the model skips the call, whose answer is ignored, so its `True` (and the `True` case of NcbiBlastFtp.BlastFileNeverFalse) is what the code would do with `check_md5` defined. `write_readme` is likewise undefined there.
- NcbiSubsetData.Update and UniteData.Update state the destination's new contents only when the dated backup folder lies apart from the destination. That the download keeps the tree well formed is not proved, so the backup's contents are stated by NcbiSubsetData.BackupCopiesFiles and UniteData.BackupKeepsCopies rather than by `Update`.
- UniteData.Update states per step, not again inside `Update`, what the `remove_path` flattening does (UniteData.FlattenedMovesUp).
- UniteData.Backup parses every `info_file_name` entry before copying, where the source parses and copies in turn; the end state is the same, since an entry that does not parse stops both at the same copy.
- UniteData.Download: an empty folder or name field is kept as the component `""`. `download_a_file` is an outcome given per file and attempt. `restore` in brdm/UniteData.py:172-174 only logs, so it is not modelled.
- BaseRefData.CheckRestoreDateFormat accepts ASCII digits only, where `str.isdigit` (brdm/BaseRefData.py:262) accepts every Unicode digit, including characters such as `²` that `int` then rejects; the source accepts such a date and the model refuses it.
- BaseRefData.DayGap reads ASCII digits and ASCII whitespace only; Python's `int` (brdm/BaseRefData.py:231-233) also reads other Unicode decimal digits and whitespace, so for such fields the source computes a gap where the model gives -1.
- BaseRefData.CreateBackupDir returns the dated folder as a path, where the source returns the string `full_dir_name + '/'` (brdm/BaseRefData.py:181); a path cannot carry the trailing separator, and every caller only copies files into the folder.
- UniteData.FileLoop runs the attempt loop with the folder made only when missing, the corrected loop of the Findings, not the `os.makedirs` on every attempt of brdm/UniteData.py:87-88, which raises on any retry once the first attempt made the folder; the loop as written is `AttemptsAsWritten`, whose outcome for every input UniteData.AsWrittenOutcome states.
- UniteData.UsableKept is proved for the corrected loop; for the loop as written UniteData.MakeDirsElsewhere states when another entry's folder can still be made.
- UniteData.DownloadSucceeds states when the corrected download returns `True`; as written an entry sharing an earlier entry's folder, or needing a retry, raises and the download returns `False`: UniteData.DownloadSucceedsAsWritten states the answer as written for every entry list, and UniteData.AsWrittenStricter shows it is `True` only where the corrected one is.
- UniteData.DownloadedNames lists the names the corrected download completes, not those of the loop as written.
- UniteData.DownloadRaises states when the corrected download raises; the `os.makedirs` error is caught inside the attempt loop, but as written the download can return `False` at an earlier entry, and then an entry without a bar further on is never reached.
- UniteData.DownloadEntries runs the corrected loop for every entry.
- UniteData.Download returns the corrected download's answer; the answer as written is stated by UniteData.DownloadSucceedsAsWritten.
- UniteData.Stage stages what the corrected download fetched.
- UniteData.Update publishes after the corrected download, so where shared folders or retries make the download as written return `False`, the model may publish.
- GreenGeneData.Attempt checks each attempt's own checksum, the corrected loop of the Findings, not the `checksum_success` carried across attempts and files at brdm/GreenGeneData.py:90-103.
- GreenGeneData.FileLoop runs the corrected loop; the loop as written is `FileAttempts`, whose outcome for every input GreenGeneData.FileAttemptsOutcome states.
- GreenGeneData.CheckedFilesPassed is proved for the corrected loop only.
- GreenGeneData.Download returns the corrected answer `DownloadChecked`; as written a file whose own attempts all fail may still count after a stale checksum (GreenGeneData.StaleChecksumPassesFile), and GreenGeneData.CheckedImpliesAsWritten shows that the answer as written, `DownloadAsWritten`, is `True` whenever the corrected one is.
- GreenGeneData.Update publishes after the corrected download, so where a stale checksum makes the download as written return `True`, the model may return `False`.
- AdapterCommon.CopyTree models distutils' `copy_tree` by where each entry lands, not by its walk. It differs in four ways. First, `copy_tree` skips names starting with `.nfs`; the model copies them. Second, a source folder whose counterpart below the target is a regular file makes `mkpath` raise; the model replaces the file. Third, a source file whose counterpart is a directory is written inside that directory under its own name, raising only if that name is a directory too; the model replaces the directory entry. Fourth, `copy_tree` first runs `mkpath` on the target, which creates a missing target and its ancestors and raises over a regular file; the model creates no target folder. Where `copy_tree` raises part-way, the entries it copied first, in `os.listdir` order, are not modelled.
- AdapterCommon.CopiedTreeMirrors states the placement of the modelled copy; it holds for distutils' `copy_tree` only without the clashes and `.nfs` names listed under AdapterCommon.CopyTree.
- AdapterCommon.Promote, and with it AdapterCommon.PromotedFiles and AdapterCommon.PromotedStaged, inherit the `copy_tree` gaps listed under AdapterCommon.CopyTree: a staged file meeting a remaining subfolder of the same name, or a staged subfolder meeting a file, ends as the model says only where distutils does not differ. The same holds for the promotions of NcbiTaxonomyData.Install, UniteData.Publish and NcbiSubsetData.Publish.
- NcbiBlastData.Install inherits the same `copy_tree` gaps, and so do NcbiBlastData.InstalledTop and the `True` case of NcbiBlastData.Update.
- The commented-out `restore` and `backup` bodies (brdm/NcbiWholeGenome.py:253-317, brdm/NcbiTaxonomyData.py:241-282), the abstract stubs (BaseRefData.py, NcbiData.py, brdm/NcbiData.py, RefDataInterface.py), NcbiDownload.py, main.py, setup.py, YAML configuration and logging are not part of this model.
- The qiime2 `os.system` commands and symlinks of GreenGenes (brdm/GreenGeneData.py:230-297) are not part of this model.
- `update` in GreenGenes and whole genomes calls `clean_destination_dir` with one argument too many (brdm/GreenGeneData.py:52, brdm/NcbiWholeGenome.py:60). The model raises there, so the `copy_tree` and `rmtree` after that call are never reached.

## Findings

| source | as written | input that shows it | evidently intended | confidence | as-written member | corrected member |
|---|---|---|---|---|---|---|
| brdm/GreenGeneData.py:90-103 | `checksum_success` is set only when both downloads of an attempt succeed and is never reset, so an attempt for a later file sees the earlier file's `True` and goes on to unpack | two data files; the first passes its checksum on attempt 1; both downloads of the second fail on attempt 1, yet unpacking what lies under its name succeeds, so the second counts as completed | a file completes only when its own attempt downloads both files, passes its own checksum and unpacks | not executed | GreenGeneData.StaleChecksumPassesFile | GreenGeneData.FileLoop |
| brdm/UniteData.py:87-88 | `os.makedirs(file_dir)` runs on every attempt without `exist_ok`, so once the first attempt made the folder, every retry raises before downloading | an entry with folder `d` and file `f`, attempt 1 failing and attempt 2 succeeding, `download_retry_num` 2: the file never completes and `download` returns `False` | the folder is made only when it is missing, and a retry downloads again | not executed | UniteData.DownloadSucceedsAsWritten | UniteData.AttemptsOutcome |
