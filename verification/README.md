# JotHost Panel: a verified model

JotHost Panel is a hosting panel with an agent on each host. This project models six parts of it in Dafny
and proves what they keep, undo, merge or roll back.

- **Sealed streams** (`SealFormat`, `SealWriter`, `SealReader`, `SealTheorems`). A chunking writer and reader
  over an ideal AEAD: a log of what was sealed, in which opening succeeds only on what was logged. Writer and
  reader are classes whose methods are proved equal to steps of two machines; the theorems are about every run
  of those machines, with any underlying write failing and any read size.
- **Backups** (`Paths`, `Disk`, `Archive`, `Restore`, `RestoreTheorems`, `RestoredModes`, `SafeExtraction`, `Verify`,
  `VerifyReports`, `RestoreRun`, `Create`, `CreateTheorems`, `ManifestTheorems`, `BackupTheorems`, `RestoreCounts`, `Segments`, `Keys`, `Store`,
  `DocumentRoots`). An archive is the sequence of its tar entries,
  the disk a map from cleaned paths to nodes, and every call on the disk may fail according to a plan. SHA-256 and
  JSON are functions handed in.
- **nginx blocks** (`Nginx`, `NginxTokens`, `NginxForbidden`). One reference lexer; the brace count and the directive list are
  both proved against it.
- **Cron** (`Crontab`, `CrontabJobs`, `AcceptedJobs`, `CronTable`, `CronFields`, `CronMeanings`, `CronSchedule`, `Calendar`,
  `NextRuns`, `CronDays`, `NextRunTheorems`). The block merged into a crontab and what cron reads there, the schedule language, and the search for the next run over the Gregorian calendar.
- **DNS** (`DnsConfig`, `DnsStatements`, `DnsMainConf`, `DnsReconcile`, `DnsTheorems`, `DnsOutcome`, `DnsAcceptance`, `ReverseDns`). The reconcile as steps over a
  map from files to contents, any of which may fail, with its undoing; and reverse names.
- **SHA-512 crypt** (`CryptEncoding`, `CryptDefinition`, `Sha512Crypt`, `CryptHash`). The algorithm over any digest function, its
  printable form and the printed hash.

`Wrappers`, `Bytes`, `Numbers`, `Text` and `Parts` hold what several parts share.

Where the source changes state, a class or a loop here does the same and its contract ties the new state to a
function of the old one; the lemmas are about those functions. Failures are a parameter: a sequence that says what
becomes of each coming call, so a lemma for every plan is a lemma for a failure at any step. Where something the
code's comments promise is not so, there is a lemma with an input that shows it and another that says exactly when
it is. Those are:

- the sealed reader also accepts an empty final chunk, and the 64-bit counter wraps (`SealTheorems`);
- a site unpacked where nothing was, whose clean-up fails, leaves files and reports none (`Restore`);
- an archive with a repeated name can verify and give back other bytes (`Verify`);
- the writer bounds neither a dump's size nor the place of the manifest, so it can finish an archive that its own
  verification refuses (`CreateTheorems`);
- valid domains can share an archive prefix when one has over 100 characters (`Segments`);
- a listed directive name is not found between quotes (`NginxForbidden`), and a brace that nginx takes for part of a word
  is counted (`NginxTokens`);
- a file under an archive's staging name is removed by a put that fails because of it (`Store`);
- a refused configuration deletes a `named.conf` that needed no change, and a zone file that could not be given to
  the name server's account outlives the failed run (`DnsTheorems`);
- a pointer inside an IPv6 /128, or inside an IPv6 network that stands for an IPv4 one, is refused (`ReverseDns`);
- steps from 10 to 19 and the like count as no restriction, and four years are too short across 2100
  (`CronFields`, `NextRunTheorems`); the comment on `NextRun` says "at or after", the code searches strictly after;
- a job name, schedule or command with a line break at an end is accepted and becomes several lines, and a name ending
  in `(job` breaks the reading of its comment (`AcceptedJobs`, `CrontabJobs`);
- a schedule with blanks between its fields that are neither spaces nor tabs is accepted and written as it stands, and cron
  reads its line otherwise (`CronTable`);
- passwords of a positive multiple of 64 bytes get 64 bytes of digest B fewer than the definition of SHA-crypt asks
  (`Sha512Crypt`).

Run `dafny verify dfyconfig.toml` in this directory to check everything.

## Model

| member | source | states |
|---|---|---|
| SealFormat.HeaderReadsBack | shared/seal/seal.go:130-162 | a header written for a chunk size in range is read back as that size |
| SealFormat.NonceInjective | shared/seal/seal.go:373-380 | below 2^64, two nonces are equal exactly when counter and final flag are |
| SealFormat.HeaderLayout | shared/seal/seal.go:130-162 | byte by byte: the magic text, the salt, and the chunk size in four bytes with the highest first |
| SealFormat.NonceLayout | shared/seal/seal.go:373-380 | byte by byte: the chunk number in eight bytes with the lowest last, three zeros and the mark of the last chunk |
| SealFormat.CutShape | shared/seal/seal.go:182-226 | data is cut into full chunks and one last one, empty only for empty data; an exact multiple ends in a full last chunk; the cuts concatenate to the data |
| SealWriter.NewWriter | shared/seal/seal.go:130-162 | each refusal (key, chunk size, salt, header not written) and the fresh writer with the header written |
| SealWriter.Writer.Seal | shared/seal/seal.go:216-226 | one chunk sealed under the next nonce and written, or the writer broken, as one step of the writer's machine |
| SealWriter.Writer.Write | shared/seal/seal.go:182-202 | the buffering loop is the machine's write step, including refusals after close or error and partial failure |
| SealWriter.Writer.Close | shared/seal/seal.go:205-214 | close seals what is buffered as final, once, and answers the machine's close step's error; AnswersTell says which that is |
| SealWriter.RunKeeps | shared/seal/seal.go:182-226 | over any run of writes and closes, with the underlying writer failing anywhere, what is sealed is a front part of the stream of the data accepted so far, and what is buffered is the rest |
| SealWriter.NoncesInOrder | shared/seal/seal.go:182-226 | over any such run the nonces used are (0,no), (1,no), ... and at most one final one, which is last |
| SealWriter.NoncesDistinctIffNoWrap | shared/seal/seal.go:373-380 | so no nonce is used twice exactly when at most 2^64 chunks are non-final (uniqueness requirement of section 8 of NIST SP 800-38D) |
| SealWriter.QuietAfterEnd | shared/seal/seal.go:182-226 | after a close or an error no later call seals or writes anything |
| SealWriter.AnswersTell | shared/seal/seal.go:182-226 | over any run with the underlying writer failing anywhere, what every call answers: a write after the close that closing is refused; any other call, the close included, reports an error exactly when one of the underlying writes made so far failed, and a write that reports none took all its bytes |
| SealWriter.CountsAreKept | shared/seal/seal.go:182-226 | the bytes that the counts of the writes say were taken are exactly those sealed or still buffered, after a failure too |
| SealWriter.ClosedOutput | shared/seal/seal.go:182-226 | a run in which a close answered no error has written exactly the sealed stream of the concatenated writes before it, however they were split |
| SealReader.NewReader | shared/seal/seal.go:234-263 | a bad key and a malformed header are told apart; otherwise the reader stands at chunk 0 of the rest |
| SealReader.Reader.OpenChunk | shared/seal/seal.go:320-355 | one chunk is opened under the next nonce with the final flag the input's end calls for, or refused |
| SealReader.Reader.Next | shared/seal/seal.go:297-318 | one chunk with its look-ahead is taken, short input and read errors told apart, as the machine's step |
| SealReader.Reader.Read | shared/seal/seal.go:281-294 | one Read is the machine's read step: plaintext is handed out in buffers of the caller's size, errors are kept |
| SealReader.ReadTakes | shared/seal/seal.go:281-318 | a Read gives a front part of what remains, not empty for a non-empty buffer, and reports the end only when nothing remains |
| SealReader.ReadAllIsRemaining | shared/seal/seal.go:281-318 | any sequence of buffer sizes collects a prefix of what remains and reports the end only after all of it |
| SealTheorems.ReaderYields | shared/seal/seal.go:297-355 | the look-ahead machine is the plain chunk-by-chunk reading of its input, and never reports trailing data on a fixed byte string |
| SealTheorems.AcceptsExactlyStreams | shared/seal/seal.go:234-355 | the end is reached exactly on full non-final chunks numbered from 0 followed by one final chunk, with their plaintexts in order; otherwise what came out is whole authenticated chunks |
| SealTheorems.EmptyFinalChunkAccepted | shared/seal/seal.go:320-355 | counterexample: a full chunk and an empty final one is accepted although no data is ever cut that way |
| SealTheorems.OpensOnlyItsChunks | shared/seal/seal.go:320-355 | under a genuine stream's log, chunk i opens exactly with its own ciphertext, number and final flag |
| SealTheorems.AnyBodyYieldsPrefix | shared/seal/seal.go:281-355 | any bytes read in place of a genuine stream give whole chunks of the data, and reach the end only for the very same bytes |
| SealTheorems.TamperingIsRefused | shared/seal/seal.go:281-355 | so altered input yields a prefix of the data made of whole chunks and an error |
| SealTheorems.NothingUnderAnotherHeader | shared/seal/seal.go:234-355 | under a header nothing was sealed with, nothing comes out |
| SealTheorems.EveryPrefixIsRefused | shared/seal/seal.go:297-355 | every strict prefix is refused: bad format inside the header, truncated exactly on a chunk boundary, altered otherwise; and which chunks come out first |
| SealTheorems.EveryExtensionIsRefused | shared/seal/seal.go:297-355 | every proper extension gives the error for altered data after all chunks but the last |
| SealTheorems.RoundTrip | shared/seal/seal.go:182-318 | for every data, chunk size, split into writes and sequence of non-zero buffers, reading back what was written when a close answered no error returns the data and then the end |
| SealTheorems.WrappingReusesNonces | shared/seal/seal.go:216-226 | counterexample: one-byte chunks of 2^64 + 2 bytes use a nonce again |
| SealTheorems.FirstChunkOpensAgain | shared/seal/seal.go:320-380 | counterexample: past 2^64 chunks the first chunk opens again as a later one, so the bound the reading theorems have is the format's |
| Nginx.LexAppend | shared/validate/nginx.go:116-196 | the state of quote, comment and boundary, and the depth, after a text are those after its first part carried through the second |
| Nginx.CheckBalance | shared/validate/nginx.go:116-196 | the loop's verdict against the reference lexer: accepted, where a brace first closes one it did not open, an unterminated quote, or how many are left open |
| Nginx.AcceptedThenNewline | shared/validate/nginx.go:116-196 | an accepted block followed by a newline ends at depth 0 at a token boundary outside quotes and comments |
| Nginx.BlockStaysInside | shared/validate/nginx.go:116-196 | an accepted block placed at a token boundary at any depth never goes below it and ends at it |
| Nginx.JoinedBlocksAccepted | shared/validate/nginx.go:116-196 | accepted blocks joined by newlines are accepted |
| NginxTokens.ReadAlike | shared/validate/nginx.go:108-196 | of a text without backslash, dollar sign before a brace and brace ending a word, outside quotes and comments, nginx's own tokens give the depth that is counted, unless nginx gives it up |
| NginxTokens.AcceptedStaysInside | shared/validate/nginx.go:108-116 | so an accepted block of that kind never closes the block around it for nginx and leaves none open |
| NginxTokens.EscapedBraceIsCounted | shared/validate/nginx.go:108-196 | counterexample: a brace after a backslash is counted although nginx takes it for part of a word |
| Nginx.PieceAt | shared/validate/nginx.go:220-300 | a character ends a piece, joins it or is dropped as the same lexer's state says, so both scanners are in one state at every index |
| Nginx.SplitStatements | shared/validate/nginx.go:220-300 | the splitting loop returns the trimmed non-empty pieces of the text under the reference lexer |
| NginxForbidden.SplittingLosesNothing | shared/validate/nginx.go:220-300 | the untrimmed pieces concatenate to the text without its comments and its delimiters outside quotes, one piece more than there are breaks |
| NginxForbidden.StartIsTested | shared/validate/nginx.go:203-309 | every word that follows the start, a delimiter or a line break, skipping blanks and comments, is the first word of a statement |
| NginxForbidden.TestedIsStart | shared/validate/nginx.go:203-309 | and every first word of a statement stands at such a place |
| NginxForbidden.StatementsInOrder | shared/validate/nginx.go:203-309 | the first words of the statements are the words at such places, each once and in the text's order |
| NginxForbidden.CheckForbidden | shared/validate/nginx.go:203-216 | nothing is reported exactly when no word at such a place is a forbidden name; otherwise the first of them is |
| NginxForbidden.FirstInvalid | shared/validate/nginx.go:81-106 | the first character that may not occur, with none before it, or none at all |
| NginxForbidden.FoundUnlessQuoted | shared/validate/nginx.go:203-216 | a word whose name without the quotes around it is on the list is found exactly when it is not quoted |
| NginxForbidden.QuotedNameIsNotFound | shared/validate/nginx.go:203-309 | counterexample: in a balanced block a listed name between quotes starts a directive and no word is found |
| NginxForbidden.NginxDirectives | shared/validate/nginx.go:81-106 | what an accepted block satisfies, when each refusal is given, and what it tells: the first character that may not occur, the fault of the braces or quotes, the first forbidden name |
| Crontab.TrimTrailingBlanks | agent/internal/cron/crontab.go:172-177 | the loop joins the lines without the blank ones at the end |
| Crontab.TrimLeadingBlanks | agent/internal/cron/crontab.go:179-187 | the loops join the lines without the blank ones at either end |
| Crontab.FindBlock | agent/internal/cron/crontab.go:122-170 | the lines before the begin marker and after the next end marker, with or without either |
| Crontab.Merge | agent/internal/cron/crontab.go:122-170 | the file written is the kept lines before, the block and the kept lines after, empty or ending in a newline |
| Crontab.Merged | agent/internal/cron/crontab.go:122-170 | the merged file is empty or ends in a newline |
| Crontab.MergeKeepsOutside | agent/internal/cron/crontab.go:122-170 | merging a well-formed block leaves the text kept on either side of the block as it was |
| Crontab.SecondBlockReplacesFirst | agent/internal/cron/crontab.go:122-170 | merge(merge(e, b1), b2) = merge(e, b2) |
| Crontab.RemovingUndoesAdding | agent/internal/cron/crontab.go:122-170 | merge(merge(e, b), "") = merge(e, "") |
| Crontab.MergeKeepsNonBlankLines | agent/internal/cron/crontab.go:122-187 | the non-blank lines outside the block keep their text and order around the block's |
| CrontabJobs.Render | agent/internal/cron/crontab.go:35-73 | the block written: markers, notes and for each job its comment and entry, from the untrimmed fields |
| CrontabJobs.ManagedJobIds | agent/internal/cron/crontab.go:85-114 | the loop reads the identifier of every line inside blocks, in order |
| CrontabJobs.CommentReadsBack | agent/internal/cron/crontab.go:35-114 | a job's comment reads back as its identifier when its name holds no "(job " |
| CrontabJobs.CommentReadsBackExactly | agent/internal/cron/crontab.go:85-114 | it reads back exactly when "(job " first occurs where the comment puts it, or what is read there is the same identifier |
| CrontabJobs.NameEndingInOpening | agent/internal/cron/crontab.go:85-114 | counterexample: a name ending in "(job" without the space breaks the reading too |
| CrontabJobs.EntryLineIsSilent | agent/internal/cron/crontab.go:35-114 | an entry line is read as no identifier when what is written in it holds no "(job " |
| CrontabJobs.RenderedIsBlock | agent/internal/cron/crontab.go:35-73 | what render writes is a well-formed block, so the laws of merge hold of it |
| CrontabJobs.MergedIdsReadBack | agent/internal/cron/crontab.go:35-170 | the identifiers read from a merged file are those of the jobs rendered, in order |
| CrontabJobs.NameKeepsItsLine | agent/internal/cron/crontab.go:50 | a job's comment is one line exactly when its name holds no line break |
| CrontabJobs.AcceptedNameKeepsItsLine | shared/validate/cron.go:92-107 | an accepted name can hold line breaks only in the blanks that trimming takes away at its ends, and its comment is one line exactly when those hold none |
| CrontabJobs.AcceptedNameBreaksItsLine | shared/validate/cron.go:92-107 | counterexample: an accepted name ending in a line break is written as two lines |
| AcceptedJobs.BreaksOfValidated | shared/validate/cron.go:92-161 | a name, schedule or command that Job.Validate lets through holds line breaks only in the blanks trimming takes away |
| AcceptedJobs.EntryKeepsItsLine | agent/internal/cron/crontab.go:67 | an entry is one line exactly when schedule and command hold no line break |
| AcceptedJobs.AcceptedEntryKeepsItsLine | agent/internal/cron/cron.go:105-116 | an accepted job is one entry exactly when the blanks around its schedule and its command hold no line break |
| AcceptedJobs.AcceptedCommandIsTwoEntries | shared/validate/cron.go:116-130 | counterexample: an accepted command that starts with a line break becomes two lines, and the second begins with five accepted fields |
| AcceptedJobs.BlockHasItsLines | agent/internal/cron/crontab.go:35-76 | the block of accepted jobs reads as the lines meant, two a job beside the four fixed ones, exactly when no job holds a line break in the blanks of its name, schedule or command, and has more lines otherwise |
| CronTable.EntryIsRead | agent/internal/cron/crontab.go:67 | cron reads the entry of an accepted job as the fields that were accepted and the command between the parentheses exactly when the schedule's blanks are spaces and tabs |
| CronTable.FieldsOfAccepted | shared/validate/cron.go:151-193 | the fields so read are one name or five words, and as a schedule they are normalised to what the schedule itself is |
| CronTable.AcceptedScheduleIsMisread | shared/validate/cron.go:151-193 | counterexample: a schedule whose fields are kept apart by U+00A0 is accepted and cron reads its line otherwise |
| CronTable.CronRunsTheJobs | agent/internal/cron/crontab.go:35-170 | of a merged file cron reads the entries kept before the block, then each job's accepted fields and command in order, then the entries kept after, and no others |
| Paths.CleanOfProper | shared/validate/documentroot.go:104-112 | path.Clean leaves a path of proper segments alone |
| Paths.TrimmingKeepsDotDot | agent/internal/backup/verify.go:308-313 | trimming slashes before splitting hides and adds no ".." |
| Paths.AtOrUnderIsPrefix | agent/internal/backup/archive.go:348-372 | the comparison of path strings is that of segment lists, except that nothing is strictly under "/" |
| Paths.MemberChecksAgree | agent/internal/backup/archive.go:348-376 | checkMemberName and safeMemberPath accept the same names under any root but "/", and the result is the root followed by the name's cleaned segments |
| Paths.AcceptedLinkStaysInside | agent/internal/backup/archive.go:379-397 | a link is accepted exactly when its member is, its target is relative and not empty, and it leads lexically to the root or under it |
| Paths.MemberRefusalIsTrue | agent/internal/backup/archive.go:348-376 | the reason a name is refused for is true of it |
| Paths.LinkRefusalIsTrue | agent/internal/backup/archive.go:379-397 | and so is the reason a link is refused for |
| Archive.Writer.AddFile | agent/internal/backup/archive.go:89-131 | a file is added with its record unless the limit on members is reached |
| Archive.Writer.AddDir | agent/internal/backup/archive.go:134-146 | a directory is added under its name with one slash, with its record |
| Archive.Writer.AddSymlink | agent/internal/backup/archive.go:153-166 | a link is added with its target, with its record |
| Archive.Writer.AddManifest | agent/internal/backup/archive.go:169-189 | the manifest is added whatever the number of members |
| Archive.Writer.Walk | agent/internal/backup/archive.go:230-294 | the walk of a tree adds exactly its entries in order and returns their records and bytes, or fails exactly when a limit is passed |
| Archive.Writer.WalkAll | agent/internal/backup/archive.go:230-294 | the same for the children of a directory |
| Archive.MembersAppend | agent/internal/backup/archive.go:230-294 | records and content bytes of a list of entries are those of its parts |
| Disk.RenameMovesTree | agent/internal/backup/restore.go:259-301 | a tree renamed is the same tree at its new place, gone from the old one, with everything else untouched |
| Restore.ExtractPrefix | agent/internal/backup/restore.go:304-395 | the loop over entries and the loop setting directory modes leave the disk, counts and verdict of the specified extraction, for every plan of failures |
| Restore.ExtractOne | agent/internal/backup/restore.go:348-388 | one entry of each kind is written, linked, made or refused as specified |
| Restore.ExtractOnlyBelow | agent/internal/backup/restore.go:304-395 | whatever the archive holds and wherever the disk fails, only the target and below changes, but for missing parents |
| SafeExtraction.ExtractionIsHarmless | agent/internal/backup/restore.go:304-395 | whatever the archive holds and wherever the disk fails, every link that is made is relative and leads to the target or below it and no file is larger than a member may be; success only when every entry below the prefix has an acceptable name and is a directory, such a link or such a file |
| SafeExtraction.SwappedInIsHarmless | agent/internal/backup/restore.go:259-301 | so after a site was swapped in, every link in it leads to the site or below it |
| Restore.UnpackSite | agent/internal/backup/restore.go:259-301 | the swap does the renames and removals of the specified one, with its counts, error and reported path |
| Restore.UnpackKeepsOriginal | agent/internal/backup/restore.go:259-301 | over an existing target: on error with no path it is exactly what it was, on error with a path it is intact there, on success it is kept, gone or partly gone at the reported path |
| Restore.UnpackSucceeds | agent/internal/backup/restore.go:259-301 | on success the target holds exactly what extraction made from empty |
| Restore.UnpackIntoNothing | agent/internal/backup/restore.go:259-301 | an absent target is absent again after an error whenever the clean-up removal worked; no path is reported in any case, and after a removal that failed the target is absent exactly when it left nothing there |
| Restore.LeftoverAfterFailedCleanUp | agent/internal/backup/restore.go:259-301 | counterexample: with nothing to move aside and a failing clean-up, an error with no path leaves half-unpacked files |
| RestoreTheorems.NameReadsBack | agent/internal/backup/restore.go:335-341 | the name a walk gives a member is read back as its place below the prefix, with or without a directory's slash |
| RestoreTheorems.PlaceOf | agent/internal/backup/archive.go:348-376 | a relative name of good segments lands at those segments below the root |
| RestoreTheorems.RestoreUndoesBackup | agent/internal/backup/restore.go:304-395 | for every tree of directories, files with permission bits and links inside it, extraction after the walk rebuilds the same paths, contents, targets and modes and nothing more, whatever other members the archive holds; counts and bytes are the tree's |
| RestoredModes.RestoreRebuilds | agent/internal/backup/restore.go:304-433 | the same for trees of any modes: what comes back is the tree with each directory's permission bits and each file's, or 0600 for a file without any |
| RestoredModes.ModesComeBack | agent/internal/backup/restore.go:403-424 | and that is the tree itself exactly when every mode is permission bits only and no file is without any |
| RestoredModes.FileWithoutModeIsGivenOne | agent/internal/backup/restore.go:408-411 | counterexample: a file recorded with mode 0 comes back with mode 0600 |
| RestoreTheorems.ManifestCountsFiles | agent/internal/backup/create.go:329-345 | the files the manifest counts are the regular entries |
| RestoreTheorems.OtherNameIgnored | agent/internal/backup/restore.go:335-341 | a member outside the prefix is passed over |
| RestoreTheorems.OtherSitesIgnored | agent/internal/backup/restore.go:335-341 | extracting one site passes over every member of another, prefixes that extend each other as text included |
| Verify.VerifyMembers | agent/internal/backup/verify.go:153-284 | the one pass and the comparison return the specified report or error |
| Verify.CompareFiles | agent/internal/backup/verify.go:240-258 | the loop over declared files collects missing, wrong size and wrong checksum, skipping those without one |
| Verify.CompareDatabases | agent/internal/backup/verify.go:259-268 | the loop over declared dumps, which compares no size |
| Verify.ScanSeesLast | agent/internal/backup/verify.go:161-221 | after the pass each name but the manifest's is remembered as its last entry |
| Verify.FineMeansManifestHolds | agent/internal/backup/verify.go:153-284 | no problem is reported exactly when the version is readable and, for every declared checksum, the last entry of the name is a file of that size and hash |
| VerifyReports.VerifiedReads | agent/internal/backup/verify.go:153-221 | an archive is judged exactly when its stream is sound, a manifest is among its entries and every entry has an acceptable name, size and place in the count and, if it is a manifest, can be read; the manifest judged is the last, read over those before |
| VerifyReports.RefusalTells | agent/internal/backup/verify.go:153-221 | otherwise the error is that of the first entry that cannot be read, or is about the stream as a whole |
| VerifyReports.ReportTells | agent/internal/backup/verify.go:223-284 | the report lists, of the files and then of the dumps in the manifest's order, which are missing, of another size or of another checksum than the last entry of the name: the first ten and how many more |
| Verify.ExtractMember | agent/internal/backup/restore.go:489-515 | the first entry of the name is written, or an error given |
| Verify.ExtractedIsDeclared | agent/internal/backup/restore.go:489-515 | a dump taken out of a verified archive is the dump declared exactly when the first and the last entry of its name have one checksum, whatever else is repeated |
| Verify.ExtractedMemberIsVerified | agent/internal/backup/restore.go:489-515 | so it always is when no name of the archive is repeated |
| Verify.RepeatedNameEscapesVerification | agent/internal/backup/restore.go:489-515 | counterexample: with a name repeated, an archive verifies and gives back other bytes than declared |
| RestoreRun.EntriesWritten | agent/internal/backup/restore.go:304-395 | after a successful extraction every file entry below the prefix is at its place with its content, whatever the other entries |
| RestoreRun.ExtractRestores | agent/internal/backup/restore.go:304-395 | if the archive verified and extraction succeeded, every file declared with a checksum is in place and hashes to it, repeated names or not |
| RestoreRun.UnpackRestores | agent/internal/backup/restore.go:259-301 | the same of a whole swap, through its tidying up |
| RestoreRun.FindSite | agent/internal/backup/restore.go:518-525 | the first site of the manifest whose domain is the same but for case: no earlier one is |
| RestoreRun.RunRestore | agent/internal/backup/restore.go:55-140 | a restore is refused exactly when the archive is sealed, its checksum differs or it does not verify, which of these is told, and then nothing has changed; otherwise the sites are restored as specified |
| RestoreRun.SitesOneByOne | agent/internal/backup/restore.go:169-201 | the loop over the requested sites, with what it accumulates and where it stops |
| RestoreRun.UnpackKeepsApart | agent/internal/backup/restore.go:259-301 | a swap changes nothing at or below a path apart from its target and the name beside it, succeed or fail |
| RestoreRun.RestoreAnswersAll | agent/internal/backup/restore.go:169-201 | when every site of a restore went through and none lies in another's way, each site the archive holds has every declared file with its size and checksum |
| Create.AddSite | agent/internal/backup/create.go:311-345 | a site is added exactly when its domain is valid, its root readable and the limits hold, with its record and counts; else which of these failed |
| Create.AddDatabase | agent/internal/backup/create.go:357-401 | a dump is added, skipped or refused, with its record |
| Create.WriteSites | agent/internal/backup/create.go:235-257 | the loop over sites accumulates entries, records and totals of exactly the sites so far |
| Create.WriteDumps | agent/internal/backup/create.go:259-276 | the loop over databases, which skips without failing |
| Create.WriteArchive | agent/internal/backup/create.go:209-308 | the archive is finished exactly when every part fits and there is something in it, and holds the sites' entries, the dumps and the manifest of them, last; the error is that of the first site, or else the first dump, that does not fit |
| CreateTheorems.TreesPlaces | agent/internal/backup/archive.go:230-294 | every entry of a walked tree has an acceptable name and a cleaned place of its own below its child's |
| CreateTheorems.BodyPlaces | agent/internal/backup/create.go:209-308 | members of all sites and dumps have distinct acceptable names, none the manifest's, when no two inputs reduce to the same segments |
| CreateTheorems.WrittenIsRead | agent/internal/backup/verify.go:161-221 | the pass reads body and manifest in full exactly when names are acceptable, files within size, members leave room for the manifest and it is not too large |
| CreateTheorems.WrittenArchiveVerifies | agent/internal/backup/create.go:209-308 | a finished archive of trees without backslashes and with names that stay apart verifies with no problem exactly when its members leave room for the manifest, no dump exceeds a member's size and the manifest is not too large |
| CreateTheorems.LargeDumpIsWrittenAndRefused | agent/internal/backup/verify.go:161-221 | counterexample: a request for one dump larger than a member may be is written in full, and the reading refuses the archive as too large |
| ManifestTheorems.SiteIsFound | agent/internal/backup/create.go:329-345 | for a domain that folds to a site's, the record found in the manifest is that site's |
| ManifestTheorems.RecordedPrefix | agent/internal/backup/create.go:209-345 | below the prefix the manifest records for a site lie exactly that site's entries among all the archive's, and the record counts its files and bytes |
| ManifestTheorems.RecordedDump | agent/internal/backup/create.go:357-401 | for every dump the manifest has a record under its engine and name, whose path is that of exactly one entry, with the dump's content, size and checksum |
| ManifestTheorems.RecordedLists | agent/internal/backup/create.go:235-276 | the manifest lists every entry of the sites in order with its name, permissions, target, size and checksum; its totals are those of its sites, and it names the databases there was no dumper for |
| BackupTheorems.ExtractThroughManifest | agent/internal/backup/restore.go:169-395 | extracting a written archive under the prefix its manifest records for a site rebuilds exactly that site's tree, with its counts |
| BackupTheorems.UnpackThroughManifest | agent/internal/backup/restore.go:169-301 | so does swapping it in |
| BackupTheorems.RestoreGivesBack | agent/internal/backup/restore.go:169-201 | a restore of what a backup wrote, of any sites whose targets do not lie in one another's way, leaves at each target exactly the tree that was backed up |
| BackupTheorems.ListsTell | agent/internal/backup/restore.go:169-201 | a restore that went through reports as restored the requested domains the manifest has and as skipped those it has not, each in order |
| BackupTheorems.MovedTells | agent/internal/backup/restore.go:169-201 | and, when old files are kept, as moved aside one path for each restored site whose target was there, in order |
| RestoreCounts.RestoreCounted | agent/internal/backup/restore.go:169-201 | its counts are those of the files the archive holds below the prefixes of the requested sites it has, and of their bytes |
| Segments.SafeSegment | agent/internal/backup/store.go:291-316 | the loop, the trimming and the cut reduce a text as specified |
| Segments.SegmentOfText | agent/internal/backup/store.go:291-316 | any text becomes the stretches between its dots that are not empty, with one dot between and a dash for every character not allowed; dots and dashes are taken off the ends, of the first hundred characters when there are more, and nothing left is "unnamed" |
| Segments.SegmentIsStable | agent/internal/backup/store.go:291-316 | whatever the text, the result is at most 100 allowed characters, without dots or dashes at the ends or doubled dots |
| Segments.SegmentIdempotent | agent/internal/backup/store.go:291-316 | reducing twice is reducing once |
| Segments.DomainIsKept | shared/validate/validate.go:51-81 | a valid domain is left alone exactly when it has at most 100 characters |
| Segments.NumbersAreNoDomain | shared/validate/validate.go:51-81 | a name whose last label is a number, such as an IPv4 address, is no valid domain |
| Segments.SegmentOfDomain | agent/internal/backup/store.go:291-316 | of a valid domain the reduction leaves all, or the first 100 characters without the dots and dashes they end in |
| Segments.DomainsShareExactly | agent/internal/backup/store.go:312-314 | two valid domains share a prefix exactly when what is left of them is one text, which for different domains takes one of more than 100 characters |
| Segments.DomainsStayApart | agent/internal/backup/store.go:291-316 | so different valid domains of at most 100 characters get different prefixes |
| Segments.LongDomainsCollide | agent/internal/backup/store.go:312-314 | counterexample: any label of 49 characters gives two longer valid domains that share one |
| Keys.BackupKeyAccepts | shared/validate/backup.go:127-171 | what is accepted exactly, and the comparison with path.Clean never refuses anything |
| Keys.RefusalIsTrue | shared/validate/backup.go:127-171 | the reason a key is refused for is true of it |
| Keys.KeyStaysUnderRoot | agent/internal/backup/store.go:127-136 | an accepted key becomes the file at its own segments under any root but "/", which takes none |
| Keys.KeysStayApart | agent/internal/backup/store.go:127-136 | two keys never become one file |
| Keys.KeyIsAccepted | agent/internal/backup/store.go:270-283 | for every kind, subject, id and four-digit year, the key is accepted and reads back as its parts, with no prefix or an acceptable one that leaves room |
| Keys.KeyReads | agent/internal/backup/store.go:270-283 | read from its end, the key is the time of day and the id, the day, the subject if there is one, the kind, and the prefix |
| Keys.StampReads | agent/internal/backup/store.go:270-283 | and day and time read as year, month and day, and as hour, minute and second, in these places |
| Keys.KeysTellBackupsApart | agent/internal/backup/store.go:270-283 | equal keys come from the same reduced kind, subject and id and the same second |
| Store.LocalStore.Put | agent/internal/backup/store.go:138-163 | a put makes the directory, copies to the neighbouring name, renames and tidies up as specified, or refuses the key |
| Store.LocalStore.CopyFile | agent/internal/backup/store.go:223-243 | a copy opens its source and writes a file that must not exist |
| Store.PutIsAllOrNothing | agent/internal/backup/store.go:138-163 | whichever call fails, at the archive's name is what was there before or the whole new archive, and no other file changes but the staging one |
| Store.PutSucceedsExactly | agent/internal/backup/store.go:138-163 | over a free staging name it answers success exactly when none of its five calls fails, the directory is there or can be made, and at the archive's name is nothing or one file |
| Store.StagingTakenIsRemoved | agent/internal/backup/store.go:150-156 | a file already at the staging name makes every put fail and leaves the archive as it was; it is removed except exactly when the directory could not be made, the clean-up call failed or something stands below the name |
| Store.StagingLeftByFailedCleanUp | agent/internal/backup/store.go:150-156 | where nothing stood under the staging name, something is left there exactly when it was made there and then the write or the rename failed, and the clean-up call after it too |
| Store.KeyIsNoStaging | agent/internal/backup/store.go:270-283 | no key that Key makes is the staging name of any archive |
| DocumentRoots.DocumentRootAccepts | shared/validate/documentroot.go:48-125 | what is accepted exactly and stored for it; the comparison with path.Clean never refuses anything |
| DocumentRoots.RefusalIsTrue | shared/validate/documentroot.go:48-125 | the reason a document root is refused for is true of what was offered |
| DocumentRoots.StoredRootIsStable | shared/validate/documentroot.go:48-125 | checking what was stored stores the same |
| DocumentRoots.ServedDirectoryIsInsideSite | shared/validate/documentroot.go:153-158 | the served directory is the site's or strictly below it, at the stored segments, and never its log directory |
| DnsConfig.SortedByName | agent/internal/dns/config.go:54-55 | the zones come out in order of name, each as often as it was, and those of one name as they stood |
| DnsConfig.ReadServedZones | agent/internal/dns/provider.go:245-263 | the loop over lines collects the names of zone statements as specified |
| DnsConfig.IncludeReadsBack | agent/internal/dns/config.go:44-117 | the zones read back from the rendered list are exactly those it was made of, in order of name |
| DnsConfig.ServedIsDesired | agent/internal/dns/provider.go:245-263 | a zone is served exactly when it was asked for |
| DnsStatements.ListServesAsAsked | agent/internal/dns/config.go:44-137 | read statement by statement, the list gives each zone exactly its own: slave with its masters as primaries exactly when it is secondary and master without any otherwise; its file; transfers to its own list, else the settings', else none; its notifications; signing exactly when it asks for DNSSEC and is primary |
| DnsMainConf.AddIncludeIsSeen | agent/internal/dns/config.go:196-217 | the added line is found again, and does not make a foreign named.conf look like the panel's own |
| DnsOutcome.AddIncludeKeepsText | agent/internal/dns/config.go:206-217 | the operator's text is kept but for line breaks at its end, and what follows it are blank lines, comments and the line that includes the list |
| DnsReconcile.Provider.CheckAll | agent/internal/dns/apply.go:101-121 | the loop renders and checks every primary zone through its candidate file |
| DnsReconcile.Provider.Install | agent/internal/dns/apply.go:281-291 | artifacts, zone file and ownership, stopping at the first failure |
| DnsReconcile.Provider.InstallChanged | agent/internal/dns/apply.go:132-149 | the loop installs the zones that differ, in whatever order the map is ranged over |
| DnsReconcile.Provider.RollbackZones | agent/internal/dns/apply.go:299-307 | the loop deletes the named zone files, going on after a failure |
| DnsReconcile.Provider.EnsureMain | agent/internal/dns/apply.go:313-381 | each of the cases of named.conf: absent, the panel's and current or stale, somebody else's with or without the line |
| DnsReconcile.Provider.BackupFile | agent/internal/dns/apply.go:461-474 | a copy aside, or nothing to copy, or an error |
| DnsReconcile.Provider.RestoreFile | agent/internal/dns/apply.go:482-497 | the copy put back, or the file removed when there was none |
| DnsReconcile.Provider.RemoveUnserved | agent/internal/dns/apply.go:201-219 | the loop removes the files of zones neither rendered nor wanted |
| DnsReconcile.Provider.Reconcile | agent/internal/dns/apply.go:76-222 | the whole run: forward steps, and on a failure the undoing for how far it came |
| DnsReconcile.Provider.ReconcileList | agent/internal/dns/apply.go:152-222 | its part from the list on |
| DnsTheorems.InstallAllDoes | agent/internal/dns/apply.go:132-149 | after the installing loop the zones counted as written hold the new file, those that held it already and those not asked for are untouched, and any other is as before unless its chown is the call that stopped the loop; the loop succeeds exactly when nothing stopped it |
| DnsTheorems.EnsureDoes | agent/internal/dns/apply.go:313-381 | what ensureMainConf changes, and that it reports no backup and no creation exactly when it had nothing to change |
| DnsTheorems.EnsuredIsLeftAlone | agent/internal/dns/apply.go:313-381 | after it, named.conf is one it would leave alone |
| DnsTheorems.UndoRestores | agent/internal/dns/apply.go:76-190 | when the undoing itself does not fail: the list is byte for byte as before, and named.conf too unless the configuration was refused and named.conf had needed no change, when it is deleted; each zone counted as written has no file, and every other zone's file is as before but for the one, if any, whose chown stopped the loop |
| DnsTheorems.RefusalDeletesNamedConf | agent/internal/dns/apply.go:175-190 | counterexample: a named.conf that already includes the list is deleted when the configuration is refused |
| DnsTheorems.NewFileOutlivesFailure | agent/internal/dns/apply.go:281-307 | after such a failed run a zone that was to change holds its new file exactly when its own chown, after its rename, is what stopped the loop over the zones |
| DnsTheorems.FailedChownLeavesZone | agent/internal/dns/apply.go:143-147 | a run of that kind: a zone file that could not be given away stays behind |
| DnsTheorems.SuccessLeavesDesired | agent/internal/dns/apply.go:76-222 | after a success list and primary zone files are those asked for, secondaries' are untouched and, if no call failed, the zones no longer wanted have no file |
| DnsOutcome.OutcomeTells | agent/internal/dns/apply.go:76-222 | what a run that went through reports, from any host: named.conf created exactly when there was none, the include added exactly when there was a foreign one without it, changed exactly the primary zones whose files differed, removed only zones served and not wanted, and all of them if no call failed |
| DnsOutcome.EnsureTells | agent/internal/dns/apply.go:313-381 | the same of ensureMainConf alone |
| DnsOutcome.RemovedTells | agent/internal/dns/apply.go:205-222 | the same of the loop that removes files |
| DnsAcceptance.DoneExactly | agent/internal/dns/apply.go:76-190 | a run goes through only when named is there and, where a zone asks for DNSSEC, can sign, every primary zone passes its check, every secondary has a master and the whole configuration loads; and, if no call fails, whenever this is so |
| DnsAcceptance.NothingStale | agent/internal/dns/apply.go:261-297 | after it no journal or signed copy is left of a changed zone, no file at all of a removed one and, if no call failed, no candidate file |
| DnsAcceptance.ZonesAreAsRendered | agent/internal/dns/apply.go:76-190 | and each primary zone's file holds what that zone renders to, of two of one name the later |
| DnsTheorems.SameResultEverywhere | agent/internal/dns/apply.go:76-222 | two hosts asked for the same end with the same list and zone files, and still have no file of an unserved zone |
| DnsTheorems.ReconcileIsIdempotent | agent/internal/dns/apply.go:76-222 | asking again after a success installs, removes and changes nothing but backups, whatever failed the first time |
| DnsTheorems.SettledStays | agent/internal/dns/apply.go:76-222 | the same for any host that already holds what is asked for |
| ReverseDns.ReverseZone | shared/validate/dns.go:485-522 | the loops over octets and nibbles build the zone of an aligned network, and refuse others |
| ReverseDns.ReverseName | shared/validate/dns.go:560-571 | the full name of an address: of four bytes, or of sixteen that stand for four, octet by octet, else nibble by nibble |
| ReverseDns.ReverseNibbles | shared/validate/dns.go:564-569 | the loop lists both halves of every byte from the last |
| ReverseDns.NameReads | shared/validate/dns.go:560-571 | label by label: the four bytes in decimal from the last, or the low and high half of every byte from the last as hexadecimal digits, and the family's two labels |
| ReverseDns.InsideByLabels | shared/validate/dns.go:540-543 | for an aligned network, containing an address is sharing the labels the network fixes with the address as To4 gives it; where the network itself stands for four bytes, the halves of these |
| ReverseDns.InZoneIffInside | shared/validate/dns.go:485-571 | for every address and every network that leaves a label open, the full name ends in a dot and the zone exactly when the address is in the network and the network does not stand for one of four bytes (section 3.5 of RFC 1035, section 2.5 of RFC 3596) |
| ReverseDns.ReversePointerName | shared/validate/dns.go:531-557 | the pointer, or which of the refusals |
| ReverseDns.PointerExactly | shared/validate/dns.go:531-557 | a pointer is given exactly for the addresses of an aligned network that is neither a single address nor stands for one of four bytes, and with the zone it is the full name; which refusal is given otherwise |
| ReverseDns.SingleAddressIsRefused | shared/validate/dns.go:551-556 | counterexample: an IPv6 address is refused in its own /128 although zone and containment hold |
| ReverseDns.MappedNetworkIsRefused | shared/validate/dns.go:507-553 | in every aligned network that stands for one of four bytes each address it contains is refused, since zone and name are of different families |
| ReverseDns.MappedAddressInTwoNetworks | shared/validate/dns.go:540-563 | counterexample: ::ffff:192.0.2.1 is refused in ::ffff:192.0.2.0/120 and has a pointer in 192.0.2.0/24 |
| ReverseDns.FullNamesDiffer | shared/validate/dns.go:560-571 | two addresses have one full name only if To4 makes them the same |
| ReverseDns.PointersDiffer | shared/validate/dns.go:531-557 | nor otherwise one pointer in one network |
| CronFields.FieldMatchesOne | shared/validate/cron.go:375-382 | the loop over the parts of a field finds whether one matches |
| CronMeanings.FieldMeans | shared/validate/cron.go:231-417 | a field written as a list of stars, values and ranges of numbers and names, with or without steps, is accepted exactly when each is within bounds, in order and with a step the field allows, and then matches exactly the values from each part's first on, a step at a time, up to its last |
| CronMeanings.FieldsAreUsual | shared/validate/cron.go:207-227 | the five fields of a schedule are of the kind that is asked for there |
| CronMeanings.NamesInOrder | shared/validate/cron.go:207-227 | the names of the months stand for 1 to 12 and those of the days for 0 to 6 from Sunday on; no other field has names |
| CronFields.EveryFieldMatches | shared/validate/cron.go:231-278 | every accepted field matches at least one value within its bounds |
| CronFields.MatchedInRange | shared/validate/cron.go:384-417 | and none outside them |
| CronFields.OnePartMatchesEverything | shared/validate/cron.go:362-417 | an accepted field of one part matches everything exactly when its step is absent or 1 and it is a star or the range from the first value to the last |
| CronFields.UnrestrictedLists | shared/validate/cron.go:362-382 | a list counts as unrestricted by its first part alone, which has to start as a star stepped by a number starting with 1; it matches what its first part or the rest matches |
| CronFields.ListMatchesEverything | shared/validate/cron.go:362-417 | an accepted list matches everything exactly when it matches the first value and, after the last value of each part without a step and after every value of a stepped one, the next |
| CronFields.UnrestrictedSteps | shared/validate/cron.go:363-365 | so a stepped star counts as unrestricted exactly when its step starts with a 1, and matches everything exactly when the step is 1 |
| CronSchedule.ScheduleIsIdempotent | shared/validate/cron.go:151-203 | a normalised schedule is accepted and unchanged, and is five accepted fields with single spaces |
| CronSchedule.ShorthandsAreNormal | shared/validate/cron.go:195-203 | the expansions of the shorthands are in normal form |
| CronDays.ShorthandsMean | shared/validate/cron.go:195-203 | and fire exactly at the first minute of every hour, day, Sunday, month and year, as they are named |
| Calendar.DateOfNumber | shared/validate/cron.go:320-328 | counting days one by one and the closed form of the Gregorian calendar agree |
| Calendar.NumberOfDate | shared/validate/cron.go:320-328 | every valid date is the date of its day number |
| NextRuns.NextRun | shared/validate/cron.go:312-330 | the loop returns the least whole minute strictly after the given second that matches, before the limit; none exactly when none does or the schedule is refused |
| NextRuns.FieldsOf | shared/validate/cron.go:313-317 | an accepted schedule is five accepted fields |
| CronDays.EitherDay | shared/validate/cron.go:336-360 | with both day fields restricted a schedule fires exactly when it would with either of them open |
| CronDays.OneDay | shared/validate/cron.go:336-360 | with one of them open, exactly on the days the other matches |
| CronDays.SundayTwice | shared/validate/cron.go:363-373 | Sunday is both 0 and 7 |
| CronDays.FridayComesFirst | shared/validate/cron.go:312-360 | an instance: from 9 January 2025 the next run of "0 0 13 * 5" is Friday the 10th, before Monday the 13th |
| NextRunTheorems.FiresExactly | shared/validate/cron.go:312-360 | the search finds a time exactly when a day every year has satisfies the rules, or 29 February does and one with a matching time lies ahead in the four years |
| NextRunTheorems.DatesExactly | shared/validate/cron.go:332-360 | some date of the calendar satisfies the rules exactly when such a day or 29 February does |
| NextRunTheorems.SearchIsComplete | shared/validate/cron.go:312-330 | with no skipped leap year within the four years, the search is empty exactly when the schedule can never fire |
| NextRunTheorems.LeapDayIsMissed | shared/validate/cron.go:320-321 | counterexample: from March 2096 a schedule for 29 February is reported as never firing |
| NextRunTheorems.SteppedDays | shared/validate/cron.go:332-365 | a day-of-month step such as */10 leaves every day open when the weekday is open, though the field matches every day only for step 1 |
| CryptEncoding.WriteGroup | shared/crypt/sha512crypt.go:278-284 | the loop appends six bits a character, the low ones first |
| CryptEncoding.Encode | shared/crypt/sha512crypt.go:265-274 | the loop over the table appends every group and the last byte's two characters |
| CryptEncoding.GroupReadsBack | shared/crypt/sha512crypt.go:278-284 | a group reads back as its number |
| CryptEncoding.EachByteOnce | shared/crypt/sha512crypt.go:254-262 | every byte but the last stands in exactly one place of the table |
| CryptEncoding.EncodingReadsBack | shared/crypt/sha512crypt.go:265-274 | every 64-byte digest becomes 86 characters of the alphabet that decode to it |
| CryptEncoding.EncodingIsInjective | shared/crypt/sha512crypt.go:265-274 | two digests are never written alike |
| CryptEncoding.EncodingsExactly | shared/crypt/sha512crypt.go:265-274 | a text of 86 characters of the alphabet encodes a digest exactly when its last is one of the first four |
| Sha512Crypt.Stretch | shared/crypt/sha512crypt.go:236-246 | the loop repeats a digest to the length |
| Sha512Crypt.StretchedAt | shared/crypt/sha512crypt.go:236-246 | byte i of a stretched digest is byte i, modulo its length, of the digest |
| Sha512Crypt.AddMaterialOfB | shared/crypt/sha512crypt.go:177-180 | the loop and the remainder add the specified part of digest B |
| Sha512Crypt.AddBits | shared/crypt/sha512crypt.go:184-190 | the loop adds a block for every bit of the length, the low one first; BitsAreBlocks says which |
| Sha512Crypt.BitsAreBlocks | shared/crypt/sha512crypt.go:184-190 | block i is digest B exactly when bit i of the length is 1 and the password otherwise, for as many blocks as the length has bits |
| Sha512Crypt.MaterialIsStretched | shared/crypt/sha512crypt.go:177-180 | the digest-B material is B stretched to the password's length exactly when that is no positive multiple of 64, and 64 bytes short there |
| Sha512Crypt.Crypt | shared/crypt/sha512crypt.go:164-233 | the whole computation, loop by loop, is the specified one, over any digest function of 64 bytes |
| Sha512Crypt.CryptedIsDefined | shared/crypt/sha512crypt.go:164-233 | for every password the digest is that definition's with the bytes of digest B the code adds in place of those it asks for |
| CryptDefinition.BitsFit | shared/crypt/sha512crypt.go:184-190 | a length has that many bits and no more: the highest is 1 and the length is below the next power of two |
| Sha512Crypt.CryptedAsSpecified | shared/crypt/sha512crypt.go:164-233 | for those lengths it is the algorithm as SHA-crypt defines it, written out without any of the functions above: repetitions, bits, rounds and all |
| CryptHash.HashWith | shared/crypt/sha512crypt.go:125-155 | each refusal, and the hash printed from rounds, shortened salt and digest |
| CryptHash.PrintedReadsBack | shared/crypt/sha512crypt.go:141-154 | a printed hash parses to exactly its rounds, salt and digest text, and passes the shape check with and without its scheme |
| CryptHash.HashReadsBack | shared/crypt/sha512crypt.go:125-155 | a hash made for a password is accepted as one and gives back its rounds, its salt and the digest computed |

## Left out

- Archive.Writer.AddFile: a file that changes length while it is read, and errors opening or reading it, are not modelled; contents are values.
- Archive.Writer.Walk: the records are in the order of the walk; the source sorts them by path afterwards.
- Create.WriteArchive: cancellation, progress reports, the bound on the compressed size and the sorting of dumps and skipped names; how a dump is taken is an input.
- RestoreRun.RunRestore: downloading, the detection of a sealed archive and the resolution of a document root through links are inputs; replaying dumps is a foreign call; the names in the archive that were not asked for, which the source also lists as skipped, are left out. The source's second test of the manifest's version can never fire and is proved so.
- DnsConfig.IncludeReadsBack: the escaping of `%q` is left out; the hypothesis is a list of names of printable ASCII without quotes and backslashes, which every domain name is, and directories and policies without line breaks.
- DnsReconcile.Provider.Reconcile: zone rendering, the checks of named-checkzone and named-checkconf, and the body of a fresh named.conf are functions handed in; files are told apart by what they are for instead of by path; the reload, which changes no file, and the sorting of the reported names are left out.
- ReverseDns.ReverseZone: parsing of addresses and networks is left out; an address is its bytes, a network an address and a number of bits.
- CrontabJobs.CommentReadsBackExactly: its condition speaks of the comment's text, the only thing the reading depends on.
- CronTable.EntryIsRead: of cron itself only what crontab(5) says of blanks, comments, fields and commands is modelled, not settings, percent signs in the account's own lines or what cron makes of a name such as @daily.
- NextRuns.NextRun: time zones, daylight saving and years before 1; times are UTC minutes.
- NginxTokens.AcceptedStaysInside: its condition is sufficient, and nginx's own refusals of a block, beyond what follows a quoted word, are not modelled.
- Nginx.CheckBalance: offsets count characters, the source's count bytes.
- Real cryptography, gzip, tar and JSON layouts: an ideal AEAD, a digest function, a sequence of entries and an abstract encoding.
- A source that grows while it is read, the only way to the sealed reader's error for trailing data.
- Symbolic links are nodes that are never followed; ownership, umask, timestamps and fsync are left out.
- Case folding and lower-casing of letters beyond ASCII, but for the few that fold to ASCII ones.
- The crontab file itself is written by a call outside the model; so are the S3 and SFTP destinations, child processes, database tools and service managers.
- Get, Stat and Delete of a local destination, retention, the panel's own sealed backup, and the remaining validators, which would only add easy members.
