# Validator fire-drill portal: a verified model

This project models the parts of the submission portal where a mistake would be silent, and proves what
they promise. The model follows the code branch by branch; where a comment in the repository promises
something else, the code is what is modelled and the difference is a lemma.

| module | models |
|---|---|
| `Streams` | byte streams, how they end, slices of them |
| `Windowed`, `WindowedTheorems` | the windowed antivirus scan of one stream |
| `Clamd` | the INSTREAM session with clamd and the reading of its reply (the protocol of clamd(8)) |
| `Archive` | archive acceptance, and the second walk over an accepted archive |
| `ScanArchive` | the antivirus pass over a whole submission under one budget |
| `Submission` | the submit handler from request to record, and the rescore of a stored archive |
| `Progress` | the progress tracker and the counting seeker |
| `Timestamps` | the timestamp prefilter and the regular expression behind it |
| `LogWindow`, `LogWindowTheorems` | the log-window scan |
| `Scoring` | the rubric |
| `Records` | the three stores and the two admin operations on them |
| `ScoreRuns` | interleaved use of the score store, and the rescore loop |
| `AtomicFile` | crash steps of the atomic file write |
| `Nonces` | single-use login nonces |

`dafny verify dfyconfig.toml` checks everything.

How the outside world appears: a stream is its bytes, whether it breaks after them, and whether it reports
its ending together with the last byte or in a call of its own. The gzip reader does either: the second when
the end falls behind a flushed window of 32 KiB or behind the header of a further member. A scanner is any
choice, call by call, of how much of its window it reads and what it answers. Clocks, random ids, cancelled
contexts and failing stores are parameters. gzip, `time.Parse`, metadata and file-name parsing and the
signature check are given functions.

## Main results

- **Scanning in windows is scanning the stream.** A scanner that recognises a signature inside a window makes
  the windowed scan recognise it anywhere in the covered prefix, as long as the signature is no longer than
  the seam plus one byte (`WindowsMissNothing`); the seam is min(overlap, windowSize - overlap), 1 MiB by
  default, and the bound is exact (`SeamIsTight`).
- **Nothing unvetted is stored.** Every run of the handler that reaches the store had clean metadata, every log
  visited under one conserved budget and no detection; recorded complete coverage means every byte of every
  log was in an answered window (`ServeHTTP`, `StoredArchivesWereScanned`).
- **Every interleaving shows the latest handle.** The progress table is, for every history of calls, what each
  operator's latest handle published and nothing else (`TableShowsLatestHandle`, `OthersAreInert`).
- **The prefilter refines the regular expression**, whose matches are spelled out and shown to be unambiguous
  (`PrefilterRefinesRegexp`, `TimestampsExactly`, `TimestampFacts`).
- **A record's window is read off the lines of the log**: coverage and credit follow from the timestamps that the
  plain expression finds in them, whatever their order
  (`RecordedWindowSays`, `RecordedCreditSays`, `RecordIgnoresLineOrder`).
- **The rescore reproduces the portal's records**, with looser limits skips none of them, leaves up-to-date records
  alone, keeps marks, and can be interrupted and repeated
  (`RescoreReproduces`, `LooserRescoreSkipsExactly`, `RescoreChangesNothing`, `RescoreCanResume`).

Promises that turned out false, each with a concrete case and the exact condition under which it holds:

- an infected answer is dropped when the drain behind it meets a source failure
  (`InfectedLost`, `InfectedReportedExactly`; scanners that read to the end are always heard, `ThoroughScannerIsHeard`,
  and ClamdScanner is such a scanner, `Clamd.ServeWindow`);
- scoring/score.go:67-77 says that a truncated scan is never covered; the code does not withdraw coverage
  (`CoveredThoughTruncated` at the limits in force, `CoveredAndTruncatedExactly`);
- a broken log without a long line passes as whole exactly when it breaks at the scan budget and its reader reports
  the break in a read of its own, as the gzip reader does behind a flushed window, of which the 8 GiB are a multiple
  (`FailureUnnoticed` at the limits in force, `FailureUnnoticedExactly`);
- with the log size limit at the top of int64 every archive is rejected
  (`RejectedAtTheTop`, `LooserLimitsAcceptExactly`, `LargestLimitRejectsAll`);
- a complete antivirus pass means that every byte was scanned, but not the other way round: an empty log reached with
  the budget just spent makes the pass incomplete (`EmptyLogForfeits`, `HealthyPass`);
- the third time tier is up to 2 ns short of three quarters (`ThirdTierFallsShort`, `TiersFollowTheRubric`);
- a mark entered while a rescore runs is lost (`MarkLost`; kept exactly when the mark is still the one read at
  the start, `MarkKeptExactly`, which the last step to touch the record in between decides, `MarkKeptByLastTouch`);
- a deleted score comes back, either from a scoring request that read it before the delete (`ScoreResurrected`) or
  from a rescore that read its archive before the delete (`ScoreRescoredBack`); with fresh ids it stays deleted
  exactly when neither kind of write follows the delete (`StaysDeletedExactly`, `BackExactly`).

## Model

| member | source | states |
|---|---|---|
| Windowed.TailBuffer.Write | clamav/windowed.go:230-242 | the buffer is always the last `size` bytes of everything written to it |
| Windowed.Source.Read | clamav/windowed.go:210-216 | whatever the stream returns, a failed read is remembered and nothing else is |
| Windowed.Source.Ended | clamav/windowed.go:148-170 | complete exactly when the stream ended by itself; a failing probe is not an ending |
| Windowed.Window.Pull | clamav/windowed.go:107-135 | tail, peeked byte and fresh bytes read as one stretch of the stream, with the exact reads that meet a source failure |
| Windowed.Serve | clamav/windowed.go:115-135 | the answer counts exactly when neither the scanner's own reads nor the drain decide otherwise |
| Windowed.PlayWindow | clamav/windowed.go:107-137 | one round credits exactly the fresh bytes and carries the last min(overlap, fresh) of them |
| Windowed.ScanStream | clamav/windowed.go:76-152 | for every split of the reads the result and the bytes handed to the scanner are those of the offset-only specification |
| WindowedTheorems.WindowsTile | clamav/windowed.go:90-146 | without the repeated bytes the answered windows concatenate to the first Coverage.Bytes bytes; no window is too large or without a fresh byte |
| WindowedTheorems.PiecesAreWhole | clamav/windowed.go:18-25 | every piece of the covered prefix up to seam + 1 bytes long lies in one answered window |
| WindowedTheorems.SeamIsTight | clamav/windowed.go:182-191 | from the third window on some piece of seam + 2 bytes lies in none |
| WindowedTheorems.WindowsMissNothing | clamav/windowed.go:18-25 | infected exactly when the signature occurs in the covered prefix |
| WindowedTheorems.HealthyScan | clamav/windowed.go:41-50 | coverage is min(length, Budget field), 32 GiB when that is not positive; complete exactly when length <= budget |
| WindowedTheorems.WindowPlaces | clamav/windowed.go:104-151 | where every window begins and ends, by the three settings and their defaults alone |
| WindowedTheorems.ErrorsExactly | clamav/windowed.go:90-125 | an error exactly for a done context at the top of a round or a refusal before any failed read; a failed scan claims nothing |
| WindowedTheorems.CompleteExactly | clamav/windowed.go:148-170 | complete exactly when clean, unbroken and fully covered |
| WindowedTheorems.SourceFailureIsPartialCoverage | clamav/windowed.go:70-75 | errors come only from the scanner or the context; a broken source is never complete and loses at most the window in flight |
| WindowedTheorems.InfectedReportedExactly | clamav/windowed.go:130-140 | an infected answer is reported exactly when the drain behind it does not fail |
| WindowedTheorems.InfectedLost | clamav/windowed.go:130-133 | a concrete scan that drops a detection |
| WindowedTheorems.ThoroughScannerIsHeard | clamav/windowed.go:115-140 | with scanners that read to the end, infected exactly when some window was called infected |
| WindowedTheorems.ScanIsDetermined | clamav/windowed.go:127-137 | stream, settings and answers determine the whole scan |
| Clamd.FramingRoundTrip | clamav/clamd.go:98-122 | for every split of the input, frames plus terminator decode to the input and frames alone to nothing |
| Clamd.CutFrame | clamav/clamd.go:100-109 | a session cut anywhere inside a chunk decodes to nothing |
| Clamd.DecodePrefix | clamav/clamd.go:119-122 | bytes after the terminator change nothing |
| Clamd.SendChunk | clamav/clamd.go:100-109 | a sent chunk extends the frames by one; a failed one leaves an undecodable session |
| Clamd.Scan | clamav/clamd.go:96-172 | an answer stands for the whole input, and nothing but the whole input ever decodes |
| Clamd.ScanWindow | clamav/clamd.go:98-128 | reading a window it is one call of a scanner that answers only at the window's end and after no failed read; an answer, or a stream the daemon takes for whole, is exactly the window |
| Clamd.ServeWindow | clamav/windowed.go:115-135 | ClamdScanner with the drain behind it is served as some thorough scanner is, and no answer is lost to the drain |
| Clamd.CleanExactly | clamav/clamd.go:136-172 | one reply line alone, white space trimmed, counts as clean |
| Clamd.DetectionRoundTrip | clamav/clamd.go:153-169 | the named signature is the one reported, unless it is a limit notice, which is no verdict |
| Clamd.InfectedExactly | clamav/clamd.go:136-172 | exactly the replies that report a detection, and the signature each one carries |
| Clamd.LimitNoticeIsRefused | clamav/clamd.go:156-168 | a reply naming Heuristics.Limits.Exceeded, whatever follows, is no verdict |
| Clamd.Be32RoundTrip | clamav/clamd.go:102-104 | lengths are sent in network byte order and read back as they are |
| Archive.ReadBounded | submission/archive.go:262-279 | count, magic and error of an entry, told apart at the limit, with the overflow at the largest limit |
| Archive.CheckEntry | submission/archive.go:135-187 | an entry passes exactly when its name is new and it meets the rules for its kind |
| Archive.ValidateArchive | submission/archive.go:107-197 | accepted exactly when the order-free rules hold and nothing was cancelled, with the metadata and the sentry flag of the archive; a refusal names something that is wrong |
| Archive.AcceptableExactly | submission/archive.go:20-95 | an accepted archive is validator log and metadata, with or without a sentry log, in any order, gzip magic and limits (2 GiB, 64 KiB by default) included |
| Archive.AcceptanceIgnoresOrder | submission/archive.go:80-95 | any order of the same entries is accepted and described alike |
| Archive.LogWalk.Next | submission/archive.go:219-249 | each call yields the next log entry of the walk, its end, or its error, a stream that is not gzip included |
| Archive.SecondWalkAgrees | submission/archive.go:199-218 | an accepted archive's logs are visited once each, in full, the sentry log exactly when reported |
| Archive.LargestLimitRejectsAll | submission/archive.go:262-263 | with MaxLogSize at the top of int64 no archive is accepted |
| Archive.LooserLimitsAcceptExactly | submission/archive.go:107-197 | what was accepted is accepted under looser limits exactly when the log limit stays below the top of int64 |
| Archive.RejectedAtTheTop | submission/archive.go:262-263 | an archive accepted just below the top of int64 and rejected at it |
| ScanArchive.ScanLog | portal/submit.go:516-525 | a log is scanned under exactly what is left, and spends no more |
| ScanArchive.OnLog | portal/submit.go:510-536 | the callback keeps budget, coverage and completeness in step; at zero it scans nothing |
| ScanArchive.Run | portal/submit.go:487-546 | metadata first, then the logs in the order of the walk; a clean verdict covers them all, and a detection, an unreadable log or a failure is the first one met |
| ScanArchive.BudgetConserved | portal/submit.go:478-483 | no number of logs overspends the one budget |
| ScanArchive.SpentBudgetIsIncomplete | portal/submit.go:511-514 | a log reached with the budget spent is skipped and makes the pass incomplete |
| ScanArchive.CleanPass | portal/submit.go:505-546 | a clean pass called no window infected; a complete one had every byte of every log in an answered window |
| ScanArchive.CleanCompletePassHidesNothing | portal/submit.go:468-476 | no recognisable signature up to 1 MiB + 1 byte hides in a completely covered log |
| ScanArchive.HealthyPass | portal/submit.go:500-536 | a healthy pass covers min(total length, budget), 32 GiB when that is not positive; complete exactly when the logs fit and none is first reached with the budget spent |
| ScanArchive.EmptyLogForfeits | portal/submit.go:511-514 | an empty log behind one that spends the budget to the byte leaves the pass incomplete |
| Submission.ScanWindows | portal/submit.go:431-452 | the windows recorded are those of the visited logs |
| Submission.AutomaticRecordsAreSane | portal/submit.go:331-373 | every automatic record fits the rubric, and a record without checks claims and earns nothing |
| Submission.AutomaticRecordSays | portal/submit.go:355-373 | each window is that of the whole entry of its name, an absent sentry log has the zero check, and the time score is that of the recorded instant |
| Submission.ScanVisit | scoring/checks.go:145-147 | the check of one visited log is the one its lines determine, under both limits |
| Submission.RecordedWindowSays | scoring/checks.go:156-208 | the window on record for either log follows from the timestamps the plain expression finds in its lines |
| Submission.RecordedCreditSays | scoring/score.go:104-134 | and so does the credit: 8 or 4 for the validator log, 4 or 2 for the sentry log |
| Submission.RecordIgnoresLineOrder | scoring/checks.go:175-177 | the same plain lines in any order give the same window on record, for either log |
| Submission.RecordedFromLines | scoring/checks.go:145-222 | from the bytes of a log up to 8 GiB, line by line, to the record: detected, covered to within a minute, truncated, bytes scanned |
| Submission.Screen | portal/submit.go:164-248 | passes exactly the requests with a valid name, archive and metadata and a matching identity; 405, 401, 403 and 400 each for their cause alone |
| Submission.Vet | portal/submit.go:250-291 | goes on only after a clean pass; 503, 422 and 400 for the first cause met, metadata before logs |
| Submission.Score | portal/submit.go:325-381 | writes the automatic record, or the unscored one, and fails nothing |
| Submission.ServeHTTP | portal/submit.go:164-407 | every refusal answers with the status of its cause; only screened and vetted uploads reach the store; before that nothing is written; a success stores, scores and records at one instant |
| Submission.CoverageSays | portal/submit.go:250-291 | no coverage on record without a scanner; else the bytes of all logs, complete when each of them was |
| Submission.StoredArchivesWereScanned | portal/log.go:38-46 | recorded complete coverage means every log entry was decompressed to its end inside answered windows |
| Submission.RescoreOne | cmd/rescore/main.go:146-202 | the automatic record of the stored archive at the recorded time, a skip only when there is none |
| Submission.RescoreAgrees | cmd/rescore/main.go:144-145 | all options that accept an archive give it the same automatic record |
| Submission.RescoreReproduces | cmd/rescore/main.go:184-201 | rescoring an entry reproduces what the portal recorded for it |
| Submission.LooserRescoreSkipsExactly | cmd/rescore/main.go:48 | limits at least the portal's skip no archive the portal scored and score it the same, exactly when both stay below the top of int64 |
| Submission.RescoreChangesNothing | cmd/rescore/main.go:99-134 | where records are the automatic ones of their archives, marked or not, a rescore leaves the store as it is and reports no changed total |
| Progress.ProgressTracker.Begin | portal/progress.go:124-141 | issues the next generation and replaces the entry |
| Progress.ProgressTracker.Get | portal/progress.go:147-164 | returns the live entry, or evicts a stale one |
| Progress.ProgressTracker.EnterPhase | portal/progress.go:170-174 | one step of the table |
| Progress.ProgressTracker.Add | portal/progress.go:177-181 | one step of the table |
| Progress.ProgressTracker.Done | portal/progress.go:187-198 | one step of the table |
| Progress.TableShowsLatestHandle | portal/progress.go:124-220 | in every history the entry is what the operator's latest handle published since its last phase, present exactly while that handle is in flight |
| Progress.LatestGenIsHighest | portal/progress.go:81-85 | the token shown is the operator's highest and nobody else's |
| Progress.OthersAreInert | portal/progress.go:67-73 | striking out all calls of superseded and foreign handles changes nothing shown |
| Progress.GoneUntilBegun | portal/progress.go:200-204 | only a new Begin brings a finished or evicted entry back |
| Progress.LeavesExactly | portal/progress.go:147-198 | an entry leaves exactly when its own handle is done or its own operator polls after more than five silent minutes |
| Progress.LastHeardExactly | portal/progress.go:205-220 | silence is counted from the last Begin, phase or bytes of that handle |
| Progress.ShownSincePhase | portal/progress.go:166-181 | since a handle's last phase: that phase, its total and start, and the sum of its own bytes |
| Progress.ShownSinceBegin | portal/progress.go:124-141 | before the first phase: no phase, no total, and the handle's own bytes |
| Progress.CountingSeeker.Read | portal/progress.go:318-325 | one read step of the transfer: offset and bytes shown advance together, within the file |
| Progress.CountingSeeker.Seek | portal/progress.go:331-339 | one seek step of the transfer, refused seeks included |
| Progress.BytesFollowTheFile | portal/progress.go:307-311 | through any reads, rewinds and foreign calls the bytes shown are the offset and the total the file size while the entry is live; a read that returns bytes leaves them within the total |
| Progress.NeverPastTotal | portal/submit.go:299-312 | as long as no seek goes past the end of the file the bytes shown never pass the total |
| Timestamps.IndexTimestamp | scoring/checks.go:282-294 | the first candidate position, or -1 exactly when there is none |
| Timestamps.MatchesMoves | scoring/checks.go:277-281 | a match moves with its text |
| Timestamps.MatchesInPrefix | scoring/checks.go:87-94 | a match does not look past its end |
| Timestamps.TimestampFacts | scoring/checks.go:85 | the expression matches exactly those texts; no start has two ends, and each is a candidate |
| Timestamps.TimestampsExactly | scoring/checks.go:60-85 | what the expression matches: date-time, optional fraction, Z or an offset with or without a colon, and where it ends |
| Timestamps.AllSpellings | scoring/checks.go:60-70 | every spelling the layouts have is a timestamp to its end: any fraction or none, Z or an offset with or without a colon |
| Timestamps.DateTimeShape | scoring/checks.go:85 | what stands at each of the nineteen places of a date-time |
| Timestamps.PrefilterRefinesRegexp | scoring/checks.go:256-281 | no candidate means no match; from the first candidate on the leftmost match is the whole text's |
| Timestamps.PrefilterChangesNothing | scoring/checks.go:241-271 | the prefiltered three passes equal the three passes with the plain expression |
| Timestamps.FindTimestamp | scoring/checks.go:263-267 | trying every start in turn finds the leftmost match of the expression |
| Timestamps.ParseLeadingTimestamp | scoring/checks.go:241-271 | a line's instant is that of the three passes with the plain expression |
| Timestamps.LineTimeExactly | scoring/checks.go:224-271 | a first field of at most 64 bytes, else the leftmost timestamp of the first 256 bytes, else the JSON fallback |
| Timestamps.FieldIs | scoring/checks.go:242-245 | the first field ends at the first blank or tab |
| LogWindow.NextLine | scoring/checks.go:164-170 | one line of the scan, or the cap, or the end |
| LogWindow.ScanLines | scoring/checks.go:167-185 | earliest and latest of the recognized timestamps of the delivered lines |
| LogWindow.ScanLogWindow | scoring/checks.go:156-222 | the one check the log's lines and the limits determine: extremes, coverage as two timestamps beyond the graced ends, truncation, bytes scanned |
| LogWindow.CheckIsDetermined | scoring/checks.go:156-222 | a log has only one check |
| LogWindowTheorems.TruncatedExactly | scoring/checks.go:187-195 | truncated exactly when content is left past the budget, a line reaches the cap or a failure is seen |
| LogWindowTheorems.FailureUnnoticedExactly | scoring/checks.go:215-222 | a broken log without a long line passes as whole exactly when it breaks at the budget in a read of its own |
| LogWindowTheorems.FailureUnnoticed | scoring/checks.go:215-222 | a log that does, at 8 GiB and 1 MiB and with the parser of the lines |
| LogWindowTheorems.CoveredAndTruncatedExactly | scoring/checks.go:187-208 | covered and truncated together exactly when the delivered timestamps span the window and the log goes on, breaks or has a long line |
| LogWindowTheorems.CoveredThoughTruncated | scoring/checks.go:201-208 | for any exercise and any two timestamps that reach its window, a log at the limits in force whose check is covered and truncated |
| LogWindowTheorems.CoverageOnlyGrows | scoring/checks.go:175-183 | more lines never take coverage back and only widen the window |
| LogWindowTheorems.SplitJoin | scoring/checks.go:164-170 | splitting a text joined from plain lines gives the lines back |
| LogWindowTheorems.WholeLines | scoring/checks.go:164-170 | a text that ends in a break gives its lines back, whether "\n" or "\r\n" ended them |
| LogWindowTheorems.UnendedLine | scoring/checks.go:164-170 | a last line without a break is delivered too |
| LogWindowTheorems.OverlongLine | scoring/checks.go:55-58 | a line without a break within the cap ends the scan where it starts |
| LogWindowTheorems.CheckFromLines | scoring/checks.go:164-208 | without a long line and within the budget the lines decide the check, with a grace of one minute |
| LogWindowTheorems.ScannedBytesSay | scoring/checks.go:194-195 | the bytes scanned: what the budget lets through, or up to the cap of the first long line |
| LogWindowTheorems.LineOrderDoesNotMatter | scoring/checks.go:175-177 | any order of the same lines gives the same check |
| Scoring.TiersFollowTheRubric | scoring/score.go:42-56 | at most 2 ns short, and the only instants scored differently from exact quarters |
| Scoring.TiersNeverOverflow | scoring/score.go:42-56 | differences saturate and no tier bound overflows, for any instants |
| Scoring.QuarterMarks | scoring/score.go:20-56 | 25, 19, 13 and 6 for the four quarters, nothing outside |
| Scoring.ThirdTierFallsShort | scoring/score.go:42-56 | a concrete instant within three quarters that scores 6 |
| Scoring.TimeScoreFalls | scoring/score.go:20-26 | after the announcement a later upload never scores more |
| Scoring.LogQualityScale | scoring/score.go:104-134 | 13..25, the maximum exactly when both logs cover the window, at most 21 without a sentry log |
| Scoring.SaneBounds | scoring/result.go:44-58 | a mark implies a score, scored totals lie in 38..100, and 100 takes all four at 25 |
| Scoring.TotalAdds | scoring/result.go:48-58 | the total is additive in the mark and in each of the three automatic scores |
| Records.Filter | portal/log.go:155-162 | removes exactly the entries of the id and tells whether there were any |
| Records.WithoutIsKept | portal/log.go:155-162 | every other entry is kept, in the same order |
| Records.Stores.SaveArchive | storage/local.go:43-53 | exclusive create, with the file a failed save may leave |
| Records.Stores.DeleteScore | scoring/store.go:91-104 | removes exactly the record, and an absent one is no failure |
| Records.Stores.DeleteEntry | portal/log.go:146-181 | the log without the entry, or as it was; an absent entry is no failure |
| Records.Stores.AdminDelete | portal/delete.go:15-63 | some first few of the three deletions in order, all of them on success; the status tells the first thing that went wrong |
| Records.Stores.AdminScore | portal/score.go:50-108 | status by cause; sets the mark exactly on recorded, scored submissions, changes nothing else, and the total becomes the automatic one plus the mark |
| Records.DeleteLeavesNoOrphans | portal/delete.go:42-45 | from any store, a delete stopped anywhere leaves no archive and no score behind without the entry it had |
| Records.RetriedDeleteRemovesExactly | portal/delete.go:42-61 | retried until done it removes all three and nothing else |
| ScoreRuns.ActKeepsInv | scoring/store.go:63-104 | every locked step keeps stored and held records sound |
| ScoreRuns.StoredScoresAreSound | portal/score.go:89-105 | in every interleaving a mark implies a score and totals lie in 38..100 |
| ScoreRuns.FieldsComeFromChecks | portal/score.go:84-105 | in every interleaving the automatic fields on record are some that a submission or a rescore stored |
| ScoreRuns.MarkKeptExactly | cmd/rescore/main.go:91-133 | in every run a rescore writes the mark of the scores it read at its start, so it keeps the stored mark exactly when that is still the same |
| ScoreRuns.MarkKeptByLastTouch | cmd/rescore/main.go:91-133 | kept when no step touches the record in between, else exactly when the last one that does leaves the mark read |
| ScoreRuns.MarkLost | cmd/rescore/main.go:91-133 | a run in which a mark entered during a rescore is lost |
| ScoreRuns.BackExactly | scoring/store.go:63-104 | after a delete the score is there exactly when it was written since and not deleted again |
| ScoreRuns.StaysDeletedExactly | portal/delete.go:42-61 | it stays deleted exactly when no later rescore of it, no scoring request that read it before the delete and, unless ids are fresh, no submission follows |
| ScoreRuns.ScoreResurrected | portal/score.go:84-105 | a run in which a scoring request brings a deleted score back |
| ScoreRuns.ScoreRescoredBack | cmd/rescore/main.go:99-133 | a run in which a rescore brings a deleted score back |
| ScoreRuns.Rescorer.Run | cmd/rescore/main.go:97-142 | the store after the submissions done, up to the first failing write; the counts reported; nothing written without apply |
| ScoreRuns.RescoreWritesChecks | cmd/rescore/main.go:112-130 | under each id the automatic fields of its last readable submission with the mark there was |
| ScoreRuns.ChangedExactly | cmd/rescore/main.go:118-125 | the changed count is the number of submissions whose old total differs from the new one with the old mark |
| ScoreRuns.SkippedExactly | cmd/rescore/main.go:102-111 | the skipped count is the number of unreadable submissions |
| ScoreRuns.RescoreKeepsMarks | cmd/rescore/main.go:103-116 | every mark kept, skipped submissions untouched |
| ScoreRuns.RescoreCanResume | cmd/rescore/main.go:99-134 | interrupted anywhere and run again it ends as one whole run; applied twice as once |
| AtomicFile.FileSystem.Write | internal/atomicfile/write.go:18-51 | at every crash point old or new content; nil means new and durable; an error leaves the old unless it came after the rename |
| AtomicFile.FileSystem.Publish | internal/atomicfile/write.go:44-60 | the rename shows the new content at once; only the directory sync settles it |
| AtomicFile.AcknowledgedSurvives | internal/atomicfile/write.go:1-17 | after a nil return a crash leaves that content or a later one |
| Nonces.NonceStore.IssueNonce | auth/challenge.go:99-114 | binds the nonce to the operator for the time to live |
| Nonces.NonceStore.Consume | auth/challenge.go:119-137 | burns the nonce whatever the outcome |
| Nonces.NonceStore.VerifyChallenge | auth/challenge.go:156-184 | succeeds exactly as the history says |
| Nonces.SucceedsExactly | auth/challenge.go:116-137 | success exactly when the nonce's last event is its issue to that operator, at most five minutes ago, and the signature is right |
| Nonces.TryBurnsNonce | auth/challenge.go:116-118 | any try with a nonce is the last that can succeed |
| Nonces.SucceedsAtMostOnce | auth/challenge.go:152-155 | with fresh nonces one success per nonce, across both endpoints |

## Left out

- gzip, tar, JSON, multipart, bech32, HMAC and signature internals and `time.Parse`: given functions or inputs.
- Sockets, dialing, timeouts and the public-key lookup: network I/O.
- `storage/s3.go`: foreign calls; the archive store is exclusive create plus idempotent delete.
- `parseJSONTimestamp`: floating point, kept as a given parser.
- `scoring.MetadataChecks`, `submission/name.go`, `submission/metadata.go`, `auth/session.go`, `portal/limit.go`: easy members, taken as given functions where needed.
- `countingScanner` and `countingReader`: they only add to the byte count the tracker shows while scanning.
- `exercise` handlers, admin listing, summary, HTTP headers and bodies, command-line flags and static assets: plumbing.
- Readers that return no bytes and no error: the window readers always make progress; the INSTREAM reads may be empty.
- Half-written lines of the submissions log: a failed append is taken to leave the log as it was.
- uint64 wrap-around of the generation counter, and int64 limits of byte counts: counters are unbounded.
- Text is modelled as characters, one per byte in logs; invalid UTF-8 in clamd's reply is not modelled.
- Concurrency is modelled as steps: each method of a store or tracker is one locked call. cmd/rescore is a process of its own, whose mutex does not keep out the portal's (scoring/store.go:18): a portal write between the read and the rename of a rescore's `Set` is lost, and no run here shows that.
