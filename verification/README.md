# QuickCompress core, modelled in Dafny

QuickCompress shrinks a video to a target size. `compress_video.c` asks
FFprobe for the clip's duration. It spreads the size budget over that
duration, keeping a fixed 128000 bit/s for audio. It picks an output name
that does not collide with an existing file, and it runs FFmpeg with the two
bitrates. Any failure ends the process with status 1.

This project models the three pieces of that file that make decisions:

- `output_name.dfy` (module `OutputName`) covers `generate_output_filename`.
  The path is split at its last `'.'`, as `strrchr` does. The candidates
  `<stem>_compressed.<ext>`, `<stem>_compressed1.<ext>`, … are tried in order
  until one is absent. The filesystem's existence test is membership in a
  finite set `existing`. The search loop is the method
  `GenerateOutputFilename`, proved equal to the function `OutputPathFor`.
  Candidates are pairwise distinct, so against a finite set the loop stops
  after at most `|existing| + 1` candidates. The source has no bound on this
  loop; the model proves that it terminates. This rests on the names being
  built without truncation. In the C code `snprintf` cuts each name at 511
  bytes (compress_video.c:150, 154). Once `<stem>_compressed` alone fills
  that, every candidate is the same string. If that name exists, the C loop
  never ends.
- `decimal.dfy` (module `Decimal`) covers the `%d` rendering of the
  candidate number. Its round trip with the digit value is what makes the
  candidates distinct.
- `bitrate.dfy` (module `Bitrate`) covers the bitrate arithmetic. It is
  modelled over exact reals. C's `(int)` conversion is `Truncate`, which
  rounds toward zero.
- `job.dfy` (module `Job`) covers the step order of `compress_video`,
  including the exit-code and duration checks of `get_video_duration`. It is
  a pure function over the outcomes the two child processes report. It
  returns the output path or the first failure met.
- `results.dfy` (module `Results`) holds the `Option` and `Result` types
  that stand for the early exits.

Three facts about the code that the model makes explicit:

- `generate_output_filename` puts no bound on its loop (compress_video.c:152).
  The model proves that the loop ends whenever the set of existing files is
  finite.
- The guard at compress_video.c:173 tests the untruncated `video_bitrate`.
  A value strictly between 0 and 1 therefore passes it, and the encoder is
  given `-b:v 0` (compress_video.c:183).
  `Bitrate.GuardAdmitsZeroVideoBitrate` exhibits such an input.
- The code counts a megabyte as 1024 · 1024 bytes of 8 bits. So 10 MB over 60 s gives a video rate
  of 1,270,101 bit/s, and 5 MB over 10 s gives 4,066,304 bit/s.

## Model

| member | source | states |
|---|---|---|
| Decimal.DecimalString | compress_video.c:154 | `%d` of a non-negative number is a non-empty string of digits with no leading zero unless the number is 0 |
| Decimal.DecimalRoundTrip | compress_video.c:154 | reading the printed digits back gives the number printed |
| Decimal.DecimalStringInjective | compress_video.c:154 | different candidate numbers print as different strings |
| OutputName.LastIndexOf | compress_video.c:131-132 | `strrchr`: absent exactly when the character does not occur; otherwise an index holding it with no occurrence after it |
| OutputName.SplitExtension | compress_video.c:131-140 | fails exactly when the path has no `'.'`; otherwise the path is stem + `"."` + extension and the extension holds no `'.'` |
| OutputName.SplitAtLastDot | compress_video.c:131-140 | the split is at the last `'.'` wherever it lies: any stem (dots and separators included) joined to a dot-free extension splits back into exactly those two |
| OutputName.ClipSplit | compress_video.c:131-140 | `"clip.mp4"` splits into `"clip"` and `"mp4"` |
| OutputName.Candidate | compress_video.c:150-154 | candidate 0, and no other, is exactly `<stem>_compressed.<ext>`; every n ≥ 1 inserts the decimal n before the `'.'` (`<stem>_compressed<n>.<ext>`), which `CandidateInjective` and `CandidateKeepsExtension` pin down |
| OutputName.CandidateKeepsExtension | compress_video.c:150-154 | for a dot-free extension, every candidate splits again into `<stem>_compressed[<n>]` and the source's own extension |
| OutputName.CandidateInjective | compress_video.c:150-155 | two candidate numbers give the same name only if they are equal |
| OutputName.TriedCardinality | compress_video.c:150-156 | the first n candidates are n different names |
| OutputName.ExistingBoundsTried | compress_video.c:151-156 | if the first n candidates all exist, at least n files exist, so the loop makes at most as many passes as there are existing files |
| OutputName.FirstAbsentUnique | compress_video.c:151-156 | there is only one candidate that is absent while every earlier one exists |
| OutputName.FirstAbsentFrom | compress_video.c:150-156 | the search returns a number k ≤ the number of existing files whose candidate is absent while every earlier candidate exists |
| OutputName.OutputPathFor | compress_video.c:122-160 | no name exactly when the path has no `'.'`; otherwise a name not in `existing` that is the first absent candidate, among the first n + 1 candidates for n existing files |
| OutputName.GenerateOutputFilename | compress_video.c:122-160 | the in-place loop over candidate names returns exactly `OutputPathFor` |
| OutputName.NoCollision | compress_video.c:150-156 | with nothing existing, `"clip.mp4"` becomes `"clip_compressed.mp4"` |
| OutputName.SecondNumberedCandidateIsFirstAbsent | compress_video.c:151-156 | with the first two candidates existing, candidate 2 is the first absent one |
| OutputName.TwoCollisions | compress_video.c:150-156 | with `clip_compressed.mp4` and `clip_compressed1.mp4` existing, the result is `clip_compressed2.mp4` |
| OutputName.DirectoryDotSplit | compress_video.c:131-140 | `media.v2\clip` splits into `media` and `v2\clip`, since `strrchr` ignores path separators |
| OutputName.DotInDirectory | compress_video.c:131-140 | in `media.v2\clip` the `'.'` of the directory name is taken as the extension separator |
| Bitrate.TotalBitrate | compress_video.c:168-170 | the total bitrate times the duration is the budget in bits, i.e. megabytes · 1024 · 1024 · 8 |
| Bitrate.VideoBitrate | compress_video.c:171 | the video rate times the duration is the budget in bits less 128000 bits for every second of audio |
| Bitrate.Truncate | compress_video.c:183 | `(int)` keeps the integer part: for x ≥ 0 it is the largest integer ≤ x, for x < 0 the smallest integer ≥ x |
| Bitrate.BudgetCoversAudio | compress_video.c:170-173 | the total bitrate exceeds 128000 exactly when size · 8388608 > 128000 · duration |
| Bitrate.Allocate | compress_video.c:168-183 | a plan exists exactly when size · 8388608 > 128000 · duration; its audio rate is 128000 and its video rate is the integer part of total − 128000 |
| Bitrate.VideoBitrateIncreasesWithSize | compress_video.c:170-171 | for a fixed positive duration the video bitrate is strictly increasing in the budget |
| Bitrate.VideoBitrateDecreasesWithDuration | compress_video.c:170-171 | for a positive budget the video bitrate is strictly decreasing in the duration |
| Bitrate.PlanGrowsWithSize | compress_video.c:168-183 | if a budget is accepted, every larger one is accepted with a video rate at least as high |
| Bitrate.TenMegabytesOverAMinute | compress_video.c:168-183 | 10 MB over 60 s gives video 1270101 and audio 128000 |
| Bitrate.FiveMegabytesOverTenSeconds | compress_video.c:168-183 | 5 MB over 10 s gives video 4066304 and audio 128000 |
| Bitrate.GuardAdmitsZeroVideoBitrate | compress_video.c:173-183 | a video bitrate of 0.5 bit/s passes the `<= 0` guard and is handed on as 0 |
| Job.ProbeDuration | compress_video.c:76-113 | a duration is returned exactly when the prober started, exited 0 and its output parsed to a value > 0; that value is the duration. A failed start is `ProbeLaunchFailed`. A non-zero exit is `ProbeExitNonZero` with that code, whatever the output parses to. Only after exit 0 is a non-positive value `InvalidDuration` |
| Job.ZeroDurationRejected | compress_video.c:108-113 | an output that parses to 0 is an invalid duration |
| Job.PrepareEncode | compress_video.c:165-183 | the encoder command is produced exactly when probe, budget and extension checks all pass; it carries the input path, the truncated video rate, 128000 and a name not in `existing` |
| Job.RunEncoder | compress_video.c:190-210 | success exactly when the encoder started and exited 0, and then the result is the command's output path |
| Job.CompressVideo | compress_video.c:163-216 | the job succeeds exactly when every step succeeds, and then returns the resolved output name, which did not exist |
| Job.ProbeFailureEndsJob | compress_video.c:165 | a probe failure is the job's result, whatever the budget, name and encoder: a failed start, then a non-zero exit, then an invalid duration |
| Job.BudgetCheckPrecedesNaming | compress_video.c:173-179 | a budget too small is reported before any name is chosen, even for a path with no extension |
| Job.NoExtensionPrecedesEncoding | compress_video.c:179-190 | with duration and budget good, a path with no `'.'` fails before the encoder is started |
| Job.EncoderIrrelevantWhenPreparationFails | compress_video.c:165-190 | when a check before the encoder fails, the encoder's behaviour cannot change the result |
| Job.EncoderFailureIsTerminal | compress_video.c:190-210 | a prepared job whose encoder does not start, or exits non-zero, fails with that reason |
| Job.FiveMegabyteJob | compress_video.c:163-216 | `a.mp4`, 5 MB, 10 s: the encoder is asked for 4066304 and 128000 into `a_compressed.mp4`; exit 0 succeeds with that name, exit 1 fails |

## Left out

- Process creation, pipes, handle closing and waiting (compress_video.c:59-100, 185-203). Each child process is reduced to whether it started and its exit code. A failure to create the prober's pipe is folded into "the prober did not start".
- Reading the prober's output and `atof` (compress_video.c:86-93, 108). The parsed number is an input. The 128-byte accumulation buffer is not modelled. Text that `atof` cannot read parses to 0, which `ZeroDurationRejected` covers.
- Logging and the expansion of the user's name into the log path (compress_video.c:12-51). Log messages are not modelled.
- `main` (compress_video.c:218-326): argument count, the existence check on the input, locating and pre-flighting FFmpeg and FFprobe, and parsing and checking the size argument.
- Allocation failures of `strdup` and `malloc` (compress_video.c:124-129, 142-148), which end the process.
- Truncation by `snprintf` at 512, 1024 and 2048 bytes, and the exact quoting of the command line. For the candidate names this truncation also voids the termination argument, as noted above. The encoder invocation is the abstract `EncoderCommand`.
- IEEE double rounding. The bitrate arithmetic is exact over reals.
- NaN and infinity from `atof` (compress_video.c:108). A NaN duration passes the `duration <= 0` test at compress_video.c:109, because every comparison with NaN is false. It then also passes the guard at compress_video.c:173, and the `(int)` cast at compress_video.c:183 is undefined behaviour. The model's parsed duration is a real number, so it has neither NaN nor infinity.
- Bitrate.Truncate: does not model an out-of-range `(int)` conversion. A video bitrate above 2147483647 is undefined behaviour in C; the model keeps the unbounded integer part.
- OutputName.GenerateOutputFilename: the counter `i` is a C `int`; the model uses an unbounded number, which only matters after 2^31 existing candidates.
- Paths are character sequences. A NUL inside a path, which would end the C string early, is not modelled.
- The race between choosing a name and FFmpeg creating it. The set of existing files is fixed for the duration of the search.
