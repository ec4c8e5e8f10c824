# Mashup core, modelled in Dafny

The program `102303184.py` builds an audio "mashup" from the command line
`program "<SingerName>" <NumberOfVideos> <AudioDurationSec> <OutputFileName>`.
It validates the four arguments with an ordered, fail-fast chain of seven
checks, downloads N search results for the singer, cuts the first Y seconds
of each download into a numbered clip `clip_001.mp3`, `clip_002.mp3`, ...,
and joins the clips end to end into the output file. Some failures are
skipped rather than fatal:

- A search result that fails to download is skipped by the download step,
  which ignores errors (line 76).
- A file that cannot be decoded or exported in the trim loop is skipped with
  a warning (lines 108-109), and its position gets no clip.
- Errors while removing the temporary directory are ignored (line 165).

Every other failure is fatal and ends the run with exit status 1.

The model has six modules, one file each:

- `results.dfy` (`Results`): `Option` and `Result`; a `Failure` stands for a
  `sys.exit(1)`.
- `text.dfy` (`Text`): the string operations the validator uses, restricted
  to ASCII. These are `str.strip()`, `str.lower()`, `str.endswith`, base-10
  `int(...)` (optional sign, decimal digits, surrounding white space ignored)
  and `str(n)`. The two white-space sets differ. `str.strip` removes what
  `str.isspace` accepts: code points 9..13 and 28..32. `int` skips only
  9..13 and the space 32. So an N or Y that begins with an information
  separator (28..31) is not an integer.
- `validate.dfy` (`Validate`): `validate_args`. Each check is one `ArgError`
  kind. `Violates` states each check on its own, and `Rank` gives the order
  the checks run in.
- `trim.dfy` (`Trim`): `trim_first_y_seconds` and the clip name
  `clip_{i:03d}.mp3`. An audio recording is a sequence of millisecond units.
  A download either decodes (`Decoded(audio)`) or fails to decode or export
  (`Fails`).
- `merge.dfy` (`Merge`): `merge_all`. The fold `combined += clip` is proved
  equal to a reference concatenation.
- `pipeline.dfy` (`Pipeline`): `main`. It validates, downloads, applies the
  gate on the number of downloads, then trims and merges. The download is a
  function parameter `acquire(singer, n)` that yields the downloaded files in
  order.

Two points of the code's behaviour shape the model:

- The usage text is printed only by the arity check (lines 19-22). The other
  checks print only their own error message.
- Nothing caps the number of downloaded files at N, although the download
  function's docstring speaks of "N results" (line 68). The program takes
  every `.mp3` file the download step leaves behind (line 90). So the model
  puts no bound on what `acquire` returns, and states its bounds relative to
  the number of files actually downloaded.

## Model

| member | source | states |
|---|---|---|
| Text.StripLeadingShape | 102303184.py:24 | stripping leading white space keeps exactly the suffix that starts at the first non-space character; everything dropped is white space |
| Text.StripTrailingShape | 102303184.py:41 | stripping trailing white space keeps exactly the prefix that ends at the last non-space character; everything dropped is white space |
| Text.StripSpace | 102303184.py:30 | stripping either white-space set leaves no white space of that set at either end, and never lengthens the string |
| Text.Strip | 102303184.py:24 | a string stripped by `str.strip` has no `str.isspace` white space at either end and is no longer than the input |
| Text.StripOf | 102303184.py:24 | for either white-space set, any white space of that set around a string with no edge white space is removed, and the string is recovered exactly |
| Text.StripUnchanged | 102303184.py:41 | for either white-space set, a string with no white space of that set at either end is its own stripped form |
| Text.LowerEndsWithMp3 | 102303184.py:42 | `s.lower().endswith(".mp3")` holds exactly when `s` ends in ".mp3" with each letter in either case |
| Text.Lower | 102303184.py:42 | lowering keeps the length; no capital letter survives; each capital becomes its small letter; every other character is unchanged |
| Text.LowerIdempotent | 102303184.py:42 | lowering twice is lowering once |
| Text.FormatNat | 102303184.py:105 | the decimal spelling of a number is a non-empty digit string whose value is the number, with no leading zero except for 0 itself |
| Text.FormatNatOfCanonical | 102303184.py:105 | every digit string without a superfluous leading zero is the spelling of its own value |
| Text.ParseIntFormatInt | 102303184.py:29-39 | `int` reads back any integer written by `str`, whatever surrounding white space `int` skips (code points 9..13 and 32) |
| Text.ParseIntFormatIntBare | 102303184.py:29-39 | `int` reads back any integer written by `str` |
| Text.ParseIntAccepted | 102303184.py:29-39 | every string `int` accepts is, once stripped of the white space `int` skips, an optional sign, some leading zeros and the spelling of the magnitude; without a minus sign the value is at least 0, and with one it is at most 0 |
| Text.ParseIntOf | 102303184.py:29-39 | the converse: `int` accepts any string of skipped white space, an optional sign, leading zeros, the spelling of a magnitude and skipped white space, and returns the magnitude, negated after a minus sign |
| Text.ParseIntRejectsSeparator | 102303184.py:36 | a string that begins with an information separator (code points 28..31) is not an integer to `int`, although `str.strip` would remove that character |
| Text.DigitsCanonical | 102303184.py:30 | a digit string is some leading zeros followed by the canonical spelling of its value (Text.ParseIntOf shows `int` accepts every such string) |
| Validate.ValidateArgs | 102303184.py:17-55 | a reported error is a check that rejects the arguments; success means five arguments, N and Y read as integers by `int` (with its own white space) with N > 10 and Y > 20, and the result is the singer and output name stripped by `str.strip`, and the parsed N and Y |
| Validate.PassedChecks | 102303184.py:17-53 | each reported error certifies that every check before it passed |
| Validate.FirstFailingCheckWins | 102303184.py:17-53 | no check that runs before the reported one rejects the arguments, so the first failing check is the one reported |
| Validate.SucceedsIffNoCheckFails | 102303184.py:17-55 | validation succeeds if and only if none of the seven checks rejects the arguments |
| Validate.SuccessBounds | 102303184.py:24-55 | an accepted singer is non-empty with no edge white space; an accepted output name has no edge white space and ends in ".mp3" in any case; N > 10 and Y > 20 |
| Validate.AcceptsValidValues | 102303184.py:17-55 | whenever the stripped singer is non-empty, N and Y parse above their bounds and the stripped name has the extension, validation returns exactly those values |
| Validate.ExtensionBeforeRange | 102303184.py:41-53 | with a valid singer and two integers, a missing ".mp3" extension is reported before either range check, whatever N and Y are |
| Validate.CountRangeChecked | 102303184.py:47-49 | with everything before it valid, N <= 10 is reported whatever Y is |
| Validate.DurationRangeChecked | 102303184.py:51-53 | with everything before it valid and N > 10, Y <= 20 is reported |
| Validate.UsageExampleNames | 102303184.py:14 | the example's singer and output name have no edge white space, and the output name has the ".mp3" extension |
| Validate.UsageExampleRejected | 102303184.py:14 | the example invocation of the usage text, with its Y of 20, is rejected by the Y check |
| Validate.CountBesideSeparatorRejected | 102303184.py:29-33 | with five arguments and a non-empty singer, an N that begins with an information separator is reported as not an integer |
| Validate.UsageExampleAsWritten | 102303184.py:14 | the usage text's example, character for character, is rejected by the Y check |
| Validate.UsageExampleAccepted | 102303184.py:14 | the same invocation with a Y above 20 is accepted with exactly the values it spells |
| Trim.Head | 102303184.py:104 | `audio[:limit]` is a prefix of the audio whose length is the smaller of the limit and the audio's length |
| Trim.ZeroPad | 102303184.py:105 | zero padding to width w gives a string of length max(w, input length) |
| Trim.ZeroPadDigits | 102303184.py:105 | zero padding a digit string keeps it a digit string with the same value |
| Trim.ClipNameShape | 102303184.py:105 | a clip name is "clip_", then a digit string of at least three digits whose value is the clip number, then ".mp3" |
| Trim.ParseClipNameRoundTrip | 102303184.py:105 | every clip name reads back as its own clip number |
| Trim.ClipNameInjective | 102303184.py:105 | distinct clip numbers give distinct clip names |
| Trim.FormatNatLength | 102303184.py:105 | a number's decimal spelling has at most k digits exactly when the number is below 10^k |
| Trim.ClipNameLength | 102303184.py:105 | clip names are at least 12 characters long, and exactly 12 if and only if the clip number is at most 999 |
| Trim.TrimFirstSeconds | 102303184.py:94-111 | the trim stage returns exactly one clip per input that decodes (see Trim.TrimSpec for the clips themselves) |
| Trim.CountDecoded | 102303184.py:101-109 | no more items decode than there are items |
| Trim.TrimFromCount | 102303184.py:101-109 | the trim stage writes one clip per input that decodes |
| Trim.TrimFromPositions | 102303184.py:101-109 | every clip carries the position of an input that decoded |
| Trim.ClipOfTail | 102303184.py:101 | a clip numbered against the tail of the inputs has the same number in the whole list |
| Trim.TrimFromClips | 102303184.py:99-107 | every clip is the first `y * 1000` units of the input at its position, named after that position |
| Trim.TrimFromIncreasing | 102303184.py:101-107 | clip positions strictly increase, so clips keep the input order |
| Trim.TrimFromHits | 102303184.py:101-109 | every input position that decodes appears among the clip positions |
| Trim.TrimSpec | 102303184.py:94-111 | positions are 1-based over the whole input list: one clip per decoded input; each clip is its own input cut to at most `y * 1000` units and named after its position; positions increase; a position appears if and only if its input decoded, so failures leave gaps |
| Trim.TrimClipsShort | 102303184.py:99-104 | there are no more clips than inputs, and no clip is longer than `y * 1000` units |
| Trim.TrimNamesDistinct | 102303184.py:105-107 | no two clips share a file name |
| Trim.TrimNonEmpty | 102303184.py:101-111 | some clip is written if and only if some input decodes |
| Trim.MiddleFailureLeavesGap | 102303184.py:101-109 | of three inputs whose second fails, the clips are numbered 1 and 3 |
| Merge.AppendAll | 102303184.py:122-124 | the loop `combined += clip` yields the starting audio followed by the concatenation of the clips |
| Merge.MergeAll | 102303184.py:118-124 | merging fails if and only if the clip list is empty, and otherwise yields the clips concatenated in order |
| Merge.ConcatLength | 102303184.py:122-124 | the merged length is the sum of the clip lengths |
| Merge.ConcatAppend | 102303184.py:122-124 | merging a split list gives the merge of the first part followed by the merge of the second |
| Merge.ConcatPlacement | 102303184.py:122-124 | each clip appears unchanged in the merge, right after all the clips before it |
| Merge.TotalLengthBound | 102303184.py:122-124 | if every clip is at most L long, the merge is at most (number of clips) * L long |
| Pipeline.Proceed | 102303184.py:144-155 | after the download, a failure is either "no downloads" or "no clips"; a success has a non-empty clip list and the merged audio is their concatenation |
| Pipeline.Run | 102303184.py:130-155 | a successful run has a non-empty clip list, and its audio is the concatenation of the clips |
| Pipeline.BadArgumentsStopBeforeDownload | 102303184.py:130 | with invalid arguments the outcome is the validation error, whatever the download would produce |
| Pipeline.GoodArgumentsProceed | 102303184.py:130-155 | valid arguments lead to the download for the validated singer and N, and the rest of the run uses its files with the validated Y |
| Pipeline.DownloadGate | 102303184.py:144-149 | zero downloads is fatal; every run that gets past the gate, whether it then succeeds or finds no clips, has printed the notice exactly when fewer than N files arrived, and the notice gives their count |
| Pipeline.NoticeBeforeNoClips | 102303184.py:144-155 | a single download of more than one requested that fails to decode prints the notice with count 1, and then the merge finds no clips |
| Pipeline.SucceedsIffSomeDecoded | 102303184.py:144-155 | after a download, the run succeeds if and only if at least one downloaded file decodes |
| Pipeline.ProceedOutput | 102303184.py:144-155 | a successful run writes to the validated output name the trim stage's clips over the downloads, merged in order; its length is the sum of the clip lengths and at most `Y * 1000` units per downloaded file |
| Pipeline.MergedLength | 102303184.py:99-124 | the merged trim of a list of files is as long as its clips together, and at most `y * 1000` units per file |
| Pipeline.ElevenDownloadsAtMost231Seconds | 102303184.py:99-124 | eleven downloads cut to 21 seconds merge into at most 231 seconds |

## Left out

- The search and download step (`download_n_audios_from_youtube`, lines 66-91, and the `yt_dlp` library) is the parameter `acquire`. Its options, its file naming and its sorting by file name are not modelled.
- Audio decoding and encoding (`pydub`, ffmpeg) are out of scope. A recording is an abstract sequence of millisecond units. Export settings (bitrate), file contents and the re-reading of clips in `merge_all` are not modelled, and an export failure in the trim loop is folded into `Fails`.
- The ffmpeg check `check_ffmpeg` (lines 58-63) depends on the environment's PATH and is left out.
- The temporary directories and their removal (lines 133-139, 163-165) are file-system effects and are left out.
- Printed messages and the usage text (lines 10-14) are left out. Each error kind carries its message as a comment.
- Exceptions raised while merging or exporting, which `main` turns into exit status 1 at lines 159-161, are left out. A decode failure is modelled only in the trim loop, where the program catches it.
- Text.ParseInt: models base-10 `int(...)` on ASCII only, skipping code points 9..13 and 32 around the number. Underscores between digits, non-ASCII digits and white space, and the interpreter's limit on the number of digits are not modelled.
- Text.Strip: removes ASCII white space only. Python's `str.strip` also removes non-ASCII white space, which is not modelled.
- Text.Lower: lowers ASCII letters only. Unicode case mapping is not modelled.
- Validate.ValidateArgs: an empty argument list is reported as `WrongArity`. The program would instead fail on `argv[0]` inside `print_usage` with an IndexError. The exit status is 1 in both cases.
- Trim.TrimFirstSeconds: takes Y as a natural number. It is only called with a validated Y > 20, and pydub's behaviour for negative slice bounds is not modelled.

## Findings

| source | as written | input that shows it | evidently intended | confidence | as-written member | corrected member |
|---|---|---|---|---|---|---|
| 102303184.py:14 | the usage text's example passes AudioDurationSec 20 | `program "Sharry Maan" 20 20 102303184-output.mp3` is rejected by the Y check at lines 51-53 (Y must be greater than 20) | an example with a Y above 20, which the validator accepts | not executed | Validate.UsageExampleAsWritten | Validate.UsageExampleAccepted |
