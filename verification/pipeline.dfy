/** The driver `main`: validate the arguments, download, gate on the number
    of downloads, trim, merge. The download is a parameter: `acquire(singer,
    n)` stands for the search-and-download step and yields, in order, what
    became of each downloaded file when the trim stage reads it. */
module Pipeline {
  import opened Results
  import opened Validate
  import opened Trim
  import opened Merge

  /** Why a run exits with status 1. */
  datatype RunError =
    | Usage(kind: ArgError)  // argument validation failed
    | NoDownloads            // "Error: No audio files were downloaded."
    | NoClips(shortfall: Option<nat>)  // the merge found no trimmed clips

  /** A finished run: the output file, the clips written, the merged
      recording, and `Some(count)` when the "Only count files downloaded"
      notice was printed. */
  datatype Report<T> = Report(outFile: string, clips: seq<Clip<T>>, audio: seq<T>, shortfall: Option<nat>)

  /** The audio of each clip, in order, as the merge reads them back. */
  function Audios<T>(clips: seq<Clip<T>>): (r: seq<seq<T>>)
    ensures |r| == |clips|
    ensures forall k :: 0 <= k < |r| ==> r[k] == clips[k].audio
  {
    seq(|clips|, k requires 0 <= k < |clips| => clips[k].audio)
  }

  /** The download notice: printed, with the count, when fewer files than
      requested arrived. */
  function Shortfall(count: nat, n: int): Option<nat> {
    if count < n then Some(count) else None
  }

  /** The download notice a run printed before it ended: it is printed
      before the trim, so a run that then finds no clips has printed it
      too. */
  function Notice<T>(r: Result<Report<T>, RunError>): Option<nat> {
    match r
    case Success(report) => report.shortfall
    case Failure(NoClips(shortfall)) => shortfall
    case Failure(_) => None
  }

  /** The part of `main()` after a successful validation and download:
      the gate on the number of files, then trim and merge. */
  function Proceed<T>(p: Params, files: seq<Source<T>>): (r: Result<Report<T>, RunError>)
    requires p.y >= 0
    ensures r.Failure? ==> r.error == NoDownloads || r.error.NoClips?
    ensures r.Success? ==> r.value.clips != [] && r.value.audio == Concat(Audios(r.value.clips))
  {
    if |files| == 0 then Failure(NoDownloads)
    else
      var notice := Shortfall(|files|, p.n);
      var clips := TrimFirstSeconds(files, p.y);
      match MergeAll(Audios(clips))
      case Failure(_) => Failure(NoClips(notice))
      case Success(audio) => Success(Report(p.outFile, clips, audio, notice))
  }

  /** `main()`, with the download passed in as `acquire`. */
  function Run<T>(argv: seq<string>, acquire: (string, int) -> seq<Source<T>>): (r: Result<Report<T>, RunError>)
    ensures r.Success? ==> r.value.clips != [] && r.value.audio == Concat(Audios(r.value.clips))
  {
    match ValidateArgs(argv)
    case Failure(e) => Failure(Usage(e))
    case Success(p) => Proceed(p, acquire(p.singer, p.n))
  }

  /** Bad arguments end the run before any download: the outcome is the
      validation error whatever the download would have produced. */
  lemma BadArgumentsStopBeforeDownload<T>(argv: seq<string>, a1: (string, int) -> seq<Source<T>>, a2: (string, int) -> seq<Source<T>>)
    requires ValidateArgs(argv).Failure?
    ensures Run(argv, a1) == Run(argv, a2) == Failure(Usage(ValidateArgs(argv).error))
  {
  }

  /** Valid arguments lead to the download for the validated singer and N,
      and the rest of the run works on its files with the validated Y. */
  lemma GoodArgumentsProceed<T>(argv: seq<string>, acquire: (string, int) -> seq<Source<T>>)
    requires ValidateArgs(argv).Success?
    ensures var p := ValidateArgs(argv).value;
      p.y >= 0 && Run(argv, acquire) == Proceed(p, acquire(p.singer, p.n))
  {
  }

  /** The download gate: no files is fatal; fewer files than requested only
      prints the notice, carrying the count, and the run goes on, whether it
      then succeeds or finds no clips. */
  lemma DownloadGate<T>(p: Params, files: seq<Source<T>>)
    requires p.y >= 0
    ensures var r := Proceed(p, files);
      && (r == Failure(NoDownloads) <==> |files| == 0)
      && (r != Failure(NoDownloads) ==> (Notice(r).Some? <==> |files| < p.n))
      && (Notice(r).Some? ==> Notice(r).value == |files| && |files| < p.n)
      && (r.Success? ==> r.value.shortfall == Notice(r))
  {
  }

  /** A single download, of more than one requested, that fails to
      decode: the notice is printed, and then the merge finds no clips. */
  lemma NoticeBeforeNoClips<T>(p: Params, f: Source<T>)
    requires p.y >= 0 && p.n > 1 && f.Fails?
    ensures Proceed(p, [f]) == Failure(NoClips(Some(1)))
  {
  }

  /** After the download, the run succeeds exactly when at least one
      downloaded file decodes. */
  lemma SucceedsIffSomeDecoded<T>(p: Params, files: seq<Source<T>>)
    requires p.y >= 0
    ensures Proceed(p, files).Success? <==> exists j :: 0 <= j < |files| && files[j].Decoded?
  {
    TrimNonEmpty(files, p.y);
  }

  /** What a successful run writes: to the validated output name, the clips
      of the trim stage over the downloads, merged in order; its length is
      the sum of the clip lengths and at most `Y * 1000` per downloaded
      file. */
  lemma ProceedOutput<T>(p: Params, files: seq<Source<T>>)
    requires p.y >= 0
    requires Proceed(p, files).Success?
    ensures var out := Proceed(p, files).value;
      && out.outFile == p.outFile
      && out.clips == TrimFirstSeconds(files, p.y)
      && out.audio == Concat(Audios(out.clips))
      && |out.audio| == TotalLength(Audios(out.clips)) <= |files| * LimitMs(p.y)
  {
    MergedLength(files, p.y);
  }

  /** The merged trim of `files` is as long as its clips together, and at
      most `y * 1000` units per file. */
  lemma MergedLength<T>(files: seq<Source<T>>, y: nat)
    ensures var audios := Audios(TrimFirstSeconds(files, y));
      |Concat(audios)| == TotalLength(audios) <= |files| * LimitMs(y)
  {
    var clips := TrimFirstSeconds(files, y);
    var audios := Audios(clips);
    TrimClipsShort(files, y);
    ConcatLength(audios);
    TotalLengthBound(audios, LimitMs(y));
    ScaleMonotone(|audios|, |files|, LimitMs(y));
  }

  lemma ScaleMonotone(a: nat, b: nat, c: nat)
    requires a <= b
    ensures a * c <= b * c
  {
  }

  /** Eleven downloads cut to 21 seconds merge into at most 231 seconds. */
  lemma ElevenDownloadsAtMost231Seconds<T>(files: seq<Source<T>>)
    requires |files| == 11
    ensures |Concat(Audios(TrimFirstSeconds(files, 21)))| <= 231000
  {
    MergedLength(files, 21);
  }
}
