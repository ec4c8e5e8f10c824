/** The argument validator `validate_args`: an ordered, fail-fast chain of
    seven checks on `[program, singer, N, Y, output]`, each of which ends the
    run with exit status 1 in the program and is an `ArgError` here. */
module Validate {
  import opened Results
  import opened Text

  /** One kind per check, named after the message the program prints. */
  datatype ArgError =
    | WrongArity          // "Incorrect number of parameters."
    | EmptySinger         // "SingerName cannot be empty."
    | CountNotInteger     // "NumberOfVideos must be an integer."
    | DurationNotInteger  // "AudioDurationSec must be an integer."
    | BadExtension        // "OutputFileName must end with .mp3"
    | CountTooSmall       // "NumberOfVideos (N) must be greater than 10."
    | DurationTooSmall    // "AudioDurationSec (Y) must be greater than 20 seconds."

  /** The position of each check in the order the validator runs them. */
  function Rank(e: ArgError): nat {
    match e
    case WrongArity => 0
    case EmptySinger => 1
    case CountNotInteger => 2
    case DurationNotInteger => 3
    case BadExtension => 4
    case CountTooSmall => 5
    case DurationTooSmall => 6
  }

  /** The validated run parameters: singer and output name stripped, counts parsed. */
  datatype Params = Params(singer: string, n: int, y: int, outFile: string)

  /** N must be strictly greater than this. */
  const MinVideosExclusive: int := 10
  /** Y must be strictly greater than this. */
  const MinSecondsExclusive: int := 20

  /** Whether the check of kind `e`, taken on its own, rejects `argv`. Every
      check but the arity check looks at the five-argument form only. */
  predicate Violates(argv: seq<string>, e: ArgError) {
    match e
    case WrongArity => |argv| != 5
    case EmptySinger => |argv| == 5 && Strip(argv[1]) == []
    case CountNotInteger => |argv| == 5 && ParseInt(argv[2]).None?
    case DurationNotInteger => |argv| == 5 && ParseInt(argv[3]).None?
    case BadExtension => |argv| == 5 && !EndsWith(Lower(Strip(argv[4])), ".mp3")
    case CountTooSmall =>
      |argv| == 5 && ParseInt(argv[2]).Some? && ParseInt(argv[2]).value <= MinVideosExclusive
    case DurationTooSmall =>
      |argv| == 5 && ParseInt(argv[3]).Some? && ParseInt(argv[3]).value <= MinSecondsExclusive
  }

  /** `validate_args`: the reported error is the earliest check (by `Rank`)
      that rejects the arguments; success means no check rejects them, and
      then the result carries the stripped singer, the two parsed integers
      and the stripped output name. */
  function ValidateArgs(argv: seq<string>): (r: Result<Params, ArgError>)
    ensures r.Failure? ==> Violates(argv, r.error)
    ensures r.Success? ==>
      && |argv| == 5
      && ParseInt(argv[2]).Some? && ParseInt(argv[3]).Some?
      && r.value == Params(Strip(argv[1]), ParseInt(argv[2]).value, ParseInt(argv[3]).value, Strip(argv[4]))
    ensures r.Success? ==> r.value.n > MinVideosExclusive && r.value.y > MinSecondsExclusive
  {
    if |argv| != 5 then Failure(WrongArity)
    else
      var singer := Strip(argv[1]);
      if singer == [] then Failure(EmptySinger)
      else match ParseInt(argv[2])
      case None => Failure(CountNotInteger)
      case Some(n) =>
        match ParseInt(argv[3])
        case None => Failure(DurationNotInteger)
        case Some(y) =>
          var outFile := Strip(argv[4]);
          if !EndsWith(Lower(outFile), ".mp3") then Failure(BadExtension)
          else if n <= MinVideosExclusive then Failure(CountTooSmall)
          else if y <= MinSecondsExclusive then Failure(DurationTooSmall)
          else Success(Params(singer, n, y, outFile))
  }

  /** Each reported error certifies that every check before it passed. */
  lemma PassedChecks(argv: seq<string>)
    requires ValidateArgs(argv).Failure?
    ensures var k := Rank(ValidateArgs(argv).error);
      && (k > 0 ==> |argv| == 5)
      && (k > 1 ==> |argv| == 5 && Strip(argv[1]) != [])
      && (k > 2 ==> |argv| == 5 && ParseInt(argv[2]).Some?)
      && (k > 3 ==> |argv| == 5 && ParseInt(argv[3]).Some?)
      && (k > 4 ==> |argv| == 5 && EndsWith(Lower(Strip(argv[4])), ".mp3"))
      && (k > 5 ==> |argv| == 5 && ParseInt(argv[2]).Some? && ParseInt(argv[2]).value > MinVideosExclusive)
  {
  }

  /** Fail-fast order: no check that runs before the reported one rejects
      the arguments, so the reported error is the first failing check. */
  lemma FirstFailingCheckWins(argv: seq<string>, e: ArgError)
    requires ValidateArgs(argv).Failure?
    requires Rank(e) < Rank(ValidateArgs(argv).error)
    ensures !Violates(argv, e)
  {
    PassedChecks(argv);
  }

  /** Validation succeeds exactly when none of the seven checks rejects the
      arguments. */
  lemma SucceedsIffNoCheckFails(argv: seq<string>)
    ensures ValidateArgs(argv).Success? <==> forall e :: !Violates(argv, e)
  {
    if ValidateArgs(argv).Success? {
      SuccessBounds(argv);
      LowerEndsWithMp3(Strip(argv[4]));
    }
  }

  /** What every accepted argument list guarantees to the rest of the run. */
  lemma SuccessBounds(argv: seq<string>)
    requires ValidateArgs(argv).Success?
    ensures var p := ValidateArgs(argv).value;
      && p.n > MinVideosExclusive && p.y > MinSecondsExclusive
      && p.singer != [] && NoEdgeSpace(StrSpace, p.singer)
      && |p.outFile| >= 4 && HasMp3Extension(p.outFile) && NoEdgeSpace(StrSpace, p.outFile)
  {
    LowerEndsWithMp3(Strip(argv[4]));
  }

  /** Conversely, whenever the stripped singer is non-empty, N and Y read
      as integers above their bounds and the stripped output name carries
      the ".mp3" extension, validation succeeds with exactly those values.
      (`StripOf` and `ParseIntFormatInt` give those readings for values
      written out with surrounding white space.) */
  lemma AcceptsValidValues(argv: seq<string>, singer: string, n: int, y: int, outFile: string)
    requires |argv| == 5
    requires Strip(argv[1]) == singer && ParseInt(argv[2]) == Some(n)
    requires ParseInt(argv[3]) == Some(y) && Strip(argv[4]) == outFile
    requires singer != [] && n > MinVideosExclusive && y > MinSecondsExclusive
    requires HasMp3Extension(outFile)
    ensures ValidateArgs(argv) == Success(Params(singer, n, y, outFile))
  {
    LowerEndsWithMp3(outFile);
  }

  /** The extension check runs before the range checks: once the singer and
      both numbers are well formed, a name without the ".mp3" extension is
      reported as such whatever N and Y are. */
  lemma ExtensionBeforeRange(argv: seq<string>)
    requires |argv| == 5 && Strip(argv[1]) != []
    requires ParseInt(argv[2]).Some? && ParseInt(argv[3]).Some?
    requires !HasMp3Extension(Strip(argv[4]))
    ensures ValidateArgs(argv) == Failure(BadExtension)
  {
    LowerEndsWithMp3(Strip(argv[4]));
  }

  /** Once the singer, both numbers and the extension are well formed, an N
      of at most 10 is reported whatever Y is. */
  lemma CountRangeChecked(argv: seq<string>)
    requires |argv| == 5 && Strip(argv[1]) != []
    requires ParseInt(argv[2]).Some? && ParseInt(argv[3]).Some?
    requires HasMp3Extension(Strip(argv[4]))
    requires ParseInt(argv[2]).value <= MinVideosExclusive
    ensures ValidateArgs(argv) == Failure(CountTooSmall)
  {
    LowerEndsWithMp3(Strip(argv[4]));
  }

  /** With everything else valid, a Y of at most 20 is reported. */
  lemma DurationRangeChecked(argv: seq<string>)
    requires |argv| == 5 && Strip(argv[1]) != []
    requires ParseInt(argv[2]).Some? && ParseInt(argv[3]).Some?
    requires HasMp3Extension(Strip(argv[4]))
    requires ParseInt(argv[2]).value > MinVideosExclusive
    requires ParseInt(argv[3]).value <= MinSecondsExclusive
    ensures ValidateArgs(argv) == Failure(DurationTooSmall)
  {
    LowerEndsWithMp3(Strip(argv[4]));
  }

  /** N is read by `int`, not by `str.strip`: an N that starts with an
      information separator (U+001C..U+001F) is not an integer, even though
      stripping would remove the separator. */
  lemma CountBesideSeparatorRejected(argv: seq<string>)
    requires |argv| == 5 && Strip(argv[1]) != []
    requires |argv[2]| > 0 && 28 <= argv[2][0] as int <= 31
    ensures ValidateArgs(argv) == Failure(CountNotInteger)
  {
    ParseIntRejectsSeparator(argv[2]);
  }

  /** The names in the usage text's example invocation, "Sharry Maan" and
      "102303184-output.mp3", have no surrounding white space and the second
      carries the ".mp3" extension. */
  lemma UsageExampleNames()
    ensures "Sharry Maan" != [] && NoEdgeSpace(StrSpace, "Sharry Maan")
    ensures NoEdgeSpace(StrSpace, "102303184-output.mp3") && HasMp3Extension("102303184-output.mp3")
  {
  }

  /** The shape of the usage text's example invocation: names like the
      example's (see `UsageExampleNames`), N written as `n` and Y as `y`; the
      text itself shows N = 20 and Y = 20. */
  predicate IsUsageExample(argv: seq<string>, n: int, y: int) {
    && |argv| == 5 && argv[1] != [] && NoEdgeSpace(StrSpace, argv[1])
    && NoEdgeSpace(StrSpace, argv[4]) && HasMp3Extension(argv[4])
    && argv[2] == FormatInt(n) && argv[3] == FormatInt(y)
  }

  /** The usage text's example is rejected by the Y check for its Y of 20,
      and for every Y up to 20, although its N (20) is acceptable. */
  lemma UsageExampleRejected(argv: seq<string>, n: int, y: int)
    requires IsUsageExample(argv, n, y)
    requires n > MinVideosExclusive && y <= MinSecondsExclusive
    ensures ValidateArgs(argv) == Failure(DurationTooSmall)
  {
    StripUnchanged(StrSpace, argv[1]);
    StripUnchanged(StrSpace, argv[4]);
    ParseIntFormatIntBare(n);
    ParseIntFormatIntBare(y);
    DurationRangeChecked(argv);
  }

  /** The same invocation with a Y above 20 is accepted with exactly the
      values it spells. */
  lemma UsageExampleAccepted(argv: seq<string>, n: int, y: int)
    requires IsUsageExample(argv, n, y)
    requires n > MinVideosExclusive && y > MinSecondsExclusive
    ensures ValidateArgs(argv) == Success(Params(argv[1], n, y, argv[4]))
  {
    StripUnchanged(StrSpace, argv[1]);
    StripUnchanged(StrSpace, argv[4]);
    ParseIntFormatIntBare(n);
    ParseIntFormatIntBare(y);
    AcceptsValidValues(argv, argv[1], n, y, argv[4]);
  }

  /** The usage text's example, word for word, is rejected by the Y check. */
  lemma UsageExampleAsWritten(prog: string)
    ensures ValidateArgs([prog, "Sharry Maan", "20", "20", "102303184-output.mp3"]) == Failure(DurationTooSmall)
  {
    UsageExampleNames();
    assert FormatInt(20) == "20";
    UsageExampleRejected([prog, "Sharry Maan", "20", "20", "102303184-output.mp3"], 20, 20);
  }
}
