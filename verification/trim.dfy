/** The trim stage `trim_first_y_seconds`: every downloaded file is numbered
    by its 1-based position in the input list, decoded, cut to its first Y
    seconds and written as `clip_{i:03d}.mp3`; a file that cannot be decoded
    or exported is skipped, leaving a gap in the numbering. */
module Trim {
  import opened Results
  import opened Text

  /** What became of one downloaded file: decoded into audio (a sequence of
      millisecond units), or a decode/export failure. */
  datatype Source<T> = Decoded(audio: seq<T>) | Fails

  /** A written clip: its 1-based input position, its file name, its audio. */
  datatype Clip<T> = Clip(index: nat, name: string, audio: seq<T>)

  const MsPerSecond: nat := 1000

  /** The trim limit `y_seconds * 1000`, in milliseconds. */
  function LimitMs(y: nat): nat {
    y * MsPerSecond
  }

  /** The slice `audio[:limit]`: the first `limit` units, or all of a shorter
      recording. */
  function Head<T>(audio: seq<T>, limit: nat): (r: seq<T>)
    ensures |r| <= limit && |r| <= |audio|
    ensures |r| == limit || |r| == |audio|
    ensures r == audio[..|r|]
  {
    if |audio| <= limit then audio else audio[..limit]
  }

  /** `s` padded on the left with zeros to at least `width` characters, as
      the `0<width>d` format does for a non-negative number. */
  function ZeroPad(s: string, width: nat): (r: string)
    ensures |r| == if |s| < width then width else |s|
  {
    if |s| < width then Zeros(width - |s|) + s else s
  }

  const ClipPrefix: string := "clip_"
  const ClipSuffix: string := ".mp3"

  /** The file name `clip_{i:03d}.mp3`. */
  function ClipName(i: nat): string {
    ClipPrefix + ZeroPad(FormatNat(i), 3) + ClipSuffix
  }

  /** A clip name is "clip_", then a digit string of at least three digits
      whose value is the clip number, then ".mp3". */
  lemma ClipNameShape(i: nat)
    ensures var r := ClipName(i);
      && |r| >= |ClipPrefix| + 3 + |ClipSuffix|
      && r[..|ClipPrefix|] == ClipPrefix && r[|r| - |ClipSuffix|..] == ClipSuffix
      && AllDigits(r[|ClipPrefix|..|r| - |ClipSuffix|])
      && DigitsValue(r[|ClipPrefix|..|r| - |ClipSuffix|]) == i
  {
    var digits := ZeroPad(FormatNat(i), 3);
    ZeroPadDigits(FormatNat(i), 3);
    var r := ClipName(i);
    assert r[..|ClipPrefix|] == ClipPrefix;
    assert r[|r| - |ClipSuffix|..] == ClipSuffix;
    assert r[|ClipPrefix|..|r| - |ClipSuffix|] == digits;
  }

  /** Reads a clip number back from a clip file name. */
  function ParseClipName(name: string): Option<nat> {
    if |name| >= |ClipPrefix| + |ClipSuffix| + 1
       && name[..|ClipPrefix|] == ClipPrefix
       && name[|name| - |ClipSuffix|..] == ClipSuffix
       && AllDigits(name[|ClipPrefix|..|name| - |ClipSuffix|])
    then Some(DigitsValue(name[|ClipPrefix|..|name| - |ClipSuffix|]))
    else None
  }

  lemma ZeroPadDigits(s: string, width: nat)
    requires AllDigits(s)
    ensures AllDigits(ZeroPad(s, width))
    ensures DigitsValue(ZeroPad(s, width)) == DigitsValue(s)
  {
    if |s| < width {
      DigitsValueZeros(width - |s|, s);
    }
  }

  /** Every clip name reads back as its own number. */
  lemma ParseClipNameRoundTrip(i: nat)
    ensures ParseClipName(ClipName(i)) == Some(i)
  {
    ClipNameShape(i);
  }

  /** Distinct clip numbers give distinct file names, so no clip overwrites
      another. */
  lemma ClipNameInjective(i: nat, j: nat)
    requires ClipName(i) == ClipName(j)
    ensures i == j
  {
    ParseClipNameRoundTrip(i);
    ParseClipNameRoundTrip(j);
  }

  function Pow10(k: nat): (r: nat)
    ensures r >= 1
  {
    if k == 0 then 1 else 10 * Pow10(k - 1)
  }

  /** The decimal spelling of `n` has at most `k` digits exactly when
      `n < 10^k`. */
  lemma {:induction false} FormatNatLength(n: nat, k: nat)
    requires k >= 1
    ensures |FormatNat(n)| <= k <==> n < Pow10(k)
    decreases k
  {
    if n >= 10 {
      var q := n / 10;
      assert FormatNat(n) == FormatNat(q) + [DigitChar(n % 10)];
      assert n == 10 * q + n % 10;
      if k == 1 {
        assert |FormatNat(q)| >= 1;
      } else {
        FormatNatLength(q, k - 1);
        assert q < Pow10(k - 1) <==> n < 10 * Pow10(k - 1);
      }
    } else if k > 1 {
      assert Pow10(k) == 10 * Pow10(k - 1);
    }
  }

  /** Clip names are exactly 12 characters for clip numbers up to 999, and
      longer beyond. */
  lemma ClipNameLength(i: nat)
    ensures |ClipName(i)| >= 12
    ensures |ClipName(i)| == 12 <==> i <= 999
  {
    FormatNatLength(i, 3);
    assert Pow10(3) == 1000;
  }

  /** The trim loop from input position `offset + 1` on: positions count
      every input item, kept or not. */
  function TrimFrom<T>(sources: seq<Source<T>>, y: nat, offset: nat): seq<Clip<T>>
    decreases |sources|
  {
    if sources == [] then []
    else
      var rest := TrimFrom(sources[1..], y, offset + 1);
      match sources[0]
      case Fails => rest
      case Decoded(audio) =>
        var i := offset + 1;
        [Clip(i, ClipName(i), Head(audio, LimitMs(y)))] + rest
  }

  /** `trim_first_y_seconds(mp3_files, y)`: one clip per decoded input (see
      `TrimSpec` for the clips themselves). */
  function TrimFirstSeconds<T>(sources: seq<Source<T>>, y: nat): (r: seq<Clip<T>>)
    ensures |r| == CountDecoded(sources)
  {
    TrimFromCount(sources, y, 0);
    TrimFrom(sources, y, 0)
  }

  /** The number of items that decoded. */
  function CountDecoded<T>(sources: seq<Source<T>>): (r: nat)
    ensures r <= |sources|
  {
    if sources == [] then 0
    else (if sources[0].Decoded? then 1 else 0) + CountDecoded(sources[1..])
  }

  /** `c` is the clip the program writes for the input at its position, when
      positions start after `offset`. */
  ghost predicate ClipOf<T>(sources: seq<Source<T>>, y: nat, offset: nat, c: Clip<T>) {
    && offset < c.index <= offset + |sources|
    && sources[c.index - offset - 1].Decoded?
    && c.audio == Head(sources[c.index - offset - 1].audio, LimitMs(y))
    && c.name == ClipName(c.index)
  }

  /** `c` carries a position after `offset` whose input decoded. */
  ghost predicate PositionOf<T>(sources: seq<Source<T>>, offset: nat, c: Clip<T>) {
    offset < c.index <= offset + |sources| && sources[c.index - offset - 1].Decoded?
  }

  ghost predicate AllPositionsOf<T>(sources: seq<Source<T>>, offset: nat, out: seq<Clip<T>>) {
    forall k :: 0 <= k < |out| ==> PositionOf(sources, offset, out[k])
  }

  /** Every clip in `out` is the clip written for its input position. */
  ghost predicate AllClipsOf<T>(sources: seq<Source<T>>, y: nat, offset: nat, out: seq<Clip<T>>) {
    forall k :: 0 <= k < |out| ==> ClipOf(sources, y, offset, out[k])
  }

  /** Clip positions strictly increase along `out`. */
  ghost predicate Increasing<T>(out: seq<Clip<T>>) {
    forall k, l :: 0 <= k < l < |out| ==> out[k].index < out[l].index
  }

  /** One clip per decoded item. */
  lemma {:induction false} TrimFromCount<T>(sources: seq<Source<T>>, y: nat, offset: nat)
    ensures |TrimFrom(sources, y, offset)| == CountDecoded(sources)
    decreases |sources|
  {
    if sources != [] {
      TrimFromCount(sources[1..], y, offset + 1);
    }
  }

  /** Every output position is that of a decoded input. */
  lemma {:induction false} TrimFromPositions<T>(sources: seq<Source<T>>, y: nat, offset: nat)
    ensures AllPositionsOf(sources, offset, TrimFrom(sources, y, offset))
    decreases |sources|
  {
    if sources != [] {
      var rest := TrimFrom(sources[1..], y, offset + 1);
      var out := TrimFrom(sources, y, offset);
      TrimFromPositions(sources[1..], y, offset + 1);
      forall k | 0 <= k < |out|
        ensures PositionOf(sources, offset, out[k])
      {
        var shift := if sources[0].Decoded? then 1 else 0;
        if k >= shift {
          assert out[k] == rest[k - shift];
          assert PositionOf(sources[1..], offset + 1, rest[k - shift]);
          assert sources[1..][out[k].index - offset - 2] == sources[out[k].index - offset - 1];
        }
      }
    }
  }

  /** A clip written for the tail of the inputs is the clip written for the
      same position of the whole list. */
  lemma ClipOfTail<T>(sources: seq<Source<T>>, y: nat, offset: nat, c: Clip<T>)
    requires sources != [] && ClipOf(sources[1..], y, offset + 1, c)
    ensures ClipOf(sources, y, offset, c)
  {
    assert sources[1..][c.index - offset - 2] == sources[c.index - offset - 1];
  }

  /** Every output clip is the trimmed audio of the input at its position. */
  lemma {:induction false} TrimFromClips<T>(sources: seq<Source<T>>, y: nat, offset: nat)
    ensures AllClipsOf(sources, y, offset, TrimFrom(sources, y, offset))
    decreases |sources|
  {
    if sources != [] {
      var rest := TrimFrom(sources[1..], y, offset + 1);
      var out := TrimFrom(sources, y, offset);
      TrimFromClips(sources[1..], y, offset + 1);
      var shift := if sources[0].Decoded? then 1 else 0;
      forall k | 0 <= k < |out|
        ensures ClipOf(sources, y, offset, out[k])
      {
        if k >= shift {
          assert out[k] == rest[k - shift];
          ClipOfTail(sources, y, offset, rest[k - shift]);
        }
      }
    }
  }

  /** Output positions strictly increase: the clips keep input order. */
  lemma {:induction false} TrimFromIncreasing<T>(sources: seq<Source<T>>, y: nat, offset: nat)
    ensures Increasing(TrimFrom(sources, y, offset))
    decreases |sources|
  {
    if sources != [] {
      var rest := TrimFrom(sources[1..], y, offset + 1);
      var out := TrimFrom(sources, y, offset);
      TrimFromIncreasing(sources[1..], y, offset + 1);
      TrimFromPositions(sources[1..], y, offset + 1);
      if sources[0].Decoded? {
        forall k, l | 0 <= k < l < |out|
          ensures out[k].index < out[l].index
        {
          assert out[l] == rest[l - 1];
          assert PositionOf(sources[1..], offset + 1, rest[l - 1]);
          if k > 0 {
            assert out[k] == rest[k - 1];
          }
        }
      }
    }
  }

  /** Every decoded input position appears among the output positions; with
      `TrimFromPositions`, failures are exactly the gaps. */
  lemma {:induction false} TrimFromHits<T>(sources: seq<Source<T>>, y: nat, offset: nat, j: nat)
    requires j < |sources| && sources[j].Decoded?
    ensures exists k :: 0 <= k < |TrimFrom(sources, y, offset)| && TrimFrom(sources, y, offset)[k].index == offset + j + 1
    decreases |sources|
  {
    var out := TrimFrom(sources, y, offset);
    if j == 0 {
      assert out[0].index == offset + 1;
    } else {
      var rest := TrimFrom(sources[1..], y, offset + 1);
      assert sources[1..][j - 1] == sources[j];
      TrimFromHits(sources[1..], y, offset + 1, j - 1);
      var k :| 0 <= k < |rest| && rest[k].index == offset + 1 + (j - 1) + 1;
      var shift := if sources[0].Decoded? then 1 else 0;
      assert out[k + shift] == rest[k];
    }
  }

  /** The trim stage, stated on 1-based input positions: one clip per
      decoded input, never more clips than inputs; each clip is the head of
      its own input, at most `y * 1000` units long and named after its
      position; positions strictly increase; and a position is used exactly
      when its input decoded. */
  lemma TrimSpec<T>(sources: seq<Source<T>>, y: nat)
    ensures var out := TrimFirstSeconds(sources, y);
      && |out| == CountDecoded(sources) <= |sources|
      && (forall k :: 0 <= k < |out| ==>
            && 1 <= out[k].index <= |sources|
            && sources[out[k].index - 1].Decoded?
            && out[k].audio == Head(sources[out[k].index - 1].audio, LimitMs(y))
            && |out[k].audio| <= LimitMs(y)
            && out[k].name == ClipName(out[k].index))
      && (forall k, l :: 0 <= k < l < |out| ==> out[k].index < out[l].index)
      && (forall j :: 0 <= j < |sources| ==>
            (sources[j].Decoded? <==> exists k :: 0 <= k < |out| && out[k].index == j + 1))
  {
    var out := TrimFirstSeconds(sources, y);
    TrimFromCount(sources, y, 0);
    TrimFromClips(sources, y, 0);
    TrimFromIncreasing(sources, y, 0);
    TrimFromPositions(sources, y, 0);
    forall j | 0 <= j < |sources|
      ensures sources[j].Decoded? <==> exists k :: 0 <= k < |out| && out[k].index == j + 1
    {
      if sources[j].Decoded? {
        TrimFromHits(sources, y, 0, j);
      } else {
        forall k | 0 <= k < |out|
          ensures out[k].index != j + 1
        {
          assert PositionOf(sources, 0, out[k]);
        }
      }
    }
    forall k | 0 <= k < |out|
      ensures 1 <= out[k].index <= |sources|
    {
      assert ClipOf(sources, y, 0, out[k]);
    }
  }

  /** No more clips than inputs, none longer than `y * 1000` units. */
  lemma TrimClipsShort<T>(sources: seq<Source<T>>, y: nat)
    ensures var out := TrimFirstSeconds(sources, y);
      && |out| <= |sources|
      && forall k :: 0 <= k < |out| ==> |out[k].audio| <= LimitMs(y)
  {
    var out := TrimFirstSeconds(sources, y);
    TrimFromCount(sources, y, 0);
    TrimFromClips(sources, y, 0);
    forall k | 0 <= k < |out|
      ensures |out[k].audio| <= LimitMs(y)
    {
      assert ClipOf(sources, y, 0, out[k]);
    }
  }

  /** No two output clips share a file name. */
  lemma TrimNamesDistinct<T>(sources: seq<Source<T>>, y: nat)
    ensures var out := TrimFirstSeconds(sources, y);
      forall k, l :: 0 <= k < l < |out| ==> out[k].name != out[l].name
  {
    var out := TrimFirstSeconds(sources, y);
    TrimFromClips(sources, y, 0);
    TrimFromIncreasing(sources, y, 0);
    forall k, l | 0 <= k < l < |out|
      ensures out[k].name != out[l].name
    {
      assert ClipOf(sources, y, 0, out[k]) && ClipOf(sources, y, 0, out[l]);
      if out[k].name == out[l].name {
        ClipNameInjective(out[k].index, out[l].index);
      }
    }
  }

  /** Some clip is produced exactly when some input decoded. */
  lemma TrimNonEmpty<T>(sources: seq<Source<T>>, y: nat)
    ensures TrimFirstSeconds(sources, y) != [] <==> exists j :: 0 <= j < |sources| && sources[j].Decoded?
  {
    var out := TrimFirstSeconds(sources, y);
    TrimFromPositions(sources, y, 0);
    if out != [] {
      assert PositionOf(sources, 0, out[0]);
    } else if j :| 0 <= j < |sources| && sources[j].Decoded? {
      TrimFromHits(sources, y, 0, j);
    }
  }

  /** The worked case of a corrupt middle file: of three inputs whose second
      fails, the clips are numbered 1 and 3. */
  lemma MiddleFailureLeavesGap<T>(a: seq<T>, b: seq<T>, y: nat)
    ensures var out := TrimFirstSeconds([Decoded(a), Fails, Decoded(b)], y);
      && |out| == 2
      && out[0] == Clip(1, ClipName(1), Head(a, LimitMs(y)))
      && out[1] == Clip(3, ClipName(3), Head(b, LimitMs(y)))
  {
    var s := [Decoded(a), Fails, Decoded(b)];
    assert s[1..] == [Fails, Decoded(b)];
    assert s[1..][1..] == [Decoded(b)];
    assert s[1..][1..][1..] == [];
    assert TrimFrom(s[1..][1..][1..], y, 3) == [];
    var last := TrimFrom(s[1..][1..], y, 2);
    assert last == [Clip(3, ClipName(3), Head(b, LimitMs(y)))];
    assert TrimFrom(s[1..], y, 1) == last;
  }
}
