/** The merge stage `merge_all`: the trimmed clips are read back and joined
    end to end, in list order, into one recording; an empty clip list is a
    fatal error. */
module Merge {
  import opened Results

  datatype MergeError =
    | NoTrimmedClips  // "Error: No trimmed clips available to merge.", exit status 1

  /** Reference definition: the clips laid end to end. */
  function Concat<T>(clips: seq<seq<T>>): seq<T> {
    if clips == [] then [] else clips[0] + Concat(clips[1..])
  }

  /** The sum of the clip lengths. */
  function TotalLength<T>(clips: seq<seq<T>>): nat {
    if clips == [] then 0 else |clips[0]| + TotalLength(clips[1..])
  }

  /** The loop `for f in clips: combined += f`, started from `combined`. */
  function AppendAll<T>(combined: seq<T>, clips: seq<seq<T>>): (r: seq<T>)
    ensures r == combined + Concat(clips)
    decreases |clips|
  {
    if clips == [] then combined
    else
      var r := AppendAll(combined + clips[0], clips[1..]);
      assert combined + clips[0] + Concat(clips[1..]) == combined + (clips[0] + Concat(clips[1..]));
      r
  }

  /** `merge_all(trimmed_files, out_file)`, without the export: the merged
      recording, or the error for an empty clip list. */
  function MergeAll<T>(clips: seq<seq<T>>): (r: Result<seq<T>, MergeError>)
    ensures r.Failure? <==> clips == []
    ensures r.Success? ==> r.value == Concat(clips)
  {
    if clips == [] then Failure(NoTrimmedClips) else Success(AppendAll([], clips))
  }

  /** The merged length is the sum of the clip lengths. */
  lemma {:induction false} ConcatLength<T>(clips: seq<seq<T>>)
    ensures |Concat(clips)| == TotalLength(clips)
    decreases |clips|
  {
    if clips != [] {
      ConcatLength(clips[1..]);
    }
  }

  /** Concatenation of a split list is the concatenation of the parts. */
  lemma {:induction false} ConcatAppend<T>(a: seq<seq<T>>, b: seq<seq<T>>)
    ensures Concat(a + b) == Concat(a) + Concat(b)
    decreases |a|
  {
    if a != [] {
      assert (a + b)[1..] == a[1..] + b;
      ConcatAppend(a[1..], b);
    } else {
      assert a + b == b;
    }
  }

  /** Clip `k` sits in the merged recording right after clips `0..k-1`,
      unchanged: the clips keep their order and their content. */
  lemma ConcatPlacement<T>(clips: seq<seq<T>>, k: nat)
    requires k < |clips|
    ensures var start := TotalLength(clips[..k]);
      && start + |clips[k]| <= |Concat(clips)|
      && Concat(clips)[start..start + |clips[k]|] == clips[k]
  {
    var before, after := clips[..k], clips[k + 1..];
    assert clips == before + ([clips[k]] + after);
    ConcatAppend(before, [clips[k]] + after);
    assert ([clips[k]] + after)[1..] == after;
    ConcatLength(before);
  }

  /** If every clip is at most `limit` long, the merge is at most
      `|clips| * limit` long. */
  lemma {:induction false} TotalLengthBound<T>(clips: seq<seq<T>>, limit: nat)
    requires forall k :: 0 <= k < |clips| ==> |clips[k]| <= limit
    ensures TotalLength(clips) <= |clips| * limit
    decreases |clips|
  {
    if clips != [] {
      assert forall k :: 0 <= k < |clips[1..]| ==> clips[1..][k] == clips[k + 1];
      TotalLengthBound(clips[1..], limit);
      assert |clips| * limit == limit + |clips[1..]| * limit;
    }
  }
}
