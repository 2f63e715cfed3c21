/** `download_segments`: fetch the playlist, take the first `count` segment
    URLs, and save each segment's body as `segment_NNN.ts`. A failure of one
    segment (its fetch or its file write) is caught and the loop moves on;
    a failure to fetch the playlist ends the operation before any segment. */
module Downloader {
  import opened Transport
  import opened Playlist
  import opened SegmentNames

  /** What the environment does for one attempted segment. */
  datatype SegmentOutcome =
    | Saved(content: Bytes)   // the GET returned a body and the file was written
    | FetchFailed             // the GET raised
    | WriteFailed             // the GET returned a body, opening or writing the file raised

  datatype FileWrite = FileWrite(name: string, content: Bytes)

  datatype DownloadReport =
    | PlaylistUnavailable
    | Batch(found: nat, requested: seq<string>, writes: seq<FileWrite>, failed: seq<nat>)

  /** The length of Python's `segments[:count]` for a list of length `n`:
      a negative `count` counts from the end. */
  function SliceLength(count: int, n: nat): (len: nat)
    ensures len <= n
    ensures count >= n ==> len == n
    ensures 0 <= count <= n ==> len == count
    ensures count < 0 ==> n - len == (if -count < n then -count else n)
  {
    if count >= 0 then (if count < n then count else n)
    else if n + count >= 0 then n + count else 0
  }

  /** The indices, ascending, whose segment was saved. */
  function SavedIndices(outcomes: seq<SegmentOutcome>): (saved: seq<nat>)
    ensures |saved| <= |outcomes|
    ensures forall k :: 0 <= k < |saved| ==> saved[k] < |outcomes|
    decreases |outcomes|
  {
    if outcomes == [] then []
    else
      var i := |outcomes| - 1;
      SavedIndices(outcomes[..i]) + (if outcomes[i].Saved? then [i] else [])
  }

  /** The indices, ascending, whose attempt failed. */
  function FailedIndices(outcomes: seq<SegmentOutcome>): (failed: seq<nat>)
    ensures |failed| <= |outcomes|
    ensures forall k :: 0 <= k < |failed| ==> failed[k] < |outcomes|
    decreases |outcomes|
  {
    if outcomes == [] then []
    else
      var i := |outcomes| - 1;
      FailedIndices(outcomes[..i]) + (if outcomes[i].Saved? then [] else [i])
  }

  /** The files written, in the order the loop writes them. */
  function WritesOf(outcomes: seq<SegmentOutcome>): (writes: seq<FileWrite>)
    ensures |writes| <= |outcomes|
    ensures forall k :: 0 <= k < |writes| ==> NamePrefix <= writes[k].name
    decreases |outcomes|
  {
    if outcomes == [] then []
    else
      var i := |outcomes| - 1;
      WritesOf(outcomes[..i])
        + (match outcomes[i]
           case Saved(content) => [FileWrite(SegmentName(i), content)]
           case _ => [])
  }

  /** The download operation, with the playlist fetch as input. A failed
      playlist fetch ends it before any segment is attempted. */
  method DownloadSegments(playlist: Fetched<string>, count: int, outcomes: seq<SegmentOutcome>)
    returns (report: DownloadReport)
    requires playlist.Ok? ==> SliceLength(count, |SegmentUrls(playlist.body)|) <= |outcomes|
    ensures playlist.Failed? <==> report == PlaylistUnavailable
    ensures playlist.Ok? ==>
      var segments := SegmentUrls(playlist.body);
      var n := SliceLength(count, |segments|);
      && report.Batch?
      && report.found == |segments|
      && report.requested == segments[..n]
      && report.writes == WritesOf(outcomes[..n])
      && report.failed == FailedIndices(outcomes[..n])
  {
    match playlist
    case Failed =>
      report := PlaylistUnavailable;
    case Ok(text) =>
      var segments := SegmentUrls(text);
      var requested, writes, failed := DownloadBatch(segments, count, outcomes);
      report := Batch(|segments|, requested, writes, failed);
  }

  /** The loop over `enumerate(segments[:count])`: attempt each segment in
      order, one outcome per attempt taken from `outcomes`; a failed attempt
      is recorded and the loop goes on with the next index. */
  method DownloadBatch(segments: seq<string>, count: int, outcomes: seq<SegmentOutcome>)
    returns (requested: seq<string>, writes: seq<FileWrite>, failed: seq<nat>)
    requires SliceLength(count, |segments|) <= |outcomes|
    ensures var n := SliceLength(count, |segments|);
            && requested == segments[..n]
            && writes == WritesOf(outcomes[..n])
            && failed == FailedIndices(outcomes[..n])
    ensures count >= 0 ==> |requested| == if count < |segments| then count else |segments|
    ensures count < 0 ==> |requested| == if |segments| + count > 0 then |segments| + count else 0
    ensures |writes| + |failed| == |requested|
  {
    var batch := segments[..SliceLength(count, |segments|)];
    requested, writes, failed := [], [], [];
    var i := 0;
    while i < |batch|
      invariant 0 <= i <= |batch|
      invariant requested == batch[..i]
      invariant writes == WritesOf(outcomes[..i])
      invariant failed == FailedIndices(outcomes[..i])
      invariant |writes| + |failed| == i
    {
      requested := requested + [batch[i]];
      NextAttempt(outcomes, i);
      if outcomes[i].Saved? {
        writes := writes + [FileWrite(SegmentName(i), outcomes[i].content)];
      } else {
        failed := failed + [i];
      }
      i := i + 1;
    }
    assert batch[..i] == batch;
  }

  /** One more attempt extends the writes or the failures by its own index. */
  lemma NextAttempt(outcomes: seq<SegmentOutcome>, i: nat)
    requires i < |outcomes|
    ensures WritesOf(outcomes[..i + 1]) == WritesOf(outcomes[..i])
              + (if outcomes[i].Saved? then [FileWrite(SegmentName(i), outcomes[i].content)] else [])
    ensures FailedIndices(outcomes[..i + 1]) == FailedIndices(outcomes[..i])
              + (if outcomes[i].Saved? then [] else [i])
  {
    assert outcomes[..i + 1][..i] == outcomes[..i];
  }

  /** The saved indices are, in ascending order, exactly the attempts whose
      outcome is Saved. */
  lemma {:induction false} SavedIndicesSpec(outcomes: seq<SegmentOutcome>)
    ensures forall i: nat :: i in SavedIndices(outcomes) <==> i < |outcomes| && outcomes[i].Saved?
    ensures Ascending(SavedIndices(outcomes))
    decreases |outcomes|
  {
    if outcomes != [] {
      var last := |outcomes| - 1;
      var prefix := outcomes[..last];
      SavedIndicesSpec(prefix);
      var before := SavedIndices(prefix);
      assert SavedIndices(outcomes) == before + (if outcomes[last].Saved? then [last] else []);
      forall i: nat
        ensures i in SavedIndices(outcomes) <==> i < |outcomes| && outcomes[i].Saved?
      {
        if i < last {
          assert outcomes[i] == prefix[i];
        }
      }
      AppendAscending(before, last, outcomes[last].Saved?);
    }
  }

  /** The failed indices are, in ascending order, exactly the attempts whose
      fetch or write failed. */
  lemma {:induction false} FailedIndicesSpec(outcomes: seq<SegmentOutcome>)
    ensures forall i: nat :: i in FailedIndices(outcomes) <==> i < |outcomes| && !outcomes[i].Saved?
    ensures Ascending(FailedIndices(outcomes))
    decreases |outcomes|
  {
    if outcomes != [] {
      var last := |outcomes| - 1;
      var prefix := outcomes[..last];
      FailedIndicesSpec(prefix);
      var before := FailedIndices(prefix);
      assert FailedIndices(outcomes) == before + (if !outcomes[last].Saved? then [last] else []);
      forall i: nat
        ensures i in FailedIndices(outcomes) <==> i < |outcomes| && !outcomes[i].Saved?
      {
        if i < last {
          assert outcomes[i] == prefix[i];
        }
      }
      AppendAscending(before, last, !outcomes[last].Saved?);
    }
  }

  /** Every attempt is either saved or failed, never both. */
  lemma {:induction false} IndicesPartition(outcomes: seq<SegmentOutcome>)
    ensures |SavedIndices(outcomes)| + |FailedIndices(outcomes)| == |outcomes|
    decreases |outcomes|
  {
    if outcomes != [] {
      IndicesPartition(outcomes[..|outcomes| - 1]);
    }
  }

  lemma AppendAscending(s: seq<nat>, x: nat, present: bool)
    requires Ascending(s)
    requires forall j :: j in s ==> j < x
    ensures Ascending(s + (if present then [x] else []))
  {
    var t := s + (if present then [x] else []);
    forall a, b | 0 <= a < b < |t|
      ensures t[a] < t[b]
    {
      assert t[a] in s;
    }
  }

  predicate Ascending(s: seq<nat>) {
    forall a, b :: 0 <= a < b < |s| ==> s[a] < s[b]
  }

  /** The k-th file written is the k-th saved segment, under its own index's
      name and with the body its fetch returned. */
  lemma {:induction false} WritesAreSavedSegments(outcomes: seq<SegmentOutcome>)
    ensures |WritesOf(outcomes)| == |SavedIndices(outcomes)|
    ensures forall k :: 0 <= k < |WritesOf(outcomes)| ==>
              var i := SavedIndices(outcomes)[k];
              i < |outcomes| && outcomes[i].Saved?
              && WritesOf(outcomes)[k] == FileWrite(SegmentName(i), outcomes[i].content)
    decreases |outcomes|
  {
    if outcomes != [] {
      var last := |outcomes| - 1;
      var prefix := outcomes[..last];
      WritesAreSavedSegments(prefix);
      SavedIndicesSpec(prefix);
      var writes, saved := WritesOf(outcomes), SavedIndices(outcomes);
      assert writes[..|WritesOf(prefix)|] == WritesOf(prefix);
      assert saved[..|SavedIndices(prefix)|] == SavedIndices(prefix);
      forall k | 0 <= k < |writes|
        ensures saved[k] < |outcomes| && outcomes[saved[k]].Saved?
        ensures writes[k] == FileWrite(SegmentName(saved[k]), outcomes[saved[k]].content)
      {
        if k < |WritesOf(prefix)| {
          assert writes[k] == WritesOf(prefix)[k] && saved[k] == SavedIndices(prefix)[k];
          assert outcomes[saved[k]] == prefix[saved[k]];
        }
      }
    }
  }

  /** No two files of a batch share a name. */
  lemma WriteNamesDistinct(outcomes: seq<SegmentOutcome>)
    ensures forall a, b :: 0 <= a < b < |WritesOf(outcomes)| ==>
              WritesOf(outcomes)[a].name != WritesOf(outcomes)[b].name
  {
    WritesAreSavedSegments(outcomes);
    SavedIndicesSpec(outcomes);
    var writes := WritesOf(outcomes);
    var saved := SavedIndices(outcomes);
    forall a, b | 0 <= a < b < |writes|
      ensures writes[a].name != writes[b].name
    {
      SegmentNameInjective(saved[a], saved[b]);
    }
  }

  /** Three segments, count 2: the first two are attempted, the third is not,
      and the files are segment_000.ts and segment_001.ts. */
  lemma FirstTwoOfThree(b0: Bytes, b1: Bytes, b2: Bytes)
    ensures SliceLength(2, 3) == 2
    ensures [Saved(b0), Saved(b1), Saved(b2)][..2] == [Saved(b0), Saved(b1)]
    ensures WritesOf([Saved(b0), Saved(b1)])
              == [FileWrite("segment_000.ts", b0), FileWrite("segment_001.ts", b1)]
  {
    var attempted := [Saved(b0), Saved(b1)];
    assert attempted[..1] == [Saved(b0)];
    assert attempted[..1][..0] == [];
    NameExamples();
    assert WritesOf(attempted[..1]) == [FileWrite(SegmentName(0), b0)];
    assert WritesOf(attempted) == WritesOf(attempted[..1]) + [FileWrite(SegmentName(1), b1)];
  }

  /** A failed first segment does not stop the batch: the second is still
      saved under index 001, and index 0 is reported as failed. */
  lemma FailureIsIsolated(b1: Bytes)
    ensures WritesOf([FetchFailed, Saved(b1)]) == [FileWrite("segment_001.ts", b1)]
    ensures FailedIndices([FetchFailed, Saved(b1)]) == [0]
  {
    var outcomes := [FetchFailed, Saved(b1)];
    assert outcomes[..1] == [FetchFailed];
    assert outcomes[..1][..0] == [];
    NameExamples();
    assert WritesOf(outcomes[..1]) == [];
    assert WritesOf(outcomes) == [FileWrite(SegmentName(1), b1)];
    assert FailedIndices(outcomes[..1]) == [0];
  }
}
