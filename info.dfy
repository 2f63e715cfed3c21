/** `stream_info`: fetch the playlist, show its text, then preview its
    segment URLs: at most the first five, followed by "... and N more" when
    there are more than five. */
module Info {
  import opened Transport
  import opened Options
  import opened Lines
  import opened Playlist

  const PreviewLimit: nat := 5

  /** The URLs printed, and the N of the "... and N more" line if printed. */
  datatype Preview = Preview(shown: seq<string>, more: Option<nat>)

  datatype InfoReport = InfoUnavailable | Shown(content: string, preview: Preview)

  /** `segments[:5]` and the count of the rest. */
  function PreviewOf(segments: seq<string>): (p: Preview)
    ensures |p.shown| == if |segments| < PreviewLimit then |segments| else PreviewLimit
    ensures p.shown <= segments
    ensures p.more.Some? <==> |segments| > PreviewLimit
    ensures |p.shown| + (if p.more.Some? then p.more.value else 0) == |segments|
  {
    var shown := if |segments| <= PreviewLimit then segments else segments[..PreviewLimit];
    Preview(shown, if |segments| > PreviewLimit then Some(|segments| - PreviewLimit) else None)
  }

  /** The whole operation, with the playlist fetch as input: a failed fetch
      reports an error; otherwise the text is shown unchanged and the preview
      holds only segment URLs of that text, from its start. */
  function StreamInfo(fetched: Fetched<string>): (report: InfoReport)
    ensures fetched.Failed? <==> report == InfoUnavailable
    ensures fetched.Ok? ==>
              && report.content == fetched.body
              && report.preview == PreviewOf(SegmentUrls(fetched.body))
              && report.preview.shown <= SegmentUrls(fetched.body)
              && forall k :: 0 <= k < |report.preview.shown| ==>
                   var url := report.preview.shown[k];
                   IsSegmentLine(url) && url in Split(fetched.body)
  {
    match fetched
    case Failed => InfoUnavailable
    case Ok(text) => Shown(text, PreviewOf(SegmentUrls(text)))
  }

  /** Five URLs are shown without a "more" line; a sixth adds "... and 1 more". */
  lemma PreviewBoundary(a: string, b: string, c: string, d: string, e: string, f: string)
    ensures PreviewOf([a, b, c, d, e]) == Preview([a, b, c, d, e], None)
    ensures PreviewOf([a, b, c, d, e, f]) == Preview([a, b, c, d, e], Some(1))
  {
    assert [a, b, c, d, e, f][..5] == [a, b, c, d, e];
  }
}
