/** `monitor_stream`: poll the playlist forever, remembering the last text
    received in `last_content` (initially empty). A text that differs from
    it is reported with its segment count and becomes the new
    `last_content`; an equal text is silent; a failed fetch is reported as an
    error and changes nothing. The next poll comes 10 seconds after a
    successful fetch and 5 seconds after a failed one. */
module Monitor {
  import opened Transport
  import opened Playlist

  const PollDelay: nat := 10
  const ErrorDelay: nat := 5

  datatype TickEvent =
    | Updated(segmentCount: nat)   // "Playlist updated - N segments"
    | Unchanged                    // nothing printed
    | PollFailed                   // "Error: ..."

  /** The event of one tick when `last` is the text held before it. */
  function EventFor(last: string, fetched: Fetched<string>): (event: TickEvent)
    ensures event.Updated? <==> fetched.Ok? && fetched.body != last
    ensures event.Updated? ==> event.segmentCount == |SegmentUrls(fetched.body)|
    ensures event == Unchanged <==> fetched.Ok? && fetched.body == last
    ensures event == PollFailed <==> fetched.Failed?
  {
    match fetched
    case Failed => PollFailed
    case Ok(text) => if text != last then Updated(|SegmentUrls(text)|) else Unchanged
  }

  /** The text held after the ticks `ticks`, starting from `last`. */
  function Latest(last: string, ticks: seq<Fetched<string>>): string
    decreases |ticks|
  {
    if ticks == [] then last
    else
      match ticks[|ticks| - 1]
      case Ok(text) => text
      case Failed => Latest(last, ticks[..|ticks| - 1])
  }

  /** The events of the ticks `ticks`, starting from `last`. */
  function Events(last: string, ticks: seq<Fetched<string>>): seq<TickEvent>
    decreases |ticks|
  {
    if ticks == [] then []
    else
      var before := ticks[..|ticks| - 1];
      Events(last, before) + [EventFor(Latest(last, before), ticks[|ticks| - 1])]
  }

  class PlaylistMonitor {
    var lastContent: string

    constructor ()
      ensures lastContent == ""
    {
      lastContent := "";
    }

    /** One iteration of the polling loop, with the fetch's result as input. */
    method Tick(fetched: Fetched<string>) returns (event: TickEvent, delay: nat)
      modifies this
      ensures fetched.Failed? ==>
                event == PollFailed && delay == ErrorDelay && lastContent == old(lastContent)
      ensures fetched.Ok? && fetched.body == old(lastContent) ==>
                event == Unchanged && delay == PollDelay && lastContent == old(lastContent)
      ensures fetched.Ok? && fetched.body != old(lastContent) ==>
                && event == Updated(|SegmentUrls(fetched.body)|)
                && delay == PollDelay
                && lastContent == fetched.body
    {
      match fetched
      case Failed =>
        event, delay := PollFailed, ErrorDelay;
      case Ok(text) =>
        if text != lastContent {
          var segments := SegmentUrls(text);
          event := Updated(|segments|);
          lastContent := text;
        } else {
          event := Unchanged;
        }
        delay := PollDelay;
    }

    /** The polling loop over a finite run of fetch results (the real loop
        ends only on an interrupt, between two ticks). */
    method Watch(ticks: seq<Fetched<string>>) returns (events: seq<TickEvent>)
      modifies this
      ensures events == Events(old(lastContent), ticks)
      ensures lastContent == Latest(old(lastContent), ticks)
    {
      events := [];
      var i := 0;
      while i < |ticks|
        invariant 0 <= i <= |ticks|
        invariant events == Events(old(lastContent), ticks[..i])
        invariant lastContent == Latest(old(lastContent), ticks[..i])
      {
        assert ticks[..i + 1][..i] == ticks[..i];
        var event, _ := Tick(ticks[i]);
        events := events + [event];
        i := i + 1;
      }
      assert ticks[..i] == ticks;
    }
  }

  /** When every fetch failed, the monitor still holds its starting text. */
  lemma {:induction false} LatestAfterFailures(last: string, ticks: seq<Fetched<string>>)
    requires forall k :: 0 <= k < |ticks| ==> ticks[k].Failed?
    ensures Latest(last, ticks) == last
    decreases |ticks|
  {
    if ticks != [] {
      LatestAfterFailures(last, ticks[..|ticks| - 1]);
    }
  }

  /** The monitor holds the text of the most recent successful fetch. */
  lemma {:induction false} LatestIsLastReceived(last: string, ticks: seq<Fetched<string>>, j: nat)
    requires j < |ticks| && ticks[j].Ok?
    requires forall k :: j < k < |ticks| ==> ticks[k].Failed?
    ensures Latest(last, ticks) == ticks[j].body
    decreases |ticks|
  {
    if j < |ticks| - 1 {
      var before := ticks[..|ticks| - 1];
      assert forall k :: j < k < |before| ==> before[k] == ticks[k];
      LatestIsLastReceived(last, before, j);
    }
  }

  /** Tick by tick: a tick reports an update exactly when it received a text
      different from the one held before it, and the count it reports is the
      number of segment URLs in that text; a failed fetch reports an error. */
  lemma {:induction false} EventsAt(last: string, ticks: seq<Fetched<string>>)
    ensures |Events(last, ticks)| == |ticks|
    ensures forall k :: 0 <= k < |ticks| ==>
              var held := Latest(last, ticks[..k]);
              var event := Events(last, ticks)[k];
              && (event.Updated? <==> ticks[k].Ok? && ticks[k].body != held)
              && (event.Updated? ==> event.segmentCount == |SegmentUrls(ticks[k].body)|)
              && (event == Unchanged <==> ticks[k].Ok? && ticks[k].body == held)
              && (event == PollFailed <==> ticks[k].Failed?)
    decreases |ticks|
  {
    if ticks != [] {
      var n := |ticks| - 1;
      var before := ticks[..n];
      EventsAt(last, before);
      assert forall k :: 0 <= k < n ==> ticks[..k] == before[..k] && before[k] == ticks[k];
    }
  }

  /** Fetching the same text again is silent, even with failed fetches in
      between. */
  lemma RepeatIsSilent(last: string, ticks: seq<Fetched<string>>, text: string, failures: seq<Fetched<string>>)
    requires forall k :: 0 <= k < |failures| ==> failures[k].Failed?
    ensures Events(last, ticks + [Ok(text)] + failures + [Ok(text)])
              == Events(last, ticks + [Ok(text)] + failures) + [Unchanged]
  {
    var before := ticks + [Ok(text)] + failures;
    var run := before + [Ok(text)];
    assert run[..|run| - 1] == before;
    assert forall k :: |ticks| < k < |before| ==> before[k] == failures[k - |ticks| - 1];
    LatestIsLastReceived(last, before, |ticks|);
  }

  /** A freshly started monitor holds the empty text, so an empty first
      fetch is not reported while any other first fetch is. */
  lemma FirstTick(text: string)
    ensures Events("", [Ok(text)]) == [if text == "" then Unchanged else Updated(|SegmentUrls(text)|)]
  {
    assert [Ok(text)][..0] == [];
  }
}
