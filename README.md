# HLS stream tool: a Dafny model of its segment logic

The modelled program is a small HLS (HTTP Live Streaming) utility. Its class
`AllInOneStreamTool` fetches a media playlist over HTTP and then does one of
four things:

- lists the playlist's segment URLs (`stream_info`);
- downloads the first `count` segments to `segment_NNN.ts` files
  (`download_segments`);
- polls the playlist and reports each change (`monitor_stream`);
- hands the playlist URL to `ffmpeg` or `ffplay`.

This project models the deterministic logic inside the class. Every network
fetch and every file write is an input to the model:

- **Transport** (`transport.dfy`): a fetch result is `Ok(body)` or
  `Failed`. The tool never checks the HTTP status code, so any response
  that arrives is `Ok`, an error page included. Only an exception
  (connection error, timeout) is `Failed`.
- **Lines** (`lines.dfy`): Python's `text.split('\n')`, written out exactly.
  The empty text gives `[""]` and a trailing newline gives a final `""`. A
  `'\r'` stays on its line. `Split` is proved to be the inverse of
  `'\n'.join` over newline-free lines, in both directions.
- **Playlist** (`playlist.dfy`): segment URL extraction,
  `[line for line in text.split('\n') if line.startswith('http')]`. The
  tool uses it in three places. It is a loose reading of an HLS media
  playlist (section 4.3.2 of RFC 8216). Tags are dropped, and so are
  relative segment URIs.
- **SegmentNames** (`segment_names.dfy`): the file name
  `f"segment_{i:03d}.ts"`, with the decimal conversion and zero padding
  written out. Parsing a name gives back its index, so the naming is
  injective.
- **Downloader** (`downloader.dfy`): `download_segments` is a method.
  Its loop runs over a sequence of per-segment outcomes (saved, fetch
  failed, write failed) and returns a report: the URLs requested, the
  files written and the indices that failed.
- **Monitor** (`monitor.dfy`): `monitor_stream` is the class
  `PlaylistMonitor`. Its field `lastContent` starts as `""`. `Tick` models
  one poll, and `Watch` models the polling loop over a finite run of fetch
  results.
- **Info** (`info.dfy`): `stream_info`. It previews at most five URLs, and
  adds "... and N more" when there are more.

Functions in Dafny are deterministic. So extraction gives the same list each
time it runs on the same text, with no proof needed.

Two details of the code shape the model:

- `time.sleep(0.5)` is inside the per-segment `try` (line 35), so it runs
  only after a successful save; a failed segment is followed at once by the
  next attempt.
- The command-line path (line 101) accepts any integer as `count`, and
  `segments[:count]` with a negative `count` drops that many segments from
  the end. `SliceLength` models this.

## Model

| member | source | states |
|---|---|---|
| `Lines.Split` | deepseek_python_20251021_7b9207.py:25 | `text.split('\n')` always yields at least one line, and no line contains a newline |
| `Lines.SplitCount` | deepseek_python_20251021_7b9207.py:25 | there is exactly one more line than there are newline characters in the text |
| `Lines.JoinSplit` | deepseek_python_20251021_7b9207.py:25 | splitting loses nothing: joining the lines with `'\n'` restores the text |
| `Lines.SplitJoin` | deepseek_python_20251021_7b9207.py:25 | splitting the join of newline-free lines gives back those lines, so split and join are inverse |
| `Lines.SplitAtNewline` | deepseek_python_20251021_7b9207.py:25 | the lines of `a + "\n" + b` are the lines of `a` followed by the lines of `b` |
| `Lines.SplitSingleLine` | deepseek_python_20251021_7b9207.py:25 | text with no newline is a single line |
| `Lines.TrailingNewline` | deepseek_python_20251021_7b9207.py:25 | a trailing newline adds a final empty line |
| `Lines.CarriageReturnKept` | deepseek_python_20251021_7b9207.py:25 | with CRLF line ends, the `'\r'` stays at the end of the line |
| `Playlist.IsSegmentLine` | deepseek_python_20251021_7b9207.py:25 | `line.startswith('http')`: true iff the line has at least four characters and its first four are `http`, case-sensitive |
| `Playlist.KeepSegmentLines` | deepseek_python_20251021_7b9207.py:25 | the kept lines all start with "http", are exactly the input lines that do, and are no more numerous than the input |
| `Playlist.SegmentUrls` | deepseek_python_20251021_7b9207.py:65 | every extracted URL starts with "http" and is a whole line of the text; a URL is extracted iff it is such a line; there are no more URLs than lines |
| `Playlist.KeepConcat` | deepseek_python_20251021_7b9207.py:25 | filtering distributes over concatenation, so order is kept |
| `Playlist.KeepCount` | deepseek_python_20251021_7b9207.py:25 | no deduplication: each "http" line is kept as many times as it occurs |
| `Playlist.NoSegmentLines` | deepseek_python_20251021_7b9207.py:81 | extraction is empty iff no line of the text starts with "http" |
| `Playlist.AppendLines` | deepseek_python_20251021_7b9207.py:81 | appending lines to a playlist appends their URLs after the existing ones |
| `Playlist.UrlsOfJoinedLines` | deepseek_python_20251021_7b9207.py:25 | a text written line by line yields exactly its "http" lines, in order |
| `Playlist.LineUrls` | deepseek_python_20251021_7b9207.py:25 | a single line yields itself if it starts with "http", and nothing otherwise |
| `Playlist.TagThenUrl` | deepseek_python_20251021_7b9207.py:25 | a tag line followed by a URL line contributes exactly that URL |
| `Playlist.TwoSegmentPlaylist` | deepseek_python_20251021_7b9207.py:25 | `#EXTINF\nu0\n#EXTINF\nu1\n` yields `[u0, u1]` |
| `Playlist.LineClassification` | deepseek_python_20251021_7b9207.py:25 | tags, relative URIs, empty lines and lines with leading blanks are dropped; http and https lines are kept |
| `SegmentNames.Decimal` | deepseek_python_20251021_7b9207.py:32 | the decimal form of an index has at least one digit, only digits, and no leading zero |
| `SegmentNames.Pad3` | deepseek_python_20251021_7b9207.py:32 | the `03d` field is all digits, with length 3, or the length of the decimal form when that is longer |
| `SegmentNames.SegmentName` | deepseek_python_20251021_7b9207.py:32 | a file name is `segment_` plus the padded field plus `.ts`, so its length is 11 plus the field's |
| `SegmentNames.NameFields` | deepseek_python_20251021_7b9207.py:32 | a file name starts with `segment_`, ends with `.ts`, and holds the padded field between the two |
| `SegmentNames.DecimalValue` | deepseek_python_20251021_7b9207.py:32 | the decimal form of `n` denotes `n` |
| `SegmentNames.DecimalLength` | deepseek_python_20251021_7b9207.py:32 | the decimal form has 1, at most 2, or at most 3 digits exactly when `n` is below 10, 100 or 1000 |
| `SegmentNames.Pad3Spec` | deepseek_python_20251021_7b9207.py:32 | the `03d` field denotes the index; it is exactly 3 digits below 1000, and from 1000 on it widens to the full decimal form; it ends with the decimal form, preceded only by `0`s |
| `SegmentNames.Pad3Digits` | deepseek_python_20251021_7b9207.py:32 | below 1000 the field is the hundreds, tens and units digits |
| `SegmentNames.ParseName` | deepseek_python_20251021_7b9207.py:32 | parsing a segment file name gives back the index it was made from |
| `SegmentNames.SegmentNameInjective` | deepseek_python_20251021_7b9207.py:32 | distinct indices give distinct file names |
| `SegmentNames.NamesSortByIndex` | deepseek_python_20251021_7b9207.py:32 | below 1000, file names sort in code-point order exactly as their indices do |
| `SegmentNames.FieldsSortByIndex` | deepseek_python_20251021_7b9207.py:32 | below 1000, the padded field followed by `.ts` sorts in code-point order exactly as the indices do |
| `SegmentNames.SortBreaksAt1000` | deepseek_python_20251021_7b9207.py:32 | from 1000 on the order breaks: `segment_1000.ts` sorts before `segment_999.ts` |
| `SegmentNames.NameExamples` | deepseek_python_20251021_7b9207.py:32 | indices 0, 1, 7 and 42 give `segment_000.ts`, `segment_001.ts`, `segment_007.ts` and `segment_042.ts` |
| `SegmentNames.WideNameExample` | deepseek_python_20251021_7b9207.py:32 | index 1234 gives `segment_1234.ts` |
| `Downloader.SliceLength` | deepseek_python_20251021_7b9207.py:28 | `len(segments[:count])`: `min(count, n)` for a non-negative count; a negative count drops `-count` segments from the end, all of them when `-count >= n` |
| `Downloader.SavedIndices` | deepseek_python_20251021_7b9207.py:29-34 | the indices of the segments that were saved: no more than the attempts, each a valid attempt index |
| `Downloader.FailedIndices` | deepseek_python_20251021_7b9207.py:36-37 | the indices of the segments that raised: no more than the attempts, each a valid attempt index |
| `Downloader.WritesOf` | deepseek_python_20251021_7b9207.py:32-33 | the files a run of attempts writes: at most one per attempt, each named with the `segment_` prefix |
| `Downloader.DownloadSegments` | deepseek_python_20251021_7b9207.py:21-39 | a failed playlist fetch gives an error and nothing else: no request, no file. Otherwise the report has the segment count found, the requested URLs `segments[:count]`, and the writes and failures of those attempts |
| `Downloader.DownloadBatch` | deepseek_python_20251021_7b9207.py:28-37 | attempts `segments[:count]` in order: `min(count, n)` segments for a non-negative count, `n + count` (at least 0) for a negative one. Each attempt either writes a file or is recorded as failed, and the loop always goes on |
| `Downloader.NextAttempt` | deepseek_python_20251021_7b9207.py:29-37 | attempt `i` either appends the write of `segment_i` with its fetched body, or appends `i` to the failures |
| `Downloader.SavedIndicesSpec` | deepseek_python_20251021_7b9207.py:29-34 | the saved indices are exactly the attempts whose fetch and write both succeeded, in ascending order |
| `Downloader.FailedIndicesSpec` | deepseek_python_20251021_7b9207.py:36-37 | the failed indices are exactly the attempts whose fetch or write raised, in ascending order |
| `Downloader.IndicesPartition` | deepseek_python_20251021_7b9207.py:29-37 | the saved and failed indices together account for every attempt |
| `Downloader.WritesAreSavedSegments` | deepseek_python_20251021_7b9207.py:32-33 | the k-th file written is the k-th saved segment, under its own index's name and with its fetched body |
| `Downloader.WriteNamesDistinct` | deepseek_python_20251021_7b9207.py:32 | no two files of a batch have the same name, so none overwrites another |
| `Downloader.FirstTwoOfThree` | deepseek_python_20251021_7b9207.py:28-34 | with three segments and count 2, the first two are attempted and saved as `segment_000.ts` and `segment_001.ts` |
| `Downloader.FailureIsIsolated` | deepseek_python_20251021_7b9207.py:29-37 | if segment 0 fails and segment 1 succeeds, `segment_001.ts` is still written and index 0 is reported as failed |
| `Monitor.EventFor` | deepseek_python_20251021_7b9207.py:79-86 | one poll: an update iff the fetch gave text different from the held text, with that text's URL count; silent iff the text is the same; an error iff the fetch raised |
| `Monitor.PlaylistMonitor.constructor` | deepseek_python_20251021_7b9207.py:75 | the monitor starts with empty `last_content` |
| `Monitor.PlaylistMonitor.Tick` | deepseek_python_20251021_7b9207.py:78-87 | different text: report its segment count, store it, wait 10. Equal text: silent, state unchanged, wait 10. Failed fetch: error, state unchanged, wait 5 |
| `Monitor.PlaylistMonitor.Watch` | deepseek_python_20251021_7b9207.py:77-87 | a run of ticks produces the events of the tick-by-tick specification and leaves the text it defines |
| `Monitor.LatestAfterFailures` | deepseek_python_20251021_7b9207.py:85-87 | if every fetch fails, the monitor keeps its starting text |
| `Monitor.LatestIsLastReceived` | deepseek_python_20251021_7b9207.py:80-83 | the monitor holds the text of the most recent successful fetch |
| `Monitor.EventsAt` | deepseek_python_20251021_7b9207.py:79-86 | one event per tick. A tick reports an update iff it received text different from the text held before it, and the count is that text's extraction length. It is silent iff the text is the same, and reports an error iff the fetch failed |
| `Monitor.RepeatIsSilent` | deepseek_python_20251021_7b9207.py:80 | fetching the same text again is silent, even with failed fetches in between |
| `Monitor.FirstTick` | deepseek_python_20251021_7b9207.py:75-83 | on a fresh monitor, an empty first fetch is not reported; any other first fetch is |
| `Info.PreviewOf` | deepseek_python_20251021_7b9207.py:66-69 | the preview shows the first `min(5, n)` URLs. The "more" line appears iff `n > 5`, and shown plus "more" add up to `n` |
| `Info.StreamInfo` | deepseek_python_20251021_7b9207.py:58-71 | a failed fetch gives an error. Otherwise the text is shown unchanged, and the preview is `PreviewOf` the text's URL list: its first `min(5, n)` URLs, each an "http" line of the text, and the count of the rest |
| `Info.PreviewBoundary` | deepseek_python_20251021_7b9207.py:66-69 | five URLs are shown with no "more" line; a sixth adds "... and 1 more" |

## Left out

- The HTTP layer (the `requests` session, its headers and timeouts) is a foreign library. Each fetch is an input: a body or a failure.
- Real file writes become the list of (name, body) writes in the report. If opening succeeds and writing then raises, a truncated file may remain on disk; the model records that attempt as failed with no file.
- `time.sleep` and `time.strftime` are wall-clock effects. The monitor records which delay a tick picks (10 or 5 seconds). The 0.5-second pause after each saved segment is not modelled, and neither are timestamps.
- Console output is not modelled: progress lines, the printed exception messages and the full playlist text printed by `stream_info`. The report keeps its content as structured values: counts, URLs, failed indices and the "more" count.
- `record_stream` and `play_stream` are not modelled. They only build an argument list and run `ffmpeg` or `ffplay` as external processes.
- The interactive menu, `input()`, `sys.argv` parsing and `print_help` are user-interface glue. `count` is taken as any integer, which covers both the menu path (non-negative) and the command-line path (any integer).
- The polling loop runs until a keyboard interrupt. `Watch` models it over a finite sequence of ticks instead, and the interrupt is the end of that sequence.
