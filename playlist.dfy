/** Segment URL extraction: the list comprehension
    `[line for line in text.split('\n') if line.startswith('http')]`
    that the tool evaluates in `download_segments`, `stream_info` and
    `monitor_stream`. It is a loose reading of an HLS media playlist
    (section 4.3.2 of RFC 8216): tags and comments are dropped, and so is
    every URI line that is not absolute `http...`, relative ones included. */
module Playlist {
  import opened Lines

  const HttpPrefix: string := "http"

  /** `line.startswith('http')`. */
  predicate IsSegmentLine(line: string): (starts: bool)
    ensures starts <==> |line| >= 4 && line[..4] == "http"
  {
    HttpPrefix <= line
  }

  /** The lines that start with "http", in their original order, repeats kept. */
  function KeepSegmentLines(lines: seq<string>): (kept: seq<string>)
    ensures |kept| <= |lines|
    ensures forall k :: 0 <= k < |kept| ==> IsSegmentLine(kept[k])
    ensures forall line :: line in kept <==> line in lines && IsSegmentLine(line)
  {
    if lines == [] then []
    else
      var rest := KeepSegmentLines(lines[1..]);
      assert lines == [lines[0]] + lines[1..];
      if IsSegmentLine(lines[0]) then [lines[0]] + rest else rest
  }

  /** The segment URLs of a playlist text. */
  function SegmentUrls(text: string): (urls: seq<string>)
    ensures |urls| <= |Split(text)|
    ensures forall k :: 0 <= k < |urls| ==> IsSegmentLine(urls[k]) && Newline !in urls[k]
    ensures forall url :: url in urls <==> url in Split(text) && IsSegmentLine(url)
  {
    KeepSegmentLines(Split(text))
  }

  /** Filtering distributes over concatenation: lines are kept in order. */
  lemma {:induction false} KeepConcat(a: seq<string>, b: seq<string>)
    ensures KeepSegmentLines(a + b) == KeepSegmentLines(a) + KeepSegmentLines(b)
    decreases |a|
  {
    if a != [] {
      assert (a + b)[1..] == a[1..] + b;
      KeepConcat(a[1..], b);
    } else {
      assert a + b == b;
    }
  }

  /** No deduplication: each segment line is kept as often as it occurs. */
  lemma {:induction false} KeepCount(lines: seq<string>, url: string)
    requires IsSegmentLine(url)
    ensures multiset(KeepSegmentLines(lines))[url] == multiset(lines)[url]
    decreases |lines|
  {
    if lines != [] {
      var rest := lines[1..];
      KeepCount(rest, url);
      assert lines == [lines[0]] + rest;
      assert multiset(lines) == multiset([lines[0]]) + multiset(rest);
      var kept := KeepSegmentLines(lines);
      if IsSegmentLine(lines[0]) {
        assert kept == [lines[0]] + KeepSegmentLines(rest);
        assert multiset(kept) == multiset([lines[0]]) + multiset(KeepSegmentLines(rest));
      } else {
        assert kept == KeepSegmentLines(rest);
        assert lines[0] != url;
      }
    }
  }

  /** A playlist yields no segment URL exactly when none of its lines starts
      with "http". */
  lemma NoSegmentLines(text: string)
    ensures SegmentUrls(text) == [] <==> forall line :: line in Split(text) ==> !IsSegmentLine(line)
  {
    var urls := SegmentUrls(text);
    if urls != [] {
      assert urls[0] in urls;
    }
  }

  /** Appending lines to a playlist appends their URLs: the URLs of
      `a + "\n" + b` are those of `a` followed by those of `b`. */
  lemma AppendLines(a: string, b: string)
    ensures SegmentUrls(a + [Newline] + b) == SegmentUrls(a) + SegmentUrls(b)
  {
    SplitAtNewline(a, b);
    KeepConcat(Split(a), Split(b));
  }

  /** The URLs of a playlist written line by line are its "http" lines. */
  lemma UrlsOfJoinedLines(lines: seq<string>)
    requires |lines| >= 1
    requires forall k :: 0 <= k < |lines| ==> Newline !in lines[k]
    ensures SegmentUrls(Join(lines)) == KeepSegmentLines(lines)
  {
    SplitJoin(lines);
  }

  /** A single line yields itself when it starts with "http", else nothing. */
  lemma LineUrls(line: string)
    requires Newline !in line
    ensures SegmentUrls(line) == if IsSegmentLine(line) then [line] else []
  {
    SplitSingleLine(line);
  }

  /** A tag line followed by a URL line contributes exactly that URL. */
  lemma TagThenUrl(tag: string, url: string, rest: string)
    requires Newline !in tag && Newline !in url
    requires !IsSegmentLine(tag) && IsSegmentLine(url)
    ensures SegmentUrls(tag + [Newline] + (url + [Newline] + rest)) == [url] + SegmentUrls(rest)
  {
    LineUrls(tag);
    LineUrls(url);
    AppendLines(url, rest);
    AppendLines(tag, url + [Newline] + rest);
  }

  /** A media playlist of two segments, each after its tag line, ending in
      a newline: the URLs come out in playlist order, the tags and the final
      empty line are dropped. */
  lemma TwoSegmentPlaylist(tag: string, u0: string, u1: string)
    requires Newline !in tag && Newline !in u0 && Newline !in u1
    requires !IsSegmentLine(tag) && IsSegmentLine(u0) && IsSegmentLine(u1)
    ensures SegmentUrls(tag + "\n" + u0 + "\n" + tag + "\n" + u1 + "\n") == [u0, u1]
  {
    var second := tag + [Newline] + (u1 + [Newline] + "");
    LineUrls("");
    TagThenUrl(tag, u1, "");
    TagThenUrl(tag, u0, second);
    assert tag + [Newline] + (u0 + [Newline] + second)
        == tag + "\n" + u0 + "\n" + tag + "\n" + u1 + "\n";
  }

  /** Which lines count as segment lines: tags, relative URIs and lines with
      leading blanks do not; "http" and "https" URLs do. */
  lemma LineClassification()
    ensures !IsSegmentLine("#EXTINF:10.0,") && !IsSegmentLine("seg0.ts")
    ensures !IsSegmentLine(" http://x/s0.ts") && !IsSegmentLine("")
    ensures IsSegmentLine("http://x/s0.ts") && IsSegmentLine("https://x/s1.ts")
  {
    assert "#EXTINF:10.0,"[0] != HttpPrefix[0];
    assert "seg0.ts"[0] != HttpPrefix[0];
    assert " http://x/s0.ts"[0] != HttpPrefix[0];
  }
}
