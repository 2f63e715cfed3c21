/** Python's `str.split('\n')` on playlist text, and its inverse `'\n'.join`. */
module Lines {

  const Newline: char := '\n'

  /** The pieces of `s` between newline characters, exactly as Python's
      `s.split('\n')`: the empty text gives `[""]`, a trailing newline gives a
      final `""`, and any other character (a carriage return included) stays
      on its line. */
  function Split(s: string): (lines: seq<string>)
    ensures |lines| >= 1
    ensures forall k :: 0 <= k < |lines| ==> Newline !in lines[k]
    decreases |s|
  {
    if s == [] then [""]
    else
      var rest := Split(s[1..]);
      if s[0] == Newline then [""] + rest
      else [[s[0]] + rest[0]] + rest[1..]
  }

  /** There is one more line than there are newline characters. */
  lemma {:induction false} SplitCount(s: string)
    ensures |Split(s)| == multiset(s)[Newline] + 1
    decreases |s|
  {
    if s != [] {
      SplitCount(s[1..]);
      assert s == [s[0]] + s[1..];
      assert multiset(s) == multiset{s[0]} + multiset(s[1..]);
    }
  }

  /** `'\n'.join(lines)`. */
  function Join(lines: seq<string>): string
    requires |lines| >= 1
  {
    if |lines| == 1 then lines[0] else lines[0] + [Newline] + Join(lines[1..])
  }

  /** Splitting loses nothing: joining the pieces gives the text back. */
  lemma {:induction false} JoinSplit(s: string)
    ensures Join(Split(s)) == s
    decreases |s|
  {
    if s != [] {
      var t := s[1..];
      assert s == [s[0]] + t;
      JoinSplit(t);
      var rest := Split(t);
      if s[0] != Newline {
        var lines := Split(s);
        assert lines == [[s[0]] + rest[0]] + rest[1..];
        if |rest| == 1 {
          assert Join(lines) == [s[0]] + rest[0];
        } else {
          calc {
            Join(lines);
            ([s[0]] + rest[0]) + [Newline] + Join(lines[1..]);
            { assert lines[1..] == rest[1..]; }
            [s[0]] + (rest[0] + [Newline] + Join(rest[1..]));
            [s[0]] + Join(rest);
          }
        }
      }
    }
  }

  /** Splitting at one newline: the lines of `a + "\n" + b` are the lines of
      `a` followed by the lines of `b`. */
  lemma {:induction false} SplitAtNewline(a: string, b: string)
    ensures Split(a + [Newline] + b) == Split(a) + Split(b)
    decreases |a|
  {
    var s := a + [Newline] + b;
    if a == [] {
      assert s[1..] == b;
    } else {
      assert s[1..] == a[1..] + [Newline] + b;
      SplitAtNewline(a[1..], b);
    }
  }

  /** Text without a newline is a single line. */
  lemma {:induction false} SplitSingleLine(line: string)
    requires Newline !in line
    ensures Split(line) == [line]
    decreases |line|
  {
    if line != [] {
      SplitSingleLine(line[1..]);
      assert line == [line[0]] + line[1..];
    }
  }

  /** Joining newline-free lines and splitting again gives the same lines:
      together with JoinSplit, Split and Join are inverse bijections between
      texts and non-empty sequences of newline-free lines. */
  lemma {:induction false} SplitJoin(lines: seq<string>)
    requires |lines| >= 1
    requires forall k :: 0 <= k < |lines| ==> Newline !in lines[k]
    ensures Split(Join(lines)) == lines
    decreases |lines|
  {
    SplitSingleLine(lines[0]);
    if |lines| > 1 {
      SplitJoin(lines[1..]);
      SplitAtNewline(lines[0], Join(lines[1..]));
    }
  }

  /** A trailing newline adds a final empty line. */
  lemma TrailingNewline(s: string)
    ensures Split(s + [Newline]) == Split(s) + [""]
  {
    SplitAtNewline(s, "");
    assert s + [Newline] + "" == s + [Newline];
  }

  /** A carriage return before the newline stays at the end of its line. */
  lemma CarriageReturnKept(line: string)
    requires Newline !in line
    ensures Split(line + "\r\n") == [line + "\r", ""]
  {
    var withCr := line + "\r";
    SplitSingleLine(withCr);
    TrailingNewline(withCr);
    assert withCr + [Newline] == line + "\r\n";
  }
}
