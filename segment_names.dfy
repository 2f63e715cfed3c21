/** The name under which a downloaded segment is saved:
    `f"segment_{i:03d}.ts"`, the index in decimal, zero-padded to at least
    three digits. */
module SegmentNames {
  import opened Options

  const NamePrefix: string := "segment_"
  const NameSuffix: string := ".ts"
  const MinWidth: nat := 3

  predicate IsDigit(c: char) {
    '0' <= c <= '9'
  }

  predicate AllDigits(s: string) {
    forall k :: 0 <= k < |s| ==> IsDigit(s[k])
  }

  function DigitChar(d: nat): (c: char)
    requires d < 10
    ensures IsDigit(c)
  {
    (('0' as int) + d) as char
  }

  function DigitValue(c: char): nat
    requires IsDigit(c)
  {
    (c as int) - ('0' as int)
  }

  /** The number a string of decimal digits denotes (leading zeros allowed). */
  function ValueOf(s: string): nat
    requires AllDigits(s)
  {
    if s == [] then 0 else ValueOf(s[..|s| - 1]) * 10 + DigitValue(s[|s| - 1])
  }

  /** `str(n)` for a non-negative `n`: at least one digit, no leading zero. */
  function Decimal(n: nat): (s: string)
    ensures |s| >= 1 && AllDigits(s)
    ensures n > 0 ==> s[0] != '0'
  {
    if n < 10 then [DigitChar(n)] else Decimal(n / 10) + [DigitChar(n % 10)]
  }

  function Zeros(k: nat): (s: string)
    ensures |s| == k && forall j :: 0 <= j < k ==> s[j] == '0'
  {
    if k == 0 then [] else ['0'] + Zeros(k - 1)
  }

  /** The `03d` format of a non-negative integer. */
  function Pad3(n: nat): (s: string)
    ensures AllDigits(s)
    ensures |s| == if |Decimal(n)| < MinWidth then MinWidth else |Decimal(n)|
  {
    var digits := Decimal(n);
    if |digits| < MinWidth then Zeros(MinWidth - |digits|) + digits else digits
  }

  function SegmentName(i: nat): (name: string)
    ensures |name| == |NamePrefix| + |Pad3(i)| + |NameSuffix|
    ensures NamePrefix <= name
  {
    NamePrefix + Pad3(i) + NameSuffix
  }

  /** A file name is the prefix, the padded field and the suffix, in that
      order, each found at its fixed offset. */
  lemma NameFields(i: nat)
    ensures SegmentName(i)[..|NamePrefix|] == NamePrefix
    ensures SegmentName(i)[|SegmentName(i)| - |NameSuffix|..] == NameSuffix
    ensures SegmentName(i)[|NamePrefix|..|SegmentName(i)| - |NameSuffix|] == Pad3(i)
  {
    var name := SegmentName(i);
    assert name == NamePrefix + Pad3(i) + NameSuffix;
  }

  /** Recovers the index from a file name, the inverse of SegmentName. */
  function ParseSegmentName(name: string): (index: Option<nat>)
  {
    if |name| >= |NamePrefix| + |NameSuffix| + MinWidth
       && NamePrefix <= name
       && name[|name| - |NameSuffix|..] == NameSuffix
       && AllDigits(name[|NamePrefix|..|name| - |NameSuffix|])
    then Some(ValueOf(name[|NamePrefix|..|name| - |NameSuffix|]))
    else None
  }

  lemma {:induction false} DecimalValue(n: nat)
    ensures ValueOf(Decimal(n)) == n
  {
    if n >= 10 {
      DecimalValue(n / 10);
      var s := Decimal(n);
      assert s[..|s| - 1] == Decimal(n / 10);
    }
  }

  /** Decimal uses as few digits as possible: one below 10, more above. */
  lemma {:induction false} DecimalLength(n: nat)
    ensures n < 10 <==> |Decimal(n)| == 1
    ensures n < 100 <==> |Decimal(n)| <= 2
    ensures n < 1000 <==> |Decimal(n)| <= 3
  {
    if n >= 10 {
      DecimalLength(n / 10);
    }
  }

  lemma {:induction false} LeadingZero(s: string)
    requires AllDigits(s)
    ensures AllDigits(['0'] + s) && ValueOf(['0'] + s) == ValueOf(s)
    decreases |s|
  {
    if s != [] {
      var t := ['0'] + s;
      assert t[..|t| - 1] == ['0'] + s[..|s| - 1];
      LeadingZero(s[..|s| - 1]);
    }
  }

  lemma {:induction false} LeadingZeros(k: nat, s: string)
    requires AllDigits(s)
    ensures ValueOf(Zeros(k) + s) == ValueOf(s)
    decreases k
  {
    if k > 0 {
      LeadingZeros(k - 1, s);
      assert Zeros(k) + s == ['0'] + (Zeros(k - 1) + s);
      LeadingZero(Zeros(k - 1) + s);
    } else {
      assert Zeros(k) + s == s;
    }
  }

  /** The padded field is exactly three digits below 1000 and widens to the
      full decimal representation from 1000 on; either way it denotes `n`. */
  lemma Pad3Spec(n: nat)
    ensures ValueOf(Pad3(n)) == n
    ensures n < 1000 ==> |Pad3(n)| == 3
    ensures n >= 1000 ==> Pad3(n) == Decimal(n) && |Pad3(n)| > 3
    ensures Pad3(n)[|Pad3(n)| - |Decimal(n)|..] == Decimal(n)
    ensures forall k :: 0 <= k < |Pad3(n)| - |Decimal(n)| ==> Pad3(n)[k] == '0'
  {
    DecimalValue(n);
    DecimalLength(n);
    var digits := Decimal(n);
    if |digits| < MinWidth {
      LeadingZeros(MinWidth - |digits|, digits);
    }
  }

  /** Parsing a file name recovers the index it was made from. */
  lemma ParseName(i: nat)
    ensures ParseSegmentName(SegmentName(i)) == Some(i)
  {
    Pad3Spec(i);
    var name := SegmentName(i);
    var field := Pad3(i);
    assert name[..|NamePrefix|] == NamePrefix;
    assert name[|name| - |NameSuffix|..] == NameSuffix;
    assert name[|NamePrefix|..|name| - |NameSuffix|] == field;
  }

  /** Distinct indices give distinct file names, so no segment of a batch
      overwrites another. */
  lemma SegmentNameInjective(i: nat, j: nat)
    ensures SegmentName(i) == SegmentName(j) ==> i == j
  {
    ParseName(i);
    ParseName(j);
  }

  /** Strict code-point order on strings, the order of Python's `sorted`
      and of a shell listing in the C locale. */
  predicate LexLess(a: string, b: string)
    decreases |a|
  {
    b != [] && (a == [] || a[0] < b[0] || (a[0] == b[0] && LexLess(a[1..], b[1..])))
  }

  lemma {:induction false} LexLessCommonPrefix(p: string, a: string, b: string)
    ensures LexLess(p + a, p + b) <==> LexLess(a, b)
    decreases |p|
  {
    if p != [] {
      assert (p + a)[1..] == p[1..] + a;
      assert (p + b)[1..] == p[1..] + b;
      LexLessCommonPrefix(p[1..], a, b);
    } else {
      assert p + a == a && p + b == b;
    }
  }

  /** Below 1000 the padded field is the three decimal digits of `n`. */
  lemma Pad3Digits(n: nat)
    requires n < 1000
    ensures Pad3(n) == [DigitChar(n / 100), DigitChar(n / 10 % 10), DigitChar(n % 10)]
  {
    if n >= 100 {
      assert Decimal(n / 10) == Decimal(n / 100) + [DigitChar(n / 10 % 10)];
      assert n / 10 / 10 == n / 100;
    } else if n >= 10 {
      assert Decimal(n / 10) == [DigitChar(n / 10)];
      assert Zeros(1) == [DigitChar(0)];
      assert n / 100 == 0 && n / 10 % 10 == n / 10;
    } else {
      assert Zeros(2) == [DigitChar(0), DigitChar(0)];
      assert n / 100 == 0 && n / 10 % 10 == 0;
    }
  }

  /** For indices below 1000 the file names sort in index order, so a
      listing of the files is in playlist order. */
  lemma NamesSortByIndex(i: nat, j: nat)
    requires i < j < 1000
    ensures LexLess(SegmentName(i), SegmentName(j))
  {
    FieldsSortByIndex(i, j);
    var a, b := Pad3(i) + NameSuffix, Pad3(j) + NameSuffix;
    assert SegmentName(i) == NamePrefix + a;
    assert SegmentName(j) == NamePrefix + b;
    LexLessCommonPrefix(NamePrefix, a, b);
  }

  /** The same order after the common prefix: three digits decide it. */
  lemma FieldsSortByIndex(i: nat, j: nat)
    requires i < j < 1000
    ensures LexLess(Pad3(i) + NameSuffix, Pad3(j) + NameSuffix)
  {
    Pad3Digits(i);
    Pad3Digits(j);
    DigitOrder(i, j);
    ThreeCharsLess(Pad3(i), Pad3(j), NameSuffix);
  }

  lemma DigitOrder(i: nat, j: nat)
    requires i < j < 1000
    ensures || i / 100 < j / 100
            || (i / 100 == j / 100 && i / 10 % 10 < j / 10 % 10)
            || (i / 100 == j / 100 && i / 10 % 10 == j / 10 % 10 && i % 10 < j % 10)
  {
    Split3(i);
    Split3(j);
  }

  lemma Split3(n: nat)
    ensures n == 100 * (n / 100) + 10 * (n / 10 % 10) + n % 10
    ensures n / 10 % 10 < 10 && n % 10 < 10
  {
    assert n == 10 * (n / 10) + n % 10;
    assert n / 10 == 10 * (n / 10 / 10) + n / 10 % 10;
    assert n / 10 / 10 == n / 100;
  }

  lemma ThreeCharsLess(a: string, b: string, tail: string)
    requires |a| == 3 && |b| == 3
    requires || a[0] < b[0]
             || (a[0] == b[0] && a[1] < b[1])
             || (a[0] == b[0] && a[1] == b[1] && a[2] < b[2])
    ensures LexLess(a + tail, b + tail)
  {
    var x, y := a + tail, b + tail;
    assert x[1..] == a[1..] + tail && y[1..] == b[1..] + tail;
    assert x[1..][1..] == a[2..] + tail && y[1..][1..] == b[2..] + tail;
  }

  /** From index 1000 on the field widens and the order breaks:
      segment_1000.ts sorts before segment_999.ts. */
  lemma SortBreaksAt1000()
    ensures LexLess(SegmentName(1000), SegmentName(999))
  {
    var a, b := Pad3(1000) + NameSuffix, Pad3(999) + NameSuffix;
    assert Decimal(1000)[0] == '1';
    assert Decimal(999)[0] == '9';
    assert SegmentName(1000) == NamePrefix + a && SegmentName(999) == NamePrefix + b;
    LexLessCommonPrefix(NamePrefix, a, b);
  }

  lemma NameExamples()
    ensures SegmentName(0) == "segment_000.ts"
    ensures SegmentName(1) == "segment_001.ts"
    ensures SegmentName(7) == "segment_007.ts"
    ensures SegmentName(42) == "segment_042.ts"
  {
    Pad3Digits(0);
    Pad3Digits(1);
    Pad3Digits(7);
    Pad3Digits(42);
  }

  lemma WideNameExample()
    ensures SegmentName(1234) == "segment_1234.ts"
  {
    assert Decimal(12) == "12";
    assert Decimal(123) == "123";
    assert Decimal(1234) == "1234";
  }
}
