/**
 * The text shapes the query engine writes: cells joined by a separator,
 * lines each ended by a terminator, and counts in decimal. Split is the
 * reader's side of Join and Terminated, so that what a caller can parse back
 * out of a reply is stated, not only how the reply is built.
 */
module Text {

  /** The parts separated by `sep`; built left to right, the way a loop with a
      `delim` variable that starts empty and becomes `sep` builds it. */
  function Join(parts: seq<string>, sep: char): string
  {
    if |parts| == 0 then ""
    else if |parts| == 1 then parts[0]
    else Join(parts[..|parts| - 1], sep) + [sep] + parts[|parts| - 1]
  }

  /** Every line followed by `term`, in order. */
  function Terminated(lines: seq<string>, term: char): string
  {
    if |lines| == 0 then ""
    else Terminated(lines[..|lines| - 1], term) + lines[|lines| - 1] + [term]
  }

  /** One more line adds that line and its terminator at the end. */
  lemma TerminatedSnoc(lines: seq<string>, line: string, term: char)
    ensures Terminated(lines + [line], term) == Terminated(lines, term) + line + [term]
  {
    assert (lines + [line])[..|lines|] == lines;
  }

  /** Regrouping an appended line and its terminator. A hint for the
      solver only: it states no property of the engine. */
  lemma AppendLine(before: string, text: string, line: string, term: char)
    ensures before + text + (line + [term]) == before + (text + line + [term])
  {
  }

  /** Regrouping an appended separator and part. A hint for the solver
      only: it states no property of the engine. */
  lemma AppendPart(before: string, text: string, sep: string, part: string)
    ensures before + text + sep + part == before + (text + sep + part)
  {
  }

  /** One more part adds the separator (unless it is the first) and the part. */
  lemma JoinSnoc(parts: seq<string>, part: string, sep: char)
    ensures Join(parts + [part], sep) == Join(parts, sep) + (if |parts| == 0 then "" else [sep]) + part
  {
    assert (parts + [part])[..|parts|] == parts;
  }

  /** The pieces of `s` between occurrences of `sep` (always at least one). */
  function Split(s: string, sep: char): (pieces: seq<string>)
    ensures |pieces| > 0
  {
    if |s| == 0 then [""]
    else
      var rest := Split(s[1..], sep);
      if s[0] == sep then [""] + rest else [[s[0]] + rest[0]] + rest[1..]
  }

  /** Splitting at one separator splits the two sides independently. */
  lemma {:induction false} SplitAround(a: string, b: string, sep: char)
    ensures Split(a + [sep] + b, sep) == Split(a, sep) + Split(b, sep)
  {
    if |a| == 0 {
      assert a + [sep] + b == [sep] + b;
      assert ([sep] + b)[1..] == b;
    } else {
      assert (a + [sep] + b)[1..] == a[1..] + [sep] + b;
      SplitAround(a[1..], b, sep);
    }
  }

  /** Text without the separator is a single piece. */
  lemma {:induction false} SplitWithoutSep(s: string, sep: char)
    requires sep !in s
    ensures Split(s, sep) == [s]
  {
    if |s| > 0 {
      assert sep !in s[1..] by {
        forall i | 0 <= i < |s[1..]| ensures s[1..][i] != sep { assert s[1..][i] == s[i + 1]; }
      }
      SplitWithoutSep(s[1..], sep);
      assert [s[0]] + s[1..] == s;
    }
  }

  /** Join has no character that neither the separator nor a part brings in. */
  lemma {:induction false} JoinExcludes(parts: seq<string>, sep: char, ch: char)
    requires ch != sep
    requires forall k :: 0 <= k < |parts| ==> ch !in parts[k]
    ensures ch !in Join(parts, sep)
  {
    if |parts| > 1 {
      JoinExcludes(parts[..|parts| - 1], sep, ch);
    }
  }

  /** Round trip: the parts of a join come back out of a split, provided no
      part holds the separator itself. */
  lemma {:induction false} SplitJoin(parts: seq<string>, sep: char)
    requires |parts| > 0
    requires forall k :: 0 <= k < |parts| ==> sep !in parts[k]
    ensures Split(Join(parts, sep), sep) == parts
  {
    var n := |parts|;
    if n == 1 {
      SplitWithoutSep(parts[0], sep);
    } else {
      var init := parts[..n - 1];
      SplitAround(Join(init, sep), parts[n - 1], sep);
      SplitJoin(init, sep);
      SplitWithoutSep(parts[n - 1], sep);
      assert init + [parts[n - 1]] == parts;
    }
  }

  /** Splitting terminated lines followed by an unterminated tail gives the
      lines back, then the tail. */
  lemma {:induction false} SplitTerminated(lines: seq<string>, tail: string, term: char)
    requires forall k :: 0 <= k < |lines| ==> term !in lines[k]
    requires term !in tail
    ensures Split(Terminated(lines, term) + tail, term) == lines + [tail]
  {
    var n := |lines|;
    if n == 0 {
      assert Terminated(lines, term) + tail == tail;
      SplitWithoutSep(tail, term);
    } else {
      var init, last := lines[..n - 1], lines[n - 1];
      assert Terminated(lines, term) + tail == (Terminated(init, term) + last) + [term] + tail;
      SplitAround(Terminated(init, term) + last, tail, term);
      SplitTerminated(init, last, term);
      SplitWithoutSep(tail, term);
      assert init + [last] == lines;
    }
  }

  predicate IsDigit(c: char)
  {
    '0' <= c <= '9'
  }

  function DigitChar(d: nat): (c: char)
    requires d < 10
    ensures IsDigit(c) && (c as int) - ('0' as int) == d
  {
    ('0' as int + d) as char
  }

  /** The decimal form of `n`, as `std::ostream << int` writes a non-negative
      value: most significant digit first, no leading zeros. */
  function NatToString(n: nat): (s: string)
    ensures |s| > 0
    ensures forall i :: 0 <= i < |s| ==> IsDigit(s[i])
    ensures |s| > 1 ==> s[0] != '0'
    decreases n
  {
    if n < 10 then [DigitChar(n)]
    else NatToString(n / 10) + [DigitChar(n % 10)]
  }

  /** The number a string of decimal digits denotes. */
  function DecimalValue(s: string): nat
    requires forall i :: 0 <= i < |s| ==> IsDigit(s[i])
  {
    if |s| == 0 then 0
    else DecimalValue(s[..|s| - 1]) * 10 + DigitValue(s[|s| - 1])
  }

  function DigitValue(c: char): (d: nat)
    requires IsDigit(c)
    ensures d < 10 && DigitChar(d) == c
  {
    (c as int) - ('0' as int)
  }

  /** Round trip: reading back the printed count gives the count. */
  lemma {:induction false} DecimalRoundTrip(n: nat)
    ensures DecimalValue(NatToString(n)) == n
  {
    var s := NatToString(n);
    if n >= 10 {
      assert s[..|s| - 1] == NatToString(n / 10);
      DecimalRoundTrip(n / 10);
    }
  }
}
