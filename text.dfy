/**
 * The parts of Rust's standard library that the clause-set model's text
 * protocol relies on: integer formatting (`format!("{}", n)`), integer
 * parsing (`str::parse::<i64>` and `str::parse::<usize>`), `str::lines`,
 * `str::trim`, `str::split_whitespace`, `str::contains`, `str::starts_with`
 * and `[String]::join`.  Strings are sequences of Unicode scalar values.
 */
module Text {
  import opened Wrappers

  // ------------------------------------------------------------ characters

  /** Rust's `char::is_whitespace`: the characters with the Unicode White_Space property. */
  predicate IsWhitespace(c: char) {
    c == ' ' || ('\t' <= c <= '\r') || c == '\U{85}' || c == '\U{A0}' || c == '\U{1680}'
    || ('\U{2000}' <= c <= '\U{200A}') || c == '\U{2028}' || c == '\U{2029}'
    || c == '\U{202F}' || c == '\U{205F}' || c == '\U{3000}'
  }

  predicate IsDigit(c: char) {
    '0' <= c <= '9'
  }

  predicate AllDigits(s: string) {
    forall i :: 0 <= i < |s| ==> IsDigit(s[i])
  }

  function DigitValue(c: char): (d: nat)
    requires IsDigit(c)
    ensures d < 10
  {
    c as int - '0' as int
  }

  function DigitChar(d: nat): (c: char)
    requires d < 10
    ensures IsDigit(c) && DigitValue(c) == d
  {
    ('0' as int + d) as char
  }

  // ------------------------------------------------------- decimal numbers

  /** `format!("{}", n)` for an unsigned integer: decimal digits without leading zeros. */
  function NatToString(n: nat): (s: string)
    ensures |s| > 0 && AllDigits(s)
    decreases n
  {
    if n < 10 then [DigitChar(n)] else NatToString(n / 10) + [DigitChar(n % 10)]
  }

  /** The number a non-empty run of decimal digits denotes (leading zeros allowed). */
  function DigitsValue(s: string): nat
    requires AllDigits(s)
  {
    if |s| == 0 then 0 else DigitsValue(s[..|s| - 1]) * 10 + DigitValue(s[|s| - 1])
  }

  lemma {:induction false} DigitsValueOfNatToString(n: nat)
    ensures DigitsValue(NatToString(n)) == n
    decreases n
  {
    if n >= 10 {
      DigitsValueOfNatToString(n / 10);
      var s := NatToString(n);
      assert s[..|s| - 1] == NatToString(n / 10);
    }
  }

  /** Different numbers are formatted differently. */
  lemma NatToStringInjective(a: nat, b: nat)
    requires NatToString(a) == NatToString(b)
    ensures a == b
  {
    DigitsValueOfNatToString(a);
    DigitsValueOfNatToString(b);
  }

  const I64Min: int := -0x8000_0000_0000_0000
  const I64Max: int := 0x7FFF_FFFF_FFFF_FFFF
  const UsizeMax: int := 0xFFFF_FFFF_FFFF_FFFF

  /**
   * `str::parse::<i64>`: an optional `+` or `-`, then one or more ASCII
   * digits, denoting a value in the range of i64; anything else fails.
   */
  function ParseI64(s: string): Option<int> {
    if |s| == 0 then None
    else if (s[0] == '+' || s[0] == '-') && |s| == 1 then None
    else
      var digits := if s[0] == '+' || s[0] == '-' then s[1..] else s;
      if !AllDigits(digits) then None
      else
        var v := if s[0] == '-' then -(DigitsValue(digits) as int) else DigitsValue(digits) as int;
        if I64Min <= v <= I64Max then Some(v) else None
  }

  /**
   * `str::parse::<usize>` on a 64-bit target: an optional `+`, then one or
   * more ASCII digits, denoting a value below 2^64; anything else fails.
   */
  function ParseUsize(s: string): Option<nat> {
    if |s| == 0 then None
    else
      var digits := if s[0] == '+' then s[1..] else s;
      if |digits| == 0 || !AllDigits(digits) then None
      else if DigitsValue(digits) <= UsizeMax then Some(DigitsValue(digits))
      else None
  }

  lemma ParseI64OfNatToString(m: nat)
    requires m <= I64Max
    ensures ParseI64(NatToString(m)) == Some(m)
  {
    DigitsValueOfNatToString(m);
    assert IsDigit(NatToString(m)[0]);
  }

  lemma ParseI64OfNegated(m: nat)
    requires 0 < m <= -I64Min
    ensures ParseI64("-" + NatToString(m)) == Some(-(m as int))
  {
    DigitsValueOfNatToString(m);
    assert ("-" + NatToString(m))[1..] == NatToString(m);
  }

  /** Parsing a formatted unsigned integer gives it back. */
  lemma ParseUsizeOfNatToString(m: nat)
    requires m <= UsizeMax
    ensures ParseUsize(NatToString(m)) == Some(m)
  {
    DigitsValueOfNatToString(m);
    assert IsDigit(NatToString(m)[0]);
  }

  // ---------------------------------------------------------------- lines

  /** The index of the first line feed in `s`, or `|s|` when there is none. */
  function NewlineIndex(s: string): (i: nat)
    ensures i <= |s|
    ensures i < |s| ==> s[i] == '\n'
    ensures forall j :: 0 <= j < i ==> s[j] != '\n'
  {
    if |s| == 0 || s[0] == '\n' then 0 else 1 + NewlineIndex(s[1..])
  }

  /** Drops the carriage return of a `\r\n` line ending. */
  function StripCarriageReturn(line: string): string {
    if |line| > 0 && line[|line| - 1] == '\r' then line[..|line| - 1] else line
  }

  /**
   * `str::lines`: the pieces between line feeds, a `\r` right before a line
   * feed dropped, and no empty piece after a final line feed.
   */
  function Lines(s: string): seq<string>
    decreases |s|
  {
    if |s| == 0 then []
    else
      var i := NewlineIndex(s);
      if i == |s| then [s]
      else [StripCarriageReturn(s[..i])] + Lines(s[i + 1..])
  }

  /** Each line followed by a line feed: what consecutive `writeln!` calls produce. */
  function Terminated(lines: seq<string>): string {
    if |lines| == 0 then "" else lines[0] + "\n" + Terminated(lines[1..])
  }

  /** A line that `Lines` gives back unchanged: no line feed, no final carriage return. */
  predicate PlainLine(line: string) {
    (forall j :: 0 <= j < |line| ==> line[j] != '\n')
    && (|line| > 0 ==> line[|line| - 1] != '\r')
  }

  lemma {:induction false} TerminatedAppend(lines: seq<string>, line: string)
    ensures Terminated(lines + [line]) == Terminated(lines) + line + "\n"
  {
    if |lines| > 0 {
      assert (lines + [line])[1..] == lines[1..] + [line];
      TerminatedAppend(lines[1..], line);
    }
  }

  /** Splitting written lines into lines again gives exactly those lines. */
  lemma {:induction false} LinesOfTerminated(lines: seq<string>)
    requires forall k :: 0 <= k < |lines| ==> PlainLine(lines[k])
    ensures Lines(Terminated(lines)) == lines
  {
    if |lines| > 0 {
      var l := lines[0];
      var s := Terminated(lines);
      assert s == l + ("\n" + Terminated(lines[1..]));
      assert s[|l|] == '\n';
      var i := NewlineIndex(s);
      assert i == |l|;
      assert s[..i] == l;
      assert s[i + 1..] == Terminated(lines[1..]);
      LinesOfTerminated(lines[1..]);
    }
  }

  // ----------------------------------------------------------- whitespace

  /** `str::trim_start` with `char::is_whitespace`. */
  function TrimStart(s: string): string {
    if |s| > 0 && IsWhitespace(s[0]) then TrimStart(s[1..]) else s
  }

  /** `str::trim_end` with `char::is_whitespace`. */
  function TrimEnd(s: string): string {
    if |s| > 0 && IsWhitespace(s[|s| - 1]) then TrimEnd(s[..|s| - 1]) else s
  }

  /** `str::trim`: leading and trailing whitespace removed. */
  function Trim(s: string): string {
    TrimEnd(TrimStart(s))
  }

  /** The length of the run of non-whitespace characters that `s` starts with. */
  function TokenLength(s: string): (k: nat)
    ensures k <= |s|
    ensures forall j :: 0 <= j < k ==> !IsWhitespace(s[j])
    ensures k < |s| ==> IsWhitespace(s[k])
  {
    if |s| == 0 || IsWhitespace(s[0]) then 0 else 1 + TokenLength(s[1..])
  }

  /** `str::split_whitespace`: the maximal runs of non-whitespace characters, in order. */
  function SplitWhitespace(s: string): seq<string>
    decreases |s|
  {
    if |s| == 0 then []
    else if IsWhitespace(s[0]) then SplitWhitespace(s[1..])
    else
      var k := TokenLength(s);
      [s[..k]] + SplitWhitespace(s[k..])
  }

  /** A non-empty string without whitespace: one word of `split_whitespace`. */
  predicate IsToken(t: string) {
    |t| > 0 && forall j :: 0 <= j < |t| ==> !IsWhitespace(t[j])
  }

  /** `[String]::join(sep)`. */
  function Join(parts: seq<string>, sep: string): string {
    if |parts| == 0 then ""
    else if |parts| == 1 then parts[0]
    else parts[0] + sep + Join(parts[1..], sep)
  }

  lemma {:induction false} JoinAppend(parts: seq<string>, sep: string, last: string)
    requires |parts| > 0
    ensures Join(parts + [last], sep) == Join(parts, sep) + sep + last
  {
    if |parts| > 1 {
      assert (parts + [last])[1..] == parts[1..] + [last];
      JoinAppend(parts[1..], sep, last);
    } else {
      assert (parts + [last])[1..] == [last];
    }
  }

  lemma {:induction false} SplitWhitespaceOfToken(t: string)
    requires IsToken(t)
    ensures SplitWhitespace(t) == [t]
  {
    assert !IsWhitespace(t[0]);
    assert TokenLength(t) == |t|;
    assert t[..|t|] == t;
    assert t[|t|..] == "";
  }

  lemma {:induction false} SplitWhitespaceOfTokenThenSpace(t: string, rest: string)
    requires IsToken(t)
    ensures SplitWhitespace(t + " " + rest) == [t] + SplitWhitespace(rest)
  {
    var s := t + " " + rest;
    assert s[|t|] == ' ';
    var k := TokenLength(s);
    assert k == |t|;
    assert s[..k] == t;
    assert s[k..] == " " + rest;
    assert (" " + rest)[1..] == rest;
  }

  /** Joining words with single spaces and splitting at whitespace gives the words back. */
  lemma {:induction false} SplitWhitespaceOfJoin(toks: seq<string>)
    requires forall k :: 0 <= k < |toks| ==> IsToken(toks[k])
    ensures SplitWhitespace(Join(toks, " ")) == toks
  {
    if |toks| == 1 {
      SplitWhitespaceOfToken(toks[0]);
    } else if |toks| > 1 {
      SplitWhitespaceOfJoin(toks[1..]);
      assert Join(toks, " ") == toks[0] + " " + Join(toks[1..], " ");
      SplitWhitespaceOfTokenThenSpace(toks[0], Join(toks[1..], " "));
    }
  }

  /** `str::trim` leaves a string alone that starts and ends with a non-whitespace character. */
  lemma TrimOfUnpadded(s: string)
    requires |s| > 0 && !IsWhitespace(s[0]) && !IsWhitespace(s[|s| - 1])
    ensures Trim(s) == s
  {
  }

  // ------------------------------------------------------------- searching

  predicate StartsWithChar(s: string, c: char) {
    |s| > 0 && s[0] == c
  }

  /** `str::contains` for a string pattern. */
  predicate Contains(s: string, pattern: string)
    decreases |s|
  {
    if |s| < |pattern| then false
    else s[..|pattern|] == pattern || Contains(s[1..], pattern)
  }
}
