/**
 * The Python `str` built-ins the scripts rely on: `isspace`, `strip`,
 * `splitlines`, `split`, `join`, `find`, `rfind` and the `{n:03d}` format
 * of a non-negative integer. `strip`, `splitlines`, `split`, `find` and
 * `rfind` are functions whose contracts state what Python documents for them;
 * `strip`, `splitlines` and `split` also have a partner lemma (a round trip or
 * a fixed point). `isspace` is the `str.isspace` code-point table, checked on
 * ASCII by `IsSpaceAscii`; `join` is the plain definition the `split` round
 * trips are stated with; `{n:03d}` is stated by `FormatIntRoundTrip` and
 * `DigitsNoLeadingZero`.
 */
module PyStr {

  /**
   * Python's `str.isspace()` on one character: the characters of Unicode
   * category Zs and those with bidirectional class WS, B or S.
   */
  predicate IsSpace(c: char) {
    ('\t' <= c <= '\r') || ('\U{1C}' <= c <= '\U{1F}') || c == ' ' || c == '\U{85}' || c == '\U{A0}'
    || c == '\U{1680}' || ('\U{2000}' <= c <= '\U{200A}') || c == '\U{2028}' || c == '\U{2029}'
    || c == '\U{202F}' || c == '\U{205F}' || c == '\U{3000}'
  }

  /** The ASCII blanks are whitespace; letters, digits, `:` and braces are not. */
  lemma IsSpaceAscii(c: char)
    ensures c == ' ' || c == '\t' || c == '\n' || c == '\r' ==> IsSpace(c)
    ensures 'a' <= c <= 'z' || 'A' <= c <= 'Z' || '0' <= c <= '9' || c == ':' || c == '{' || c == '}' ==> !IsSpace(c)
  {
  }

  /** The characters at which `str.splitlines()` ends a line; every one of them is whitespace. */
  function IsLineBreak(c: char): (b: bool)
    ensures b ==> IsSpace(c)
  {
    c == '\n' || c == '\r' || c == '\U{0B}' || c == '\U{0C}' || ('\U{1C}' <= c <= '\U{1E}')
    || c == '\U{85}' || c == '\U{2028}' || c == '\U{2029}'
  }

  predicate AllSpace(s: string) {
    forall k | 0 <= k < |s| :: IsSpace(s[k])
  }

  predicate NoLineBreak(s: string) {
    forall k | 0 <= k < |s| :: !IsLineBreak(s[k])
  }

  /** The number of whitespace characters `str.lstrip()` removes. */
  function LeadingSpaces(s: string): (n: nat)
    ensures n <= |s| && AllSpace(s[..n])
    ensures n < |s| ==> !IsSpace(s[n])
  {
    if s == [] || !IsSpace(s[0]) then 0
    else
      var n := 1 + LeadingSpaces(s[1..]);
      assert forall k | 1 <= k < n :: s[..n][k] == s[1..][..n - 1][k - 1];
      n
  }

  /** The number of whitespace characters `str.rstrip()` removes. */
  function TrailingSpaces(s: string): (n: nat)
    ensures n <= |s| && AllSpace(s[|s| - n..])
    ensures n < |s| ==> !IsSpace(s[|s| - n - 1])
  {
    if s == [] || !IsSpace(s[|s| - 1]) then 0
    else
      var t := s[..|s| - 1];
      var m := TrailingSpaces(t);
      SpaceSuffixExtend(s, m);
      1 + m
  }

  /** A whitespace suffix of all but the last character, followed by a whitespace last character, is a whitespace suffix. */
  lemma SpaceSuffixExtend(s: string, m: nat)
    requires s != [] && m < |s| && IsSpace(s[|s| - 1])
    requires AllSpace(s[..|s| - 1][|s| - 1 - m..])
    ensures AllSpace(s[|s| - (m + 1)..])
  {
    var u, w := s[|s| - (m + 1)..], s[..|s| - 1][|s| - 1 - m..];
    assert forall k | 0 <= k < m :: u[k] == w[k];
  }

  /**
   * Python's `str.strip()`: the result is a slice of `s` with only whitespace
   * around it, and it neither starts nor ends with whitespace.
   */
  function Strip(s: string): (r: string)
    ensures r == [] <==> AllSpace(s)
    ensures r != [] ==> !IsSpace(r[0]) && !IsSpace(r[|r| - 1])
  {
    var a := LeadingSpaces(s);
    if a == |s| then [] else s[a..|s| - TrailingSpaces(s)]
  }

  /** What `strip` removes is whitespace on both sides: `s` is the result with only whitespace around it. */
  lemma StripIsSlice(s: string)
    ensures exists i, j :: 0 <= i <= j <= |s| && s[i..j] == Strip(s) && AllSpace(s[..i]) && AllSpace(s[j..])
  {
    var a, b := LeadingSpaces(s), TrailingSpaces(s);
    if a == |s| {
      assert s[|s|..|s|] == Strip(s) && AllSpace(s[..|s|]) && AllSpace(s[|s|..]);
    } else {
      assert s[a..|s| - b] == Strip(s) && AllSpace(s[..a]) && AllSpace(s[|s| - b..]);
    }
  }

  /** A string that neither starts nor ends with whitespace is its own strip. */
  lemma StripStripped(s: string)
    requires s == [] || (!IsSpace(s[0]) && !IsSpace(s[|s| - 1]))
    ensures Strip(s) == s
  {
    if s != [] {
      var n, m := LeadingSpaces(s), TrailingSpaces(s);
    }
  }

  /** `strip` is idempotent. */
  lemma StripIdempotent(s: string)
    ensures Strip(Strip(s)) == Strip(s)
  {
    StripStripped(Strip(s));
  }

  /** The index of the first line break of `s`, or `|s|` when there is none. */
  function LineEnd(s: string): (k: nat)
    ensures k <= |s| && NoLineBreak(s[..k])
    ensures k < |s| ==> IsLineBreak(s[k])
  {
    if s == [] || IsLineBreak(s[0]) then 0
    else
      var k := 1 + LineEnd(s[1..]);
      assert forall j | 1 <= j < k :: s[..k][j] == s[1..][..k - 1][j - 1];
      k
  }

  /** The length of the line break at `k`: "\r\n" is one break of two characters. */
  function BreakWidth(s: string, k: nat): nat
    requires k < |s|
  {
    if s[k] == '\r' && k + 1 < |s| && s[k + 1] == '\n' then 2 else 1
  }

  /**
   * Python's `str.splitlines()`: the lines of `s` without their terminators;
   * a final terminator does not open an empty last line, and "" has no lines.
   */
  function SplitLines(s: string): (lines: seq<string>)
    ensures lines == [] <==> s == []
    ensures forall l | l in lines :: NoLineBreak(l)
    decreases |s|
  {
    if s == [] then []
    else
      var k := LineEnd(s);
      if k == |s| then [s]
      else [s[..k]] + SplitLines(s[k + BreakWidth(s, k)..])
  }

  /** Python's `sep.join(parts)`. */
  function Join(parts: seq<string>, sep: string): string
  {
    if |parts| == 0 then ""
    else if |parts| == 1 then parts[0]
    else parts[0] + sep + Join(parts[1..], sep)
  }

  /** A join ends with the last part's last character, when that part is not empty. */
  lemma {:induction false} JoinLast(parts: seq<string>, sep: string)
    requires |parts| >= 1 && parts[|parts| - 1] != []
    ensures |Join(parts, sep)| >= 1
    ensures Join(parts, sep)[|Join(parts, sep)| - 1] == parts[|parts| - 1][|parts[|parts| - 1]| - 1]
  {
    if |parts| >= 2 {
      JoinLast(parts[1..], sep);
    }
  }

  /** A join starts with the first part's first character, when that part is not empty. */
  lemma JoinFirst(parts: seq<string>, sep: string)
    requires |parts| >= 1 && parts[0] != []
    ensures |Join(parts, sep)| >= 1 && Join(parts, sep)[0] == parts[0][0]
  {
  }

  /** The first line break of `s` is at `k` when `s[k]` breaks and nothing before it does. */
  lemma {:induction false} LineEndAt(s: string, k: nat)
    requires k < |s| && IsLineBreak(s[k]) && NoLineBreak(s[..k])
    ensures LineEnd(s) == k
  {
    if k > 0 {
      assert s[0] == s[..k][0];
      assert s[1..][..k - 1] == s[1..k];
      LineEndAt(s[1..], k - 1);
    }
  }

  /** A line without breaks, then "\n", then more text: the line is the first of the split. */
  lemma SplitLinesCons(line: string, rest: string)
    requires NoLineBreak(line)
    ensures SplitLines(line + "\n" + rest) == [line] + SplitLines(rest)
  {
    var s := line + "\n" + rest;
    var k := |line|;
    assert s[k] == '\n' && BreakWidth(s, k) == 1;
    assert s[..k] == line;
    LineEndAt(s, k);
    assert s[k + 1..] == rest;
  }

  /**
   * Any single-character break ends the first line: a line without breaks,
   * then a break that is not the "\r" of a "\r\n", then more text.
   */
  lemma SplitLinesBreak(line: string, b: char, rest: string)
    requires NoLineBreak(line) && IsLineBreak(b)
    requires !(b == '\r' && rest != [] && rest[0] == '\n')
    ensures SplitLines(line + [b] + rest) == [line] + SplitLines(rest)
  {
    var s := line + [b] + rest;
    var k := |line|;
    assert s[k] == b && BreakWidth(s, k) == 1;
    assert s[..k] == line;
    LineEndAt(s, k);
    assert s[k + 1..] == rest;
  }

  /** "\r\n" is one break: the text after it starts the next line. */
  lemma SplitLinesCRLF(line: string, rest: string)
    requires NoLineBreak(line)
    ensures SplitLines(line + "\r\n" + rest) == [line] + SplitLines(rest)
  {
    var s := line + "\r\n" + rest;
    var k := |line|;
    assert s[k] == '\r' && s[k + 1] == '\n' && BreakWidth(s, k) == 2;
    assert s[..k] == line;
    LineEndAt(s, k);
    assert s[k + 2..] == rest;
  }

  /** A non-empty line without breaks splits into itself. */
  lemma SplitLinesSingle(line: string)
    requires line != [] && NoLineBreak(line)
    ensures SplitLines(line) == [line]
  {
    assert LineEnd(line) == |line|;
  }

  /** Joining lines with "\n" and splitting them again gives the lines back. */
  lemma {:induction false} SplitLinesJoin(lines: seq<string>)
    requires |lines| >= 1 && lines[|lines| - 1] != []
    requires forall l | l in lines :: NoLineBreak(l)
    ensures SplitLines(Join(lines, "\n")) == lines
  {
    if |lines| == 1 {
      assert lines[0] in lines;
      SplitLinesSingle(lines[0]);
    } else {
      var tail := lines[1..];
      assert SplitLines(Join(tail, "\n")) == tail by {
        assert forall l | l in tail :: l in lines;
        assert tail[|tail| - 1] == lines[|lines| - 1];
        SplitLinesJoin(tail);
      }
      assert SplitLines(Join(lines, "\n")) == [lines[0]] + SplitLines(Join(tail, "\n")) by {
        assert Join(lines, "\n") == lines[0] + "\n" + Join(tail, "\n");
        assert lines[0] in lines;
        SplitLinesCons(lines[0], Join(tail, "\n"));
      }
      assert lines == [lines[0]] + tail;
    }
  }

  /** Python's `str.find(c)`: the first index of `c`, or -1. */
  function Find(s: string, c: char): (r: int)
    ensures -1 <= r < |s|
    ensures r == -1 <==> c !in s
    ensures r >= 0 ==> s[r] == c && c !in s[..r]
  {
    if s == [] then -1
    else if s[0] == c then 0
    else
      var r := Find(s[1..], c);
      if r == -1 then -1
      else
        assert s[..r + 1] == [s[0]] + s[1..][..r];
        r + 1
  }

  /** Python's `str.rfind(c)`: the last index of `c`, or -1. */
  function RFind(s: string, c: char): (r: int)
    ensures -1 <= r < |s|
    ensures r == -1 <==> c !in s
    ensures r >= 0 ==> s[r] == c && c !in s[r + 1..]
  {
    if s == [] then -1
    else if s[|s| - 1] == c then |s| - 1
    else
      var r := RFind(s[..|s| - 1], c);
      assert s == s[..|s| - 1] + [s[|s| - 1]];
      if r == -1 then -1
      else
        assert s[r + 1..] == s[..|s| - 1][r + 1..] + [s[|s| - 1]];
        r
  }

  /** The first `c` of `s` is at `k` when `s[k]` is `c` and nothing before it is. */
  lemma {:induction false} FindAt(s: string, c: char, k: nat)
    requires k < |s| && s[k] == c && c !in s[..k]
    ensures Find(s, c) == k
  {
    if k > 0 {
      assert s[0] == s[..k][0];
      assert s[1..][..k - 1] == s[1..k];
      FindAt(s[1..], c, k - 1);
    }
  }

  /** Python's `s.split(sep)` for a one-character separator: never empty, and no part holds `sep`. */
  function SplitOn(s: string, sep: char): (parts: seq<string>)
    ensures |parts| >= 1
    ensures forall p | p in parts :: sep !in p
    decreases |s|
  {
    var k := Find(s, sep);
    if k < 0 then [s] else [s[..k]] + SplitOn(s[k + 1..], sep)
  }

  lemma JoinCons(x: string, rest: seq<string>, sep: string)
    requires |rest| >= 1
    ensures Join([x] + rest, sep) == x + sep + Join(rest, sep)
  {
    assert ([x] + rest)[1..] == rest;
  }

  /** Joining the parts of a split with the separator gives the string back. */
  lemma {:induction false} JoinSplitOn(s: string, sep: char)
    ensures Join(SplitOn(s, sep), [sep]) == s
    decreases |s|
  {
    var k := Find(s, sep);
    if k >= 0 {
      var rest := SplitOn(s[k + 1..], sep);
      JoinSplitOn(s[k + 1..], sep);
      JoinCons(s[..k], rest, [sep]);
      assert s == s[..k] + [sep] + s[k + 1..];
    }
  }

  /** In a join of two or more parts, the first separator ends the first part and the rest follows it. */
  lemma JoinFirstSep(parts: seq<string>, sep: char)
    requires |parts| >= 2 && sep !in parts[0]
    ensures var s := Join(parts, [sep]); var k := |parts[0]|;
      && Find(s, sep) == k && s[..k] == parts[0] && s[k + 1..] == Join(parts[1..], [sep])
  {
    var s := Join(parts, [sep]);
    var k := |parts[0]|;
    assert s == parts[0] + [sep] + Join(parts[1..], [sep]);
    assert s[k] == sep && s[..k] == parts[0];
    FindAt(s, sep, k);
  }

  /** Splitting a join whose parts do not hold the separator gives the parts back. */
  lemma {:induction false} SplitOnJoin(parts: seq<string>, sep: char)
    requires |parts| >= 1
    requires forall p | p in parts :: sep !in p
    ensures SplitOn(Join(parts, [sep]), sep) == parts
  {
    if |parts| == 1 {
      assert Find(parts[0], sep) == -1;
    } else {
      assert parts[0] in parts;
      JoinFirstSep(parts, sep);
      assert forall p | p in parts[1..] :: p in parts;
      SplitOnJoin(parts[1..], sep);
      assert parts == [parts[0]] + parts[1..];
    }
  }

  predicate IsDigit(c: char) {
    '0' <= c <= '9'
  }

  predicate AllDigits(s: string) {
    forall k | 0 <= k < |s| :: IsDigit(s[k])
  }

  function DigitChar(d: nat): (c: char)
    requires d < 10
    ensures IsDigit(c) && c as int - '0' as int == d
  {
    ('0' as int + d) as char
  }

  /** Python's `str(n)` for a non-negative integer. */
  function Digits(n: nat): (r: string)
    ensures 1 <= |r| && AllDigits(r)
  {
    if n < 10 then [DigitChar(n)] else Digits(n / 10) + [DigitChar(n % 10)]
  }

  /** The number a string of decimal digits denotes (leading zeros allowed). */
  function DigitsValue(s: string): nat
    requires AllDigits(s)
  {
    if s == [] then 0 else 10 * DigitsValue(s[..|s| - 1]) + (s[|s| - 1] as int - '0' as int)
  }

  /** Python's format `f"{n:0{width}d}"` for a non-negative `n`: zeros on the left up to `width`. */
  function FormatInt(n: nat, width: nat): string
  {
    var d := Digits(n);
    if |d| < width then seq(width - |d|, _ => '0') + d else d
  }

  lemma {:induction false} DigitsRoundTrip(n: nat)
    ensures DigitsValue(Digits(n)) == n
  {
    if n >= 10 {
      DigitsRoundTrip(n / 10);
      var d := Digits(n);
      assert d[..|d| - 1] == Digits(n / 10);
    }
  }

  lemma {:induction false} LeadingZerosValue(z: nat, s: string)
    requires AllDigits(s)
    ensures AllDigits(seq(z, _ => '0') + s)
    ensures DigitsValue(seq(z, _ => '0') + s) == DigitsValue(s)
    decreases |s|, z
  {
    var t := seq(z, _ => '0') + s;
    if s == [] {
      assert t == seq(z, _ => '0');
      if z > 0 {
        assert t[..|t| - 1] == seq(z - 1, _ => '0') + [];
        LeadingZerosValue(z - 1, []);
      }
    } else {
      assert t[..|t| - 1] == seq(z, _ => '0') + s[..|s| - 1];
      LeadingZerosValue(z, s[..|s| - 1]);
    }
  }

  /** `str(n)` has no leading zero: only `0` itself starts with `'0'`. */
  lemma {:induction false} DigitsNoLeadingZero(n: nat)
    requires n > 0
    ensures Digits(n)[0] != '0'
  {
    if n >= 10 {
      DigitsNoLeadingZero(n / 10);
    }
  }

  /**
   * Reading back a zero-padded decimal gives the number, and it is exactly
   * `max(width, len(str(n)))` long: zeros are added only up to `width`.
   */
  lemma FormatIntRoundTrip(n: nat, width: nat)
    ensures AllDigits(FormatInt(n, width))
    ensures DigitsValue(FormatInt(n, width)) == n
    ensures |FormatInt(n, width)| == if |Digits(n)| < width then width else |Digits(n)|
  {
    var d := Digits(n);
    DigitsRoundTrip(n);
    if |d| < width {
      LeadingZerosValue(width - |d|, d);
    }
  }
}
