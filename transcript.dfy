/**
 * The transcript line grammar of spec/generate.py: the pattern
 * `^([a-z]+): (.+)$` and `validate_transcript`, which scans the lines of the
 * stripped text, skips blank ones, and stops at the first line that does not
 * match the pattern or names a speaker outside the allowed set.
 */
module Transcript {
  import opened Wrappers
  import opened PyStr

  /** One matched line: `group(1)` and `group(2)` of the pattern. */
  datatype Message = Message(speaker: string, text: string)

  /**
   * The outcome of `validate_transcript`. Python returns `(True, "")` for
   * `Valid` and `(False, reason)` otherwise; the reasons keep their 1-based
   * line number and the offending line or name.
   */
  datatype Verdict =
    | Valid
    | EmptyTranscript
    | InvalidFormat(line: nat, text: string)
    | UnexpectedCharacter(line: nat, name: string)
    | NoValidMessages

  predicate IsLower(c: char) {
    'a' <= c <= 'z'
  }

  /** A speaker name: one or more of `a`-`z`. */
  predicate IsName(s: string) {
    |s| >= 1 && forall k | 0 <= k < |s| :: IsLower(s[k])
  }

  /** The length of the longest prefix of `s` made of `a`-`z`. */
  function LowerPrefix(s: string): (n: nat)
    ensures n <= |s|
    ensures forall k | 0 <= k < n :: IsLower(s[k])
    ensures n < |s| ==> !IsLower(s[n])
  {
    if s == [] || !IsLower(s[0]) then 0 else 1 + LowerPrefix(s[1..])
  }

  /**
   * What `(.+)$` matches of `rest`: `.` takes any character but "\n", and `$`
   * matches at the end or just before a final "\n".
   */
  function MessageBody(rest: string): Option<string>
  {
    if |rest| >= 1 && '\n' !in rest then Some(rest)
    else if |rest| >= 2 && rest[|rest| - 1] == '\n' && '\n' !in rest[..|rest| - 1] then Some(rest[..|rest| - 1])
    else None
  }

  /**
   * `MESSAGE_RE.match(line)`. `[a-z]+` must be followed by ':', which is not
   * a letter, so the only name the engine can settle on is the longest
   * lower-case prefix.
   */
  function MatchMessage(line: string): (r: Option<Message>)
    ensures r.Some? ==> IsName(r.value.speaker) && r.value.text != [] && '\n' !in r.value.text
  {
    var n := LowerPrefix(line);
    if n == 0 || |line| < n + 2 || line[n..n + 2] != ": " then None
    else
      match MessageBody(line[n + 2..])
      case None => None
      case Some(body) => Some(Message(line[..n], body))
  }

  /** The text of a matched line, as the transcript format writes it. */
  function RenderLine(m: Message): string {
    m.speaker + ": " + m.text
  }

  /** A matched line without "\n" is exactly `name + ": " + text`, with a name and a non-empty text. */
  lemma MatchMessageSound(line: string)
    requires '\n' !in line && MatchMessage(line).Some?
    ensures IsName(MatchMessage(line).value.speaker)
    ensures MatchMessage(line).value.text != []
    ensures RenderLine(MatchMessage(line).value) == line
  {
    var n := LowerPrefix(line);
    assert line == line[..n] + line[n..n + 2] + line[n + 2..];
  }

  /** Rendering a name and a non-empty one-line text gives a line that matches back to them. */
  lemma MatchMessageRendered(m: Message)
    requires IsName(m.speaker) && m.text != [] && '\n' !in m.text
    ensures MatchMessage(RenderLine(m)) == Some(m)
  {
    var line := RenderLine(m);
    var n := |m.speaker|;
    assert line[n] == ':';
    assert forall k | 0 <= k < n :: line[k] == m.speaker[k];
    LowerPrefixAt(line, n);
    assert line[..n] == m.speaker;
    assert line[n..n + 2] == ": ";
    assert line[n + 2..] == m.text;
  }

  lemma {:induction false} LowerPrefixAt(s: string, n: nat)
    requires n <= |s|
    requires forall k | 0 <= k < n :: IsLower(s[k])
    requires n < |s| ==> !IsLower(s[n])
    ensures LowerPrefix(s) == n
  {
    if n > 0 {
      LowerPrefixAt(s[1..], n - 1);
    }
  }

  /** A blank line: one for which `line.strip() == ""`, that is (by `Strip`'s contract) all whitespace. */
  predicate IsBlank(line: string) {
    AllSpace(line)
  }

  /** A line the validator lets through: blank, or a matched line whose speaker is allowed. */
  predicate LineOk(line: string, allowed: set<string>) {
    IsBlank(line) || (MatchMessage(line).Some? && MatchMessage(line).value.speaker in allowed)
  }

  /** `text.strip().splitlines()`. */
  function Lines(text: string): seq<string> {
    SplitLines(Strip(text))
  }

  /** The scan from line `i` (0-based) on, with `count` message lines seen before it. */
  function Scan(lines: seq<string>, allowed: set<string>, i: nat, count: nat): (r: Verdict)
    requires i <= |lines|
    ensures r.InvalidFormat? || r.UnexpectedCharacter? ==> i < r.line <= |lines|
    decreases |lines| - i
  {
    if i == |lines| then
      if count == 0 then NoValidMessages else Valid
    else if IsBlank(lines[i]) then
      Scan(lines, allowed, i + 1, count)
    else
      match MatchMessage(lines[i])
      case None => InvalidFormat(i + 1, lines[i])
      case Some(m) =>
        if m.speaker !in allowed then UnexpectedCharacter(i + 1, m.speaker)
        else Scan(lines, allowed, i + 1, count + 1)
  }

  /** What `validate_transcript(text, allowed)` decides. */
  function Validate(text: string, allowed: set<string>): (v: Verdict)
    ensures v.InvalidFormat? || v.UnexpectedCharacter? ==> 1 <= v.line <= |Lines(text)|
  {
    var lines := Lines(text);
    if lines == [] then EmptyTranscript else Scan(lines, allowed, 0, 0)
  }

  /** `validate_transcript`: the loop over the lines, with early returns. */
  method ValidateTranscript(text: string, allowed: set<string>) returns (v: Verdict)
    ensures v == Validate(text, allowed)
  {
    var stripped := Strip(text);
    var lines := SplitLines(stripped);
    if |lines| == 0 {
      return EmptyTranscript;
    }
    var messageCount := 0;
    var i := 1;
    while i <= |lines|
      invariant 1 <= i <= |lines| + 1
      invariant Scan(lines, allowed, i - 1, messageCount) == Scan(lines, allowed, 0, 0)
    {
      var line := lines[i - 1];
      if Strip(line) == "" {
        i := i + 1;
        continue;
      }
      var m := MatchMessage(line);
      if m.None? {
        return InvalidFormat(i, line);
      }
      var name := m.value.speaker;
      if name !in allowed {
        return UnexpectedCharacter(i, name);
      }
      messageCount := messageCount + 1;
      i := i + 1;
    }
    if messageCount == 0 {
      return NoValidMessages;
    }
    return Valid;
  }

  /** The scan accepts exactly when every line from `i` on is ok and some message line has been or will be seen. */
  lemma {:induction false} ScanAccepts(lines: seq<string>, allowed: set<string>, i: nat, count: nat)
    requires i <= |lines|
    ensures Scan(lines, allowed, i, count) == Valid <==>
      (forall j {:trigger LineOk(lines[j], allowed)} | i <= j < |lines| :: LineOk(lines[j], allowed))
      && (count > 0 || exists j {:trigger IsBlank(lines[j])} | i <= j < |lines| :: !IsBlank(lines[j]))
    decreases |lines| - i
  {
    if i < |lines| {
      var line := lines[i];
      if IsBlank(line) {
        ScanAccepts(lines, allowed, i + 1, count);
        assert (forall j {:trigger LineOk(lines[j], allowed)} | i <= j < |lines| :: LineOk(lines[j], allowed))
          <==> (forall j {:trigger LineOk(lines[j], allowed)} | i + 1 <= j < |lines| :: LineOk(lines[j], allowed));
        assert (exists j {:trigger IsBlank(lines[j])} | i <= j < |lines| :: !IsBlank(lines[j]))
          <==> (exists j {:trigger IsBlank(lines[j])} | i + 1 <= j < |lines| :: !IsBlank(lines[j]));
      } else if LineOk(line, allowed) {
        ScanAccepts(lines, allowed, i + 1, count + 1);
        assert (forall j {:trigger LineOk(lines[j], allowed)} | i <= j < |lines| :: LineOk(lines[j], allowed))
          <==> (forall j {:trigger LineOk(lines[j], allowed)} | i + 1 <= j < |lines| :: LineOk(lines[j], allowed));
      } else {
        assert !Scan(lines, allowed, i, count).Valid?;
      }
    }
  }

  /** Once a message line has been counted, the scan never ends with "No valid messages found". */
  lemma {:induction false} ScanCounted(lines: seq<string>, allowed: set<string>, i: nat, count: nat)
    requires i <= |lines| && count > 0
    ensures Scan(lines, allowed, i, count) != NoValidMessages
    decreases |lines| - i
  {
    if i < |lines| {
      if IsBlank(lines[i]) {
        ScanCounted(lines, allowed, i + 1, count);
      } else if MatchMessage(lines[i]).Some? && MatchMessage(lines[i]).value.speaker in allowed {
        ScanCounted(lines, allowed, i + 1, count + 1);
      }
    }
  }

  /** The lines from `i` up to (not including) line number `n` (1-based) are all ok. */
  predicate OkBefore(lines: seq<string>, allowed: set<string>, i: nat, n: nat)
    requires n <= |lines| + 1
  {
    forall j {:trigger LineOk(lines[j], allowed)} | i <= j < n - 1 :: LineOk(lines[j], allowed)
  }

  /**
   * A rejection for format names the first bad line, 1-based: every line
   * before it is ok, and the named line is non-blank and fails the pattern.
   */
  lemma {:induction false} ScanInvalidFormat(lines: seq<string>, allowed: set<string>, i: nat, count: nat)
    requires i <= |lines|
    requires Scan(lines, allowed, i, count).InvalidFormat?
    ensures var v := Scan(lines, allowed, i, count);
      && i < v.line <= |lines| && v.text == lines[v.line - 1]
      && !IsBlank(v.text) && MatchMessage(v.text).None?
      && OkBefore(lines, allowed, i, v.line)
    decreases |lines| - i
  {
    var line := lines[i];
    if IsBlank(line) {
      ScanInvalidFormat(lines, allowed, i + 1, count);
    } else if LineOk(line, allowed) {
      ScanInvalidFormat(lines, allowed, i + 1, count + 1);
    }
  }

  /**
   * A rejection for a speaker names the first bad line, 1-based: every line
   * before it is ok, and the named line matches with a name outside the set.
   */
  lemma {:induction false} ScanUnexpectedCharacter(lines: seq<string>, allowed: set<string>, i: nat, count: nat)
    requires i <= |lines|
    requires Scan(lines, allowed, i, count).UnexpectedCharacter?
    ensures var v := Scan(lines, allowed, i, count);
      && i < v.line <= |lines| && !IsBlank(lines[v.line - 1])
      && MatchMessage(lines[v.line - 1]).Some? && MatchMessage(lines[v.line - 1]).value.speaker == v.name
      && v.name !in allowed
      && OkBefore(lines, allowed, i, v.line)
    decreases |lines| - i
  {
    var line := lines[i];
    if IsBlank(line) {
      ScanUnexpectedCharacter(lines, allowed, i + 1, count);
    } else if LineOk(line, allowed) {
      ScanUnexpectedCharacter(lines, allowed, i + 1, count + 1);
    }
  }

  lemma {:induction false} ScanNeverEmpty(lines: seq<string>, allowed: set<string>, i: nat, count: nat)
    requires i <= |lines|
    ensures Scan(lines, allowed, i, count) != EmptyTranscript
    decreases |lines| - i
  {
    if i < |lines| {
      ScanNeverEmpty(lines, allowed, i + 1, if IsBlank(lines[i]) then count else count + 1);
    }
  }

  /** The first line of a non-empty stripped text is not blank. */
  lemma FirstLineNotBlank(text: string)
    requires Lines(text) != []
    ensures !IsBlank(Lines(text)[0])
  {
    var s := Strip(text);
    var k := LineEnd(s);
    assert !IsLineBreak(s[0]);
    var first := Lines(text)[0];
    assert first[0] == s[0];
  }

  /** `validate_transcript` reports "Empty transcript" exactly for text that is all whitespace. */
  lemma ValidateEmpty(text: string, allowed: set<string>)
    ensures Validate(text, allowed) == EmptyTranscript <==> AllSpace(text)
  {
    var lines := Lines(text);
    if lines != [] {
      ScanNeverEmpty(lines, allowed, 0, 0);
    }
  }

  /** "No valid messages found" cannot be reported: the first line of the stripped text is a message line or a violation. */
  lemma NoValidMessagesUnreachable(text: string, allowed: set<string>)
    ensures Validate(text, allowed) != NoValidMessages
  {
    var lines := Lines(text);
    if lines != [] {
      FirstLineNotBlank(text);
      if MatchMessage(lines[0]).Some? && MatchMessage(lines[0]).value.speaker in allowed {
        ScanCounted(lines, allowed, 1, 1);
      }
    }
  }

  /**
   * A transcript is accepted exactly when it is not all whitespace and every
   * line of its stripped text is blank or `name: message` with an allowed name.
   */
  lemma ValidateAccepts(text: string, allowed: set<string>)
    ensures Validate(text, allowed) == Valid <==>
      !AllSpace(text) && forall j | 0 <= j < |Lines(text)| :: LineOk(Lines(text)[j], allowed)
  {
    var lines := Lines(text);
    ScanAccepts(lines, allowed, 0, 0);
    if lines != [] {
      FirstLineNotBlank(text);
    }
  }

  /** An accepted transcript's first line is a message line with an allowed speaker. */
  lemma AcceptedHasMessage(text: string, allowed: set<string>)
    requires Validate(text, allowed) == Valid
    ensures Lines(text) != []
    ensures MatchMessage(Lines(text)[0]).Some? && MatchMessage(Lines(text)[0]).value.speaker in allowed
  {
    ValidateAccepts(text, allowed);
    FirstLineNotBlank(text);
  }

  /** The verdict on a text with lines is the scan's verdict on them. */
  lemma ValidateScans(text: string, allowed: set<string>)
    requires Lines(text) != []
    ensures Validate(text, allowed) == Scan(Lines(text), allowed, 0, 0)
  {
  }

  /** A rejection other than "Empty transcript" names the first line that is not ok, counted over the stripped text. */
  lemma ValidateFirstViolation(text: string, allowed: set<string>)
    ensures var v, lines := Validate(text, allowed), Lines(text);
      && (v.InvalidFormat? ==>
        && 1 <= v.line <= |lines| && v.text == lines[v.line - 1]
        && !IsBlank(v.text) && MatchMessage(v.text).None?
        && OkBefore(lines, allowed, 0, v.line))
      && (v.UnexpectedCharacter? ==>
        && 1 <= v.line <= |lines| && !IsBlank(lines[v.line - 1])
        && MatchMessage(lines[v.line - 1]).Some? && MatchMessage(lines[v.line - 1]).value.speaker == v.name
        && v.name !in allowed
        && OkBefore(lines, allowed, 0, v.line))
  {
    var lines := Lines(text);
    if lines != [] {
      ValidateScans(text, allowed);
      var v := Scan(lines, allowed, 0, 0);
      if v.InvalidFormat? {
        ScanInvalidFormat(lines, allowed, 0, 0);
      } else if v.UnexpectedCharacter? {
        ScanUnexpectedCharacter(lines, allowed, 0, 0);
      }
    }
  }

  /** A conversation written out in the transcript format: one `name: text` line per message, joined by "\n". */
  function Render(msgs: seq<Message>): string {
    Join(seq(|msgs|, k requires 0 <= k < |msgs| => RenderLine(msgs[k])), "\n")
  }

  /** A message the format admits: a name from the allowed set and a non-empty text on one line. */
  predicate Admissible(m: Message, allowed: set<string>) {
    IsName(m.speaker) && m.speaker in allowed && m.text != [] && NoLineBreak(m.text)
  }

  lemma RenderLineOneLine(m: Message)
    requires IsName(m.speaker) && NoLineBreak(m.text)
    ensures NoLineBreak(RenderLine(m))
  {
    var line := RenderLine(m);
    forall k | 0 <= k < |line| ensures !IsLineBreak(line[k]) {
      if k < |m.speaker| {
        assert line[k] == m.speaker[k];
      } else if k >= |m.speaker| + 2 {
        assert line[k] == m.text[k - |m.speaker| - 2];
      }
    }
  }

  /**
   * Any non-empty conversation of admissible messages, whose last text does
   * not end in whitespace, is accepted once written out in the format.
   */
  lemma RenderedIsValid(msgs: seq<Message>, allowed: set<string>)
    requires |msgs| >= 1
    requires forall k | 0 <= k < |msgs| :: Admissible(msgs[k], allowed)
    requires var t := msgs[|msgs| - 1].text; t != [] && !IsSpace(t[|t| - 1])
    ensures Validate(Render(msgs), allowed) == Valid
  {
    var lines := seq(|msgs|, k requires 0 <= k < |msgs| => RenderLine(msgs[k]));
    var s := Render(msgs);
    forall l | l in lines ensures NoLineBreak(l) {
      var k :| 0 <= k < |lines| && lines[k] == l;
      RenderLineOneLine(msgs[k]);
    }
    var last := lines[|lines| - 1];
    assert last == RenderLine(msgs[|msgs| - 1]);
    assert last[|last| - 1] == msgs[|msgs| - 1].text[|msgs[|msgs| - 1].text| - 1];
    JoinFirst(lines, "\n");
    JoinLast(lines, "\n");
    assert s[0] == msgs[0].speaker[0];
    StripStripped(s);
    SplitLinesJoin(lines);
    assert Lines(s) == lines;
    forall j | 0 <= j < |Lines(s)| ensures LineOk(Lines(s)[j], allowed) {
      var t := msgs[j].text;
      assert forall p | 0 <= p < |t| :: t[p] != '\n';
      MatchMessageRendered(msgs[j]);
    }
    ValidateAccepts(s, allowed);
  }
}
