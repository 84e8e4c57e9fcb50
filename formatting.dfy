/**
 * The formatting toolbar of the editor page (frontend/static/js/editor.js,
 * `formatOperations`, `createCopyableCodeBlock`, `getLanguageSettings`).
 * Each operation reads the selected text (or the line holding the start of
 * the selection) as a plain string and the edit replaces it with the string
 * computed here.
 */
module Formatting {
  import opened Wrappers
  import opened Text

  // ---------------------------------------------------------------------
  // heading
  // ---------------------------------------------------------------------

  function Repeat(c: char, n: nat): (r: string)
    ensures |r| == n && forall i :: 0 <= i < n ==> r[i] == c
  {
    if n == 0 then [] else [c] + Repeat(c, n - 1)
  }

  /** Length of the run of '#' at the start of `s` (the greedy `#+`). */
  function LeadingHashes(s: string): (n: nat)
    ensures n <= |s|
    ensures forall i :: 0 <= i < n ==> s[i] == '#'
    ensures n == |s| || s[n] != '#'
  {
    if s != [] && s[0] == '#' then 1 + LeadingHashes(s[1..]) else 0
  }

  /** `line` matches /^(#+)\s/; the match then spans LeadingHashes(line) + 1 characters. */
  predicate MatchesHeading(line: string) {
    var n := LeadingHashes(line);
    1 <= n < |line| && IsSpace(line[n])
  }

  /** `'#'.repeat(level) + ' '` */
  function HeadingMarker(level: nat): string {
    Repeat('#', level) + " "
  }

  /** What follows the heading marker of `line`; all of `line` when it has none. */
  function HeadingText(line: string): string {
    if MatchesHeading(line) then line[LeadingHashes(line) + 1..] else line
  }

  /** formatOperations.heading(level) applied to the line holding the selection start. */
  function Heading(level: nat, line: string): string {
    var prefix := HeadingMarker(level);
    if StartsWith(Trim(line), "#") then
      if MatchesHeading(line) then prefix + line[LeadingHashes(line) + 1..] else line
    else
      prefix + line
  }

  lemma {:induction false} HashesOfMarker(level: nat, rest: string)
    ensures LeadingHashes(HeadingMarker(level) + rest) == level
  {
    var s := HeadingMarker(level) + rest;
    if level == 0 {
      assert s[0] == ' ';
    } else {
      assert s[0] == '#';
      assert s[1..] == HeadingMarker(level - 1) + rest;
      HashesOfMarker(level - 1, rest);
    }
  }

  /** A line beginning with a non-blank character has a trimmed form beginning with the same character. */
  lemma TrimKeepsFirst(s: string)
    requires s != [] && !IsSpace(s[0])
    ensures Trim(s) != [] && Trim(s)[0] == s[0]
  {
    assert TrimStart(s) == s;
  }

  /** A line beginning with '#' still begins with '#' once trimmed. */
  lemma TrimmedStartsWithHash(s: string)
    requires s != [] && s[0] == '#'
    ensures StartsWith(Trim(s), "#")
  {
    TrimKeepsFirst(s);
    assert Trim(s)[..1] == "#";
  }

  /** A line that begins with the marker of a level >= 1 is a heading of exactly that level. */
  lemma MarkedLineIsHeading(level: nat, rest: string)
    requires level >= 1
    ensures var s := HeadingMarker(level) + rest;
      StartsWith(Trim(s), "#") && MatchesHeading(s) && LeadingHashes(s) == level && HeadingText(s) == rest
  {
    var s := HeadingMarker(level) + rest;
    HashesOfMarker(level, rest);
    assert s[0] == '#' && s[level] == ' ';
    TrimmedStartsWithHash(s);
    assert s[level + 1..] == rest;
  }

  /**
   * On a line whose trimmed form does not start with '#', heading inserts the
   * marker at column 1 and keeps the whole line after it: the result is a
   * heading of exactly `level` whose text is the original line.
   */
  lemma HeadingOnPlainLine(level: nat, line: string)
    requires level >= 1
    requires !StartsWith(Trim(line), "#")
    ensures var r := Heading(level, line);
      r[..level] == Repeat('#', level) && r[level] == ' ' && r[level + 1..] == line
    ensures var r := Heading(level, line);
      MatchesHeading(r) && LeadingHashes(r) == level && HeadingText(r) == line
  {
    var r := Heading(level, line);
    assert r == HeadingMarker(level) + line;
    MarkedLineIsHeading(level, line);
    assert r[..level] == Repeat('#', level);
  }

  /**
   * On a line matching /^(#+)\s/, heading replaces exactly the matched marker:
   * the result has `level` hashes and the same heading text.
   */
  lemma HeadingOnHeading(level: nat, line: string)
    requires level >= 1
    requires MatchesHeading(line)
    ensures var r := Heading(level, line);
      r == HeadingMarker(level) + line[LeadingHashes(line) + 1..]
    ensures var r := Heading(level, line);
      MatchesHeading(r) && LeadingHashes(r) == level && HeadingText(r) == HeadingText(line)
  {
    TrimmedStartsWithHash(line);
    var r := Heading(level, line);
    assert r == HeadingMarker(level) + line[LeadingHashes(line) + 1..];
    MarkedLineIsHeading(level, line[LeadingHashes(line) + 1..]);
  }

  /** A line whose trimmed form starts with '#' but that does not match /^(#+)\s/ is left as it is. */
  lemma HeadingOnUnmatched(level: nat, line: string)
    requires StartsWith(Trim(line), "#") && !MatchesHeading(line)
    ensures Heading(level, line) == line
  {
  }

  /** Applying the same heading level twice is the same as applying it once. */
  lemma HeadingIdempotent(level: nat, line: string)
    requires level >= 1
    ensures Heading(level, Heading(level, line)) == Heading(level, line)
  {
    var r := Heading(level, line);
    if StartsWith(Trim(line), "#") && !MatchesHeading(line) {
      assert r == line;
    } else {
      var rest := if MatchesHeading(line) then line[LeadingHashes(line) + 1..] else line;
      assert r == HeadingMarker(level) + rest;
      MarkedLineIsHeading(level, rest);
      assert r[LeadingHashes(r) + 1..] == rest;
    }
  }

  // ---------------------------------------------------------------------
  // list
  // ---------------------------------------------------------------------

  /** Length of the run of decimal digits at the start of `s` (the greedy `\d+`). */
  function LeadingDigits(s: string): (n: nat)
    ensures n <= |s|
    ensures forall i :: 0 <= i < n ==> IsDigit(s[i])
    ensures n == |s| || !IsDigit(s[n])
  {
    if s != [] && IsDigit(s[0]) then 1 + LeadingDigits(s[1..]) else 0
  }

  /** `t` matches /^\d+\.\s/. */
  predicate HasNumberMarker(t: string) {
    var n := LeadingDigits(t);
    1 <= n && n + 1 < |t| && t[n] == '.' && IsSpace(t[n + 1])
  }

  /** The trimmed line already carries a list marker: "* " or a number marker. */
  predicate HasListMarker(t: string) {
    StartsWith(t, "* ") || HasNumberMarker(t)
  }

  /** The value `prefix` starts the loop with: `type === 'bullet' ? '* ' : '1. '`. */
  function InitialListPrefix(kind: string): string {
    if kind == "bullet" then "* " else "1. "
  }

  /**
   * The prefix in force when line `i` is rewritten: a numbered list resets it
   * to `${i + 1}. ` at every non-blank line after the first.
   */
  function ListPrefix(kind: string, i: nat): string {
    if kind == "numbered" && i > 0 then NatToString(i + 1) + ". " else InitialListPrefix(kind)
  }

  /** Line `i` of the selection after formatOperations.list(kind). */
  function ListLine(kind: string, i: nat, line: string): string {
    var t := Trim(line);
    if t != [] && !HasListMarker(t) then ListPrefix(kind, i) + t else line
  }

  function ListLines(kind: string, lines: seq<string>): seq<string> {
    seq(|lines|, i requires 0 <= i < |lines| => ListLine(kind, i, lines[i]))
  }

  /** The text formatOperations.list(kind) puts in place of the selection. */
  function FormatList(kind: string, selectedText: string): string {
    Join(ListLines(kind, Split(selectedText, '\n')), '\n')
  }

  /**
   * formatOperations.list as the source runs it: split into lines, then one
   * pass that rewrites `lines[i]` in place with a `prefix` variable that the
   * numbered kind reassigns.
   */
  method ApplyList(kind: string, selectedText: string) returns (newText: string)
    ensures newText == FormatList(kind, selectedText)
  {
    var original := Split(selectedText, '\n');
    ghost var target := ListLines(kind, original);
    var lines := original;
    var prefix := if kind == "bullet" then "* " else "1. ";
    var i := 0;
    while i < |lines|
      invariant 0 <= i <= |lines| == |original| == |target|
      invariant lines[..i] == target[..i]
      invariant lines[i..] == original[i..]
      invariant kind != "numbered" || i == 0 ==> prefix == InitialListPrefix(kind)
    {
      assert lines[i] == original[i] by {
        assert lines[i..][0] == original[i..][0];
      }
      var rewritten;
      rewritten, prefix := RewriteLine(kind, i, lines[i], prefix);
      StepSlices(lines, original, target, i, rewritten);
      lines := lines[i := rewritten];
      i := i + 1;
    }
    assert lines == lines[..i] && target == target[..i];
    newText := Join(lines, '\n');
  }

  /**
   * The body of the list loop for line `i`: a non-blank line takes the
   * numbered kind's prefix for its position, and an unmarked one is
   * rewritten with the prefix in force.
   */
  method RewriteLine(kind: string, i: nat, original: string, prefix: string) returns (line: string, newPrefix: string)
    requires kind != "numbered" || i == 0 ==> prefix == InitialListPrefix(kind)
    ensures line == ListLine(kind, i, original)
    ensures kind != "numbered" || i == 0 ==> newPrefix == InitialListPrefix(kind)
  {
    line := original;
    newPrefix := prefix;
    var trimmed := Trim(original);
    if trimmed != [] {
      if kind == "numbered" && i > 0 {
        newPrefix := NatToString(i + 1) + ". ";
      }
      if !StartsWith(trimmed, "* ") && !HasNumberMarker(trimmed) {
        line := newPrefix + trimmed;
      }
    }
  }

  /** Rewriting position `i` in place to `target[i]` moves the boundary of the rewritten prefix by one. */
  lemma StepSlices(s: seq<string>, original: seq<string>, target: seq<string>, i: nat, x: string)
    requires i < |s| == |original| == |target|
    requires s[..i] == target[..i] && s[i..] == original[i..] && x == target[i]
    ensures s[i := x][..i + 1] == target[..i + 1]
    ensures s[i := x][i + 1..] == original[i + 1..]
  {
    assert s[i := x][..i + 1] == s[..i] + [x];
    assert target[..i + 1] == target[..i] + [target[i]];
    assert s[i + 1..] == s[i..][1..];
    assert original[i + 1..] == original[i..][1..];
  }

  /** Every prefix the list operation writes is free of newlines. */
  lemma ListPrefixHasNoNewline(kind: string, i: nat)
    ensures '\n' !in ListPrefix(kind, i)
  {
    if kind == "numbered" && i > 0 {
      var d := NatToString(i + 1);
      assert forall k :: 0 <= k < |d| ==> d[k] != '\n';
      assert ListPrefix(kind, i) == d + ". ";
    } else {
      assert InitialListPrefix(kind) == "* " || InitialListPrefix(kind) == "1. ";
    }
  }

  /** Splitting the formatted text gives back the formatted lines, one per original line. */
  lemma {:induction false} ListSplits(kind: string, selectedText: string)
    ensures Split(FormatList(kind, selectedText), '\n') == ListLines(kind, Split(selectedText, '\n'))
  {
    var lines := Split(selectedText, '\n');
    var out := ListLines(kind, lines);
    forall i | 0 <= i < |out| ensures '\n' !in out[i] {
      ListPrefixHasNoNewline(kind, i);
    }
    SplitJoin(out, '\n');
  }

  /** The list operation keeps the number of lines of the selection. */
  lemma ListKeepsLineCount(kind: string, selectedText: string)
    ensures LineCount(FormatList(kind, selectedText)) == LineCount(selectedText)
  {
    ListSplits(kind, selectedText);
    SplitLength(FormatList(kind, selectedText), '\n');
    SplitLength(selectedText, '\n');
  }

  /**
   * Line by line: a blank or white-space-only line and a line whose trimmed
   * form already starts with "* " or /\d+\.\s/ are kept exactly; every other
   * line becomes the prefix followed by the trimmed line.
   */
  lemma ListRewritesLines(kind: string, selectedText: string, i: nat)
    requires i < |Split(selectedText, '\n')|
    ensures var line := Split(selectedText, '\n')[i];
      var out := Split(FormatList(kind, selectedText), '\n');
      i < |out| &&
      (Trim(line) == [] || HasListMarker(Trim(line)) ==> out[i] == line) &&
      (Trim(line) != [] && !HasListMarker(Trim(line)) ==> out[i] == ListPrefix(kind, i) + Trim(line))
  {
    ListSplits(kind, selectedText);
  }

  /**
   * Numbering comes from the line's position in the selection, blank lines
   * included: line i is numbered i + 1.
   */
  lemma NumberedPrefix(i: nat)
    ensures var d := NatToString(i + 1);
      ListPrefix("numbered", i) == d + ". " && DigitsValue(d) == i + 1
  {
    NatToStringValue(i + 1);
    if i == 0 {
      assert NatToString(1) == "1";
    }
  }

  /** A one-character line that is neither blank, a digit nor '*' gets the prefix. */
  lemma WordLine(kind: string, i: nat, line: string)
    requires |line| == 1 && !IsSpace(line[0]) && !IsDigit(line[0]) && line[0] != '*'
    ensures ListLine(kind, i, line) == ListPrefix(kind, i) + line
  {
    TrimOfTrimmed(line);
    assert LeadingDigits(line) == 0;
  }

  /**
   * A blank line inside a numbered selection keeps its position in the
   * count: the line after it is numbered 3, not 2.
   */
  lemma NumberedListCountsBlankLines(text: string)
    requires text == "a\n\nb"
    ensures FormatList("numbered", text) == "1. a\n\n3. b"
  {
    var x, y := "a", "b";
    var lines := [x, "", y];
    JoinOfThree(x, "", y);
    assert text == Join(lines, '\n');
    SplitJoin(lines, '\n');
    ThreeLineList(x, y);
    JoinOfThree("1. " + x, "", "3. " + y);
  }

  lemma JoinOfThree(a: string, b: string, c: string)
    ensures Join([a, b, c], '\n') == a + "\n" + b + "\n" + c
  {
    assert [a, b, c][1..] == [b, c] && [b, c][1..] == [c];
    assert Join([b, c], '\n') == b + "\n" + c;
  }

  /** Two one-word lines around a blank one are numbered 1 and 3. */
  lemma ThreeLineList(x: string, y: string)
    requires |x| == 1 && !IsSpace(x[0]) && !IsDigit(x[0]) && x[0] != '*'
    requires |y| == 1 && !IsSpace(y[0]) && !IsDigit(y[0]) && y[0] != '*'
    ensures ListLines("numbered", [x, "", y]) == ["1. " + x, "", "3. " + y]
  {
    var out := ListLines("numbered", [x, "", y]);
    WordLine("numbered", 0, x);
    WordLine("numbered", 2, y);
    ThirdPrefix();
    assert Trim("") == [];
    assert out[0] == "1. " + x && out[1] == "" && out[2] == "3. " + y;
  }

  lemma ThirdPrefix()
    ensures ListPrefix("numbered", 2) == "3. "
  {
    assert NatToString(3) == "3";
  }

  /** A run of digits followed by a non-digit is read as exactly that run by `\d+`. */
  lemma {:induction false} DigitsOfNumeral(d: string, rest: string)
    requires forall k :: 0 <= k < |d| ==> IsDigit(d[k])
    requires rest != [] && !IsDigit(rest[0])
    ensures LeadingDigits(d + rest) == |d|
  {
    if d != [] {
      assert (d + rest)[1..] == d[1..] + rest;
      DigitsOfNumeral(d[1..], rest);
    } else {
      assert d + rest == rest;
    }
  }

  /** A trimmed line after a number and ". " carries a number marker and is its own trimmed form. */
  lemma NumberedLineIsMarked(d: string, t: string)
    requires d != [] && forall k :: 0 <= k < |d| ==> IsDigit(d[k])
    requires t != [] && !IsSpace(t[|t| - 1])
    ensures var r := d + ". " + t; Trim(r) == r && HasNumberMarker(r)
  {
    var r := d + ". " + t;
    assert r == d + (". " + t);
    DigitsOfNumeral(d, ". " + t);
    assert r[|d|] == '.' && r[|d| + 1] == ' ';
    assert IsDigit(r[0]) && r[|r| - 1] == t[|t| - 1];
    TrimOfTrimmed(r);
  }

  /** A trimmed line after "* " carries the bullet marker and is its own trimmed form. */
  lemma BulletLineIsMarked(t: string)
    requires t != [] && !IsSpace(t[|t| - 1])
    ensures var r := "* " + t; Trim(r) == r && StartsWith(r, "* ")
  {
    var r := "* " + t;
    assert r[..2] == "* ";
    assert r[|r| - 1] == t[|t| - 1];
    TrimOfTrimmed(r);
  }

  /** The rewritten form of a line that needs a marker. */
  lemma RewrittenLineIsMarked(kind: string, i: nat, t: string)
    requires t != [] && !IsSpace(t[|t| - 1])
    ensures var r := ListPrefix(kind, i) + t; Trim(r) == r && HasListMarker(r)
  {
    var p := ListPrefix(kind, i);
    if kind == "numbered" && i > 0 {
      var d := NatToString(i + 1);
      assert p == d + ". ";
      NumberedLineIsMarked(d, t);
    } else if kind == "bullet" {
      assert p == "* ";
      BulletLineIsMarked(t);
    } else {
      assert p == "1" + ". ";
      NumberedLineIsMarked("1", t);
    }
  }

  /** A line the list operation rewrote carries a list marker, so a second pass keeps it. */
  lemma ListLineIdempotent(kind: string, i: nat, line: string)
    ensures ListLine(kind, i, ListLine(kind, i, line)) == ListLine(kind, i, line)
  {
    var t := Trim(line);
    if t != [] && !HasListMarker(t) {
      RewrittenLineIsMarked(kind, i, t);
    }
  }

  /** Applying the list operation twice is the same as applying it once. */
  lemma FormatListIdempotent(kind: string, selectedText: string)
    ensures FormatList(kind, FormatList(kind, selectedText)) == FormatList(kind, selectedText)
  {
    var once := ListLines(kind, Split(selectedText, '\n'));
    ListSplits(kind, selectedText);
    forall i | 0 <= i < |once| ensures ListLine(kind, i, once[i]) == once[i] {
      ListLineIdempotent(kind, i, Split(selectedText, '\n')[i]);
    }
    assert ListLines(kind, once) == once;
  }

  // ---------------------------------------------------------------------
  // wrapping operations
  // ---------------------------------------------------------------------

  /** `language || 'plaintext'` for the toolbar's data-param (null when absent). */
  function CodeLanguage(language: Option<string>): string {
    if language.None? || language.value == "" then "plaintext" else language.value
  }

  /** formatOperations.codeBlock */
  function CodeBlock(language: Option<string>, selectedText: string): string {
    "```" + CodeLanguage(language) + "\n" + selectedText + "\n```"
  }

  /** formatOperations.highlight */
  function Highlight(selectedText: string): string {
    "==" + selectedText + "=="
  }

  /** formatOperations.commentBlock */
  function CommentBlock(selectedText: string): string {
    "<!-- " + selectedText + " -->"
  }

  /** formatOperations.textColor */
  function TextColor(color: string, selectedText: string): string {
    "<span style=\"color:" + color + "\">" + selectedText + "</span>"
  }

  /** Wrapping a text adds the newlines of the two wrappers and no others. */
  lemma WrapLineCount(open: string, s: string, close: string)
    ensures LineCount(open + s + close) == Count(open, '\n') + LineCount(s) + Count(close, '\n')
  {
    CountConcat(open + s, close, '\n');
    CountConcat(open, s, '\n');
  }

  /**
   * codeBlock keeps the selection intact after the opening fence line and the
   * block has exactly two lines more than the selection.
   */
  lemma CodeBlockShape(language: Option<string>, selectedText: string)
    requires '\n' !in CodeLanguage(language)
    ensures var open := "```" + CodeLanguage(language) + "\n";
      var r := CodeBlock(language, selectedText);
      |r| == |open| + |selectedText| + 4 && r[|open|..|r| - 4] == selectedText
    ensures LineCount(CodeBlock(language, selectedText)) == LineCount(selectedText) + 2
  {
    var open := "```" + CodeLanguage(language) + "\n";
    assert CodeBlock(language, selectedText) == open + selectedText + "\n```";
    WrapLineCount(open, selectedText, "\n```");
    CountConcat("```" + CodeLanguage(language), "\n", '\n');
    CountConcat("```", CodeLanguage(language), '\n');
    CountAbsent("```", '\n');
    CountAbsent(CodeLanguage(language), '\n');
    assert "\n```" == "\n" + "```";
    CountConcat("\n", "```", '\n');
  }

  /** highlight keeps the selection between its markers and keeps the number of lines. */
  lemma HighlightShape(selectedText: string)
    ensures var r := Highlight(selectedText);
      |r| == |selectedText| + 4 && r[2..|r| - 2] == selectedText
    ensures LineCount(Highlight(selectedText)) == LineCount(selectedText)
  {
    WrapLineCount("==", selectedText, "==");
    CountAbsent("==", '\n');
  }

  /** commentBlock keeps the selection between its markers and keeps the number of lines. */
  lemma CommentBlockShape(selectedText: string)
    ensures var r := CommentBlock(selectedText);
      |r| == |selectedText| + 9 && r[5..|r| - 4] == selectedText
    ensures LineCount(CommentBlock(selectedText)) == LineCount(selectedText)
  {
    WrapLineCount("<!-- ", selectedText, " -->");
    CountAbsent("<!-- ", '\n');
    CountAbsent(" -->", '\n');
  }

  /** textColor keeps the selection inside the span and, for a colour value without newlines, the number of lines. */
  lemma TextColorShape(color: string, selectedText: string)
    requires '\n' !in color
    ensures var open := "<span style=\"color:" + color + "\">";
      var r := TextColor(color, selectedText);
      |r| == |open| + |selectedText| + 7 && r[|open|..|r| - 7] == selectedText
    ensures LineCount(TextColor(color, selectedText)) == LineCount(selectedText)
  {
    var open := "<span style=\"color:" + color + "\">";
    var close := "</span>";
    assert TextColor(color, selectedText) == open + selectedText + close;
    assert '\n' !in open;
    WrapLineCount(open, selectedText, close);
    CountAbsent(open, '\n');
    CountAbsent(close, '\n');
  }

  // ---------------------------------------------------------------------
  // copyable code snippet: HTML escaping
  // ---------------------------------------------------------------------

  /** `s.replace(/c/g, entity)` */
  function ReplaceAll(s: string, c: char, entity: string): string
  {
    if s == [] then [] else (if s[0] == c then entity else [s[0]]) + ReplaceAll(s[1..], c, entity)
  }

  /** `.replace(/&/g, '&amp;').replace(/</g, '&lt;').replace(/>/g, '&gt;')`, in that order. */
  function EscapeHtml(s: string): string {
    ReplaceAll(ReplaceAll(ReplaceAll(s, '&', "&amp;"), '<', "&lt;"), '>', "&gt;")
  }

  /** What the escaping chain turns one character into. */
  function EscapeChar(c: char): string {
    if c == '&' then "&amp;" else if c == '<' then "&lt;" else if c == '>' then "&gt;" else [c]
  }

  /** How a browser reads the three entities back when it renders the `<code>` element. */
  function Unescape(s: string): string
    decreases |s|
  {
    if s == [] then []
    else if StartsWith(s, "&amp;") then "&" + Unescape(s[5..])
    else if StartsWith(s, "&lt;") then "<" + Unescape(s[4..])
    else if StartsWith(s, "&gt;") then ">" + Unescape(s[4..])
    else [s[0]] + Unescape(s[1..])
  }

  lemma {:induction false} ReplaceAllConcat(a: string, b: string, c: char, entity: string)
    ensures ReplaceAll(a + b, c, entity) == ReplaceAll(a, c, entity) + ReplaceAll(b, c, entity)
  {
    if a == [] {
      assert a + b == b;
    } else {
      assert (a + b)[1..] == a[1..] + b;
      ReplaceAllConcat(a[1..], b, c, entity);
    }
  }

  lemma {:induction false} ReplaceAllAbsent(s: string, c: char, entity: string)
    requires c !in s
    ensures ReplaceAll(s, c, entity) == s
  {
    if s != [] {
      ReplaceAllAbsent(s[1..], c, entity);
    }
  }

  /** The chain of three replacements escapes each character on its own. */
  lemma EscapeHtmlCons(c: char, rest: string)
    ensures EscapeHtml([c] + rest) == EscapeChar(c) + EscapeHtml(rest)
  {
    var s := [c] + rest;
    assert s[1..] == rest;
    var a1 := if c == '&' then "&amp;" else [c];
    var r1 := ReplaceAll(rest, '&', "&amp;");
    assert ReplaceAll(s, '&', "&amp;") == a1 + r1;
    ReplaceAllConcat(a1, r1, '<', "&lt;");
    var a2 := if c == '<' then "&lt;" else a1;
    if c == '&' {
      ReplaceAllAbsent("&amp;", '<', "&lt;");
    } else {
      assert [c][1..] == [];
    }
    assert ReplaceAll(a1, '<', "&lt;") == a2;
    var r2 := ReplaceAll(r1, '<', "&lt;");
    ReplaceAllConcat(a2, r2, '>', "&gt;");
    if c == '&' {
      ReplaceAllAbsent("&amp;", '>', "&gt;");
    } else if c == '<' {
      ReplaceAllAbsent("&lt;", '>', "&gt;");
    } else {
      assert [c][1..] == [];
    }
  }

  /** Escaped text contains neither '<' nor '>'. */
  lemma {:induction false} EscapeHtmlHasNoBrackets(s: string)
    ensures '<' !in EscapeHtml(s) && '>' !in EscapeHtml(s)
  {
    if s != [] {
      assert [s[0]] + s[1..] == s;
      EscapeHtmlCons(s[0], s[1..]);
      EscapeHtmlHasNoBrackets(s[1..]);
    }
  }

  lemma UnescapeChar(c: char, tail: string)
    ensures Unescape(EscapeChar(c) + tail) == [c] + Unescape(tail)
  {
    if c == '&' {
      UnescapeEntity("&amp;", '&', tail);
    } else if c == '<' {
      UnescapeEntity("&lt;", '<', tail);
    } else if c == '>' {
      UnescapeEntity("&gt;", '>', tail);
    } else {
      var s := [c] + tail;
      FirstCharDiffers(s, "&amp;");
      FirstCharDiffers(s, "&lt;");
      FirstCharDiffers(s, "&gt;");
      assert s[1..] == tail;
    }
  }

  lemma FirstCharDiffers(s: string, p: string)
    requires s != [] && p != [] && s[0] != p[0]
    ensures !StartsWith(s, p)
  {
    if |p| <= |s| {
      assert s[..|p|][0] == s[0];
    }
  }

  /** One entity at the front is read back as its character. */
  lemma UnescapeEntity(entity: string, c: char, tail: string)
    requires c in "&<>" && entity == EscapeChar(c)
    ensures Unescape(entity + tail) == [c] + Unescape(tail)
  {
    var s := entity + tail;
    assert s[..|entity|] == entity && s[|entity|..] == tail;
    assert s[1] == entity[1];
  }

  /** Reading the entities back gives the original selection. */
  lemma {:induction false} UnescapeEscapeHtml(s: string)
    ensures Unescape(EscapeHtml(s)) == s
  {
    if s == [] {
    } else {
      assert [s[0]] + s[1..] == s;
      EscapeHtmlCons(s[0], s[1..]);
      UnescapeChar(s[0], EscapeHtml(s[1..]));
      UnescapeEscapeHtml(s[1..]);
    }
  }

  /** The markup of createCopyableCodeBlock up to the escaped selection. */
  function SnippetHead(language: string): string {
    "\n<div class=\"code-snippet\">\n    <div class=\"code-header\">\n        <span class=\"language-label\">"
    + language
    + "</span>\n        <button class=\"copy-btn\" onclick=\"copyCode(this)\">Copy</button>\n    </div>\n    <pre class=\"language-"
    + language
    + "\"><code>"
  }

  /** The markup of createCopyableCodeBlock after the escaped selection. */
  const SnippetTail: string := "</code></pre>\n</div>"

  /** createCopyableCodeBlock: the HTML block that replaces the selection. */
  function CopyableCodeBlock(language: string, selectedText: string): string {
    SnippetHead(language) + EscapeHtml(selectedText) + SnippetTail
  }

  /**
   * Inside the `<code>` element of the snippet the selection appears with no
   * '<' or '>' left, and a browser reading the entities gets the selection back.
   */
  lemma CopyableCodeBlockRoundTrip(language: string, selectedText: string)
    ensures var code := EscapeHtml(selectedText);
      CopyableCodeBlock(language, selectedText) == SnippetHead(language) + code + SnippetTail
      && '<' !in code && '>' !in code && Unescape(code) == selectedText
  {
    EscapeHtmlHasNoBrackets(selectedText);
    UnescapeEscapeHtml(selectedText);
  }

  // ---------------------------------------------------------------------
  // getLanguageSettings
  // ---------------------------------------------------------------------

  datatype EditorSettings = EditorSettings(tabSize: nat, insertSpaces: bool, autoIndent: string, formatOnType: bool)

  const BaseSettings: EditorSettings := EditorSettings(4, true, "full", true)

  /** The per-language table of getLanguageSettings, each entry the base settings with overrides. */
  const LanguageTable: map<string, EditorSettings> := map[
    "python" := BaseSettings.(tabSize := 4, insertSpaces := true),
    "javascript" := BaseSettings.(tabSize := 2, insertSpaces := true),
    "java" := BaseSettings.(tabSize := 4, insertSpaces := true),
    "cpp" := BaseSettings.(tabSize := 4, insertSpaces := true)
  ]

  /**
   * getLanguageSettings: every language indents with spaces, auto-indents in
   * "full" mode and formats on type; only JavaScript uses a tab size of 2.
   */
  function GetLanguageSettings(language: string): (s: EditorSettings)
    ensures s.tabSize == (if language == "javascript" then 2 else 4)
    ensures s.insertSpaces && s.autoIndent == "full" && s.formatOnType
  {
    if language in LanguageTable then LanguageTable[language] else BaseSettings
  }
}
