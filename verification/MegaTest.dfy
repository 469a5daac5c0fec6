/**
 The configuration file of mega-test.py: reading it, running the tests, and rewriting it with
 the line counts that were seen.
 */
module MegaTest {
  import opened Basics

  /** `lines` is the number of output lines expected. */
  datatype Test = Test(name: string, command: string, lines: nat)

  // ---------------------------------------------------------------------------------------
  // Characters and numbers

  predicate Space(c: char) { c == ' ' }
  predicate NonSpace(c: char) { c != ' ' }
  predicate Digit(c: char) { '0' <= c <= '9' }
  predicate NotNewline(c: char) { c != '\n' }

  ghost predicate All(s: string, f: char -> bool) {
    forall i :: 0 <= i < |s| ==> f(s[i])
  }

  /** Length of the longest prefix of `s` whose characters all satisfy `f`. */
  function Span(s: string, f: char -> bool): (n: nat)
    ensures n <= |s|
    ensures forall i :: 0 <= i < n ==> f(s[i])
    ensures n < |s| ==> !f(s[n])
  {
    if s != [] && f(s[0]) then 1 + Span(s[1..], f) else 0
  }

  lemma SpanOf(a: string, b: string, f: char -> bool)
    requires All(a, f) && (b == [] || !f(b[0]))
    ensures Span(a + b, f) == |a|
    ensures (a + b)[..|a|] == a && (a + b)[|a|..] == b
  {
    assert forall i :: 0 <= i < |a| ==> (a + b)[i] == a[i];
    assert b != [] ==> (a + b)[|a|] == b[0];
  }

  function Repeat(c: char, n: nat): (s: string)
    ensures |s| == n && forall i :: 0 <= i < n ==> s[i] == c
  {
    seq(n, _ => c)
  }

  function DigitChar(n: nat): (c: char)
    requires n < 10
    ensures Digit(c)
  {
    ('0' as int + n) as char
  }

  function DigitValue(c: char): (n: nat)
    requires Digit(c)
    ensures n < 10
  {
    c as int - '0' as int
  }

  /** "%d" of a natural number. */
  function Decimal(n: nat): (s: string)
    ensures s != [] && forall i :: 0 <= i < |s| ==> Digit(s[i])
  {
    if n < 10 then [DigitChar(n)] else Decimal(n / 10) + [DigitChar(n % 10)]
  }

  /** int() of a string of digits. */
  function IntOf(s: string): nat
    requires forall i :: 0 <= i < |s| ==> Digit(s[i])
  {
    if s == [] then 0 else 10 * IntOf(s[..|s| - 1]) + DigitValue(s[|s| - 1])
  }

  lemma {:induction false} IntOfDecimal(n: nat)
    ensures IntOf(Decimal(n)) == n
  {
    var s := Decimal(n);
    if n < 10 {
      assert s[..0] == [];
    } else {
      IntOfDecimal(n / 10);
      assert s[..|s| - 1] == Decimal(n / 10);
    }
  }

  // ---------------------------------------------------------------------------------------
  // CONFIG_LINE

  /** A line that the regular expression describes, taken apart at its groups. */
  ghost predicate Matches(
      line: string, name: string, a: nat, digits: string, b: nat, command: string, newline: string)
  {
    line == name + Repeat(' ', a) + digits + Repeat(' ', b) + command + newline
    && name != [] && All(name, NonSpace) && a >= 1
    && digits != [] && All(digits, Digit) && b >= 1
    && All(command, NotNewline) && (newline == [] || newline == "\n")
  }

  /** The end of the pattern, ` +(.*)$`: spaces, then the command. */
  function ParseCommand(s: string): Option<string> {
    var l := Span(s, Space);
    var m := Span(s[l..], NotNewline);
    if l > 0 && (s[l..][m..] == [] || s[l..][m..] == "\n") then Some(s[l..][..m]) else None
  }

  /** From the spaces before the number on. */
  function ParseNumber(s: string): Option<(nat, string)> {
    var j := Span(s, Space);
    var k := Span(s[j..], Digit);
    var command := ParseCommand(s[j..][k..]);
    if j > 0 && k > 0 && command.Some? then Some((IntOf(s[j..][..k]), command.value)) else None
  }

  /** CONFIG_LINE.match, group by group: each group takes as much as it can. */
  function ParseLine(line: string): Option<Test> {
    var i := Span(line, NonSpace);
    var rest := ParseNumber(line[i..]);
    if i > 0 && rest.Some? then Some(Test(line[..i], rest.value.1, rest.value.0)) else None
  }

  lemma CommandComplete(b: nat, command: string, newline: string)
    requires b >= 1 && All(command, NotNewline) && (newline == [] || newline == "\n")
    ensures ParseCommand(Repeat(' ', b) + command + newline) == Some(command[Span(command, Space)..])
  {
    hide Span, Repeat, ParseCommand;
    var s := Span(command, Space);
    var c := command[s..];
    var spaces := Repeat(' ', b) + command[..s];
    assert Repeat(' ', b) + command + newline == spaces + (c + newline) by {
      assert command == command[..s] + c;
    }
    assert All(spaces, Space);
    CommandAfter(spaces, c, newline);
  }

  lemma CommandAfter(spaces: string, c: string, newline: string)
    requires spaces != [] && All(spaces, Space) && (c == [] || c[0] != ' ')
    requires All(c, NotNewline) && (newline == [] || newline == "\n")
    ensures ParseCommand(spaces + (c + newline)) == Some(c)
  {
    hide Span;
    SpanOf(spaces, c + newline, Space);
    SpanOf(c, newline, NotNewline);
  }

  /** Whenever the regular expression can match at all, ParseLine finds the match in which the
      command does not start with a space. */
  lemma ParseComplete(line: string, name: string, a: nat, digits: string, b: nat, command: string, newline: string)
    requires Matches(line, name, a, digits, b, command, newline)
    ensures ParseLine(line) == Some(Test(name, command[Span(command, Space)..], IntOf(digits)))
  {
    hide ParseCommand, IntOf, Span, Repeat;
    var end := Repeat(' ', b) + command + newline;
    var number := Repeat(' ', a) + (digits + end);
    CommandComplete(b, command, newline);
    assert line == name + number;
    SpanOf(name, number, NonSpace);
    SpanOf(Repeat(' ', a), digits + end, Space);
    SpanOf(digits, end, Digit);
  }

  lemma CommandSound(s: string) returns (b: nat, newline: string)
    requires ParseCommand(s).Some?
    ensures var c := ParseCommand(s).value;
            b >= 1 && s == Repeat(' ', b) + c + newline && (newline == [] || newline == "\n")
            && All(c, NotNewline) && (c == [] || c[0] != ' ')
  {
    hide Span;
    b := Span(s, Space);
    var m := Span(s[b..], NotNewline);
    newline := s[b..][m..];
    assert s[..b] == Repeat(' ', b);
    assert s == s[..b] + s[b..] && s[b..] == s[b..][..m] + newline;
  }

  lemma NumberSound(s: string) returns (a: nat, digits: string, b: nat, newline: string)
    requires ParseNumber(s).Some?
    ensures a >= 1 && digits != [] && All(digits, Digit) && ParseNumber(s).value.0 == IntOf(digits)
    ensures var c := ParseNumber(s).value.1;
            b >= 1 && s == Repeat(' ', a) + digits + Repeat(' ', b) + c + newline
            && (newline == [] || newline == "\n") && All(c, NotNewline) && (c == [] || c[0] != ' ')
  {
    hide ParseCommand;
    a := Span(s, Space);
    var k := Span(s[a..], Digit);
    digits := s[a..][..k];
    b, newline := CommandSound(s[a..][k..]);
    assert s[..a] == Repeat(' ', a);
    var c := ParseCommand(s[a..][k..]).value;
    assert s == s[..a] + (digits + s[a..][k..]);
    Regroup(s[..a], digits, Repeat(' ', b), c, newline);
  }

  lemma Regroup(a: string, b: string, c: string, d: string, e: string)
    ensures a + (b + (c + d + e)) == a + b + c + d + e
  {
  }

  /** What ParseLine returns is a match of the regular expression. */
  lemma ParseSound(line: string) returns (a: nat, digits: string, b: nat, newline: string)
    requires ParseLine(line).Some?
    ensures var t := ParseLine(line).value;
            Matches(line, t.name, a, digits, b, t.command, newline)
            && t.lines == IntOf(digits) && (t.command == [] || t.command[0] != ' ')
  {
    hide ParseNumber, IntOf;
    var i := Span(line, NonSpace);
    a, digits, b, newline := NumberSound(line[i..]);
    assert line == line[..i] + line[i..];
  }

  // ---------------------------------------------------------------------------------------
  // The file

  datatype Config = Tests(tests: seq<Test>) | InvalidSyntax(line: string)

  /** Iterating over a file: every line but perhaps the last ends in a newline. */
  function Lines(text: string): seq<string>
    decreases |text|
  {
    if text == [] then [] else [text[..LineEnd(text)]] + Lines(text[LineEnd(text)..])
  }

  /** The end of the first line, behind its newline if it has one. */
  function LineEnd(text: string): (n: nat)
    requires text != []
    ensures 1 <= n <= |text|
    ensures forall i :: 0 <= i < n - 1 ==> text[i] != '\n'
    ensures n < |text| ==> text[n - 1] == '\n'
  {
    var n := Span(text, NotNewline);
    if n == |text| then n else n + 1
  }

  /** Lines that are passed over. */
  predicate Comment(line: string) {
    line == [] || line[0] == '#'
  }

  /** The tests of a list of lines, comments left out. */
  function ParseLines(lines: seq<string>): Config {
    if lines == [] then Tests([])
    else if Comment(lines[0]) then ParseLines(lines[1..])
    else if ParseLine(lines[0]).None? then InvalidSyntax(lines[0])
    else
      match ParseLines(lines[1..])
      case Tests(rest) => Tests([ParseLine(lines[0]).value] + rest)
      case InvalidSyntax(l) => InvalidSyntax(l)
  }

  /** A line is not empty, has no newline before its end, and has one there unless it is the last. */
  ghost predicate IsLine(l: string, last: bool) {
    l != [] && (forall i :: 0 <= i < |l| - 1 ==> l[i] != '\n') && (last || l[|l| - 1] == '\n')
  }

  /** Lines, joined again, are the file. */
  lemma {:induction false} LinesMeans(text: string)
    ensures Concat(Lines(text)) == text
    ensures forall k :: 0 <= k < |Lines(text)| ==> IsLine(Lines(text)[k], k == |Lines(text)| - 1)
    decreases |text|
  {
    hide IsLine, Concat, LineEnd;
    if text == [] {
      ConcatOf("", []);
    } else {
      var n := LineEnd(text);
      var first, rest := text[..n], Lines(text[n..]);
      FirstLine(text);
      LinesMeans(text[n..]);
      ConcatOf(first, rest);
      assert first + text[n..] == text;
      assert forall k :: 0 < k < |[first] + rest| ==> ([first] + rest)[k] == rest[k - 1];
      LinesOfNothing();
    }
  }

  lemma FirstLine(text: string)
    requires text != []
    ensures var n := LineEnd(text); IsLine(text[..n], true) && (n < |text| ==> IsLine(text[..n], false))
  {
    hide LineEnd;
  }

  lemma ConcatOf(first: string, rest: seq<string>)
    ensures Concat([]) == [] && Concat([first] + rest) == first + Concat(rest)
    ensures Concat([first]) == first
  {
    assert ([first] + rest)[1..] == rest && [first][1..] == [];
  }

  /** The lines that count. */
  function Kept(lines: seq<string>): seq<string> {
    if lines == [] then []
    else if lines[0] == [] || lines[0][0] == '#' then Kept(lines[1..])
    else [lines[0]] + Kept(lines[1..])
  }

  /** The tests are what the lines that count parse to, one by one; or the first that does not
      parse is reported. */
  lemma {:induction false} ParseLinesMeans(lines: seq<string>)
    ensures match ParseLines(lines)
            case Tests(tests) =>
              |tests| == |Kept(lines)| && forall k :: 0 <= k < |tests| ==> ParseLine(Kept(lines)[k]) == Some(tests[k])
            case InvalidSyntax(l) => exists k: nat :: FirstBad(Kept(lines), k, l)
  {
    hide ParseLine;
    if lines == [] {
    } else {
      ParseLinesMeans(lines[1..]);
      var rest, more := Kept(lines[1..]), ParseLines(lines[1..]);
      if Comment(lines[0]) {
        assert Kept(lines) == rest && ParseLines(lines) == more;
        if more.InvalidSyntax? {
          var k: nat :| FirstBad(rest, k, more.line);
          assert FirstBad(Kept(lines), k, ParseLines(lines).line);
        }
      } else if ParseLine(lines[0]).None? {
        var k: nat := 0;
        assert FirstBad(Kept(lines), k, ParseLines(lines).line);
      } else if more.InvalidSyntax? {
        var k: nat :| FirstBad(rest, k, more.line);
        assert Kept(lines) == [lines[0]] + rest;
        assert FirstBad(Kept(lines), k + 1, ParseLines(lines).line);
      }
    }
  }

  /** Line `k` is the first that does not parse. */
  ghost predicate FirstBad(lines: seq<string>, k: nat, l: string) {
    k < |lines| && lines[k] == l && ParseLine(l).None? && forall j :: 0 <= j < k ==> ParseLine(lines[j]).Some?
  }

  /** `tests`, then what the rest of the file says. */
  function Prepend(tests: seq<Test>, rest: Config): Config {
    match rest
    case Tests(more) => Tests(tests + more)
    case InvalidSyntax(l) => InvalidSyntax(l)
  }

  lemma ParseStep(lines: seq<string>, i: nat, tests: seq<Test>)
    requires i < |lines|
    ensures var m, before := ParseLine(lines[i]), Prepend(tests, ParseLines(lines[i..]));
            if Comment(lines[i]) then before == Prepend(tests, ParseLines(lines[i + 1..]))
            else if m.None? then before == InvalidSyntax(lines[i])
            else before == Prepend(tests + [m.value], ParseLines(lines[i + 1..]))
  {
    hide ParseLine, Comment;
    var m, rest := ParseLine(lines[i]), ParseLines(lines[i + 1..]);
    assert lines[i..][1..] == lines[i + 1..];
    if m.Some? && rest.Tests? {
      assert tests + ([m.value] + rest.tests) == tests + [m.value] + rest.tests;
    }
  }

  lemma ParseEnds(lines: seq<string>, tests: seq<Test>)
    ensures Prepend([], ParseLines(lines)) == ParseLines(lines)
    ensures Prepend(tests, ParseLines([])) == Tests(tests)
  {
    hide ParseLine, Comment;
    var c := ParseLines(lines);
    assert c.Tests? ==> [] + c.tests == c.tests;
  }

  /** The loop that reads the configuration file. */
  method ReadConfig(text: string) returns (r: Config)
    ensures r == ParseLines(Lines(text))
  {
    hide ParseLines, ParseLine, Comment, Lines, Prepend;
    var lines := Lines(text);
    var tests := [];
    assert lines[0..] == lines && lines[|lines|..] == [];
    ParseEnds(lines, []);
    for i := 0 to |lines|
      invariant ParseLines(lines) == Prepend(tests, ParseLines(lines[i..]))
    {
      var line := lines[i];
      ParseStep(lines, i, tests);
      if !Comment(line) {
        var m := ParseLine(line);
        if m.None? {
          return InvalidSyntax(line);
        }
        tests := tests + [m.value];
      }
    }
    ParseEnds(lines, tests);
    return Tests(tests);
  }

  /** "%-16s": padded on the right. */
  function PadRight(s: string, n: nat): string {
    if |s| < n then s + Repeat(' ', n - |s|) else s
  }

  /** "%6d": padded on the left. */
  function PadLeft(s: string, n: nat): string {
    if |s| < n then Repeat(' ', n - |s|) + s else s
  }

  function FormatLine(t: Test): string {
    PadRight(t.name, 16) + " " + PadLeft(Decimal(t.lines), 6) + " " + t.command + "\n"
  }

  function FormatAll(tests: seq<Test>): string {
    if tests == [] then [] else FormatLine(tests[0]) + FormatAll(tests[1..])
  }

  /** How a run of a test ended: did it pass, and how many lines did it print? */
  datatype Seen = Seen(passed: bool, count: nat)

  /** Passing tests get the count that was seen, failing ones keep theirs. */
  function Updated(tests: seq<Test>, seen: seq<Seen>): (r: seq<Test>)
    requires |tests| == |seen|
    ensures |r| == |tests|
  {
    seq(|tests|, i requires 0 <= i < |tests| =>
      if seen[i].passed then tests[i].(lines := seen[i].count) else tests[i])
  }

  /** The loop that rewrites the configuration file. */
  method WriteConfig(tests: seq<Test>, seen: seq<Seen>) returns (text: string)
    requires |tests| == |seen|
    ensures text == FormatAll(Updated(tests, seen))
  {
    hide FormatLine, FormatAll;
    ghost var updated := Updated(tests, seen);
    text := [];
    FormatNothing();
    for i := 0 to |tests|
      invariant text == FormatAll(updated[..i])
    {
      var t := if seen[i].passed then tests[i].(lines := seen[i].count) else tests[i];
      text := text + FormatLine(t);
      FormatOneMore(updated[..i], t);
      assert updated[..i + 1] == updated[..i] + [t];
    }
    assert updated[..|updated|] == updated;
  }

  lemma FormatNothing()
    ensures FormatAll([]) == []
  {
  }

  lemma {:induction false} FormatOneMore(tests: seq<Test>, t: Test)
    ensures FormatAll(tests + [t]) == FormatAll(tests) + FormatLine(t)
  {
    hide FormatLine;
    if tests == [] {
      assert tests + [t] == [t] && [t][1..] == [];
    } else {
      assert (tests + [t])[1..] == tests[1..] + [t];
      FormatOneMore(tests[1..], t);
    }
  }

  // ---------------------------------------------------------------------------------------
  // Reading back what was written

  /** The name is padded to 16 columns on the right, the number to 6 on the left; longer ones are
      written in full. */
  lemma Columns(t: Test)
    ensures var d := Decimal(t.lines);
            var a, b := if |t.name| < 16 then 16 - |t.name| else 0, if |d| < 6 then 6 - |d| else 0;
            FormatLine(t) == t.name + Repeat(' ', a) + " " + Repeat(' ', b) + d + " " + t.command + "\n"
  {
    hide Decimal;
    var d := Decimal(t.lines);
    var a, b := if |t.name| < 16 then 16 - |t.name| else 0, if |d| < 6 then 6 - |d| else 0;
    assert PadRight(t.name, 16) == t.name + Repeat(' ', a);
    assert PadLeft(d, 6) == Repeat(' ', b) + d;
    assert t.name + Repeat(' ', a) + " " + (Repeat(' ', b) + d) == t.name + Repeat(' ', a) + " " + Repeat(' ', b) + d;
  }

  lemma DecimalExample()
    ensures Decimal(2048) == "2048"
  {
    assert Decimal(2) == "2" && Decimal(20) == "20" && Decimal(204) == "204";
  }

  /** The tests that survive a rewrite. */
  predicate Storable(t: Test) {
    t.name != [] && t.name[0] != '#'
    && (forall i :: 0 <= i < |t.name| ==> t.name[i] != ' ' && t.name[i] != '\n')
    && (forall i :: 0 <= i < |t.command| ==> t.command[i] != '\n')
    && (t.command == [] || t.command[0] != ' ')
  }

  lemma LineRoundTrip(t: Test)
    requires t.name != [] && All(t.name, NonSpace) && All(t.command, NotNewline)
    requires t.command == [] || t.command[0] != ' '
    ensures ParseLine(FormatLine(t)) == Some(t)
  {
    var d := Decimal(t.lines);
    var a := 1 + (if |t.name| < 16 then 16 - |t.name| else 0) + (if |d| < 6 then 6 - |d| else 0);
    assert PadRight(t.name, 16) + " " + PadLeft(d, 6) == t.name + Repeat(' ', a) + d;
    assert " " == Repeat(' ', 1);
    assert FormatLine(t) == t.name + Repeat(' ', a) + d + Repeat(' ', 1) + t.command + "\n";
    assert Matches(FormatLine(t), t.name, a, d, 1, t.command, "\n");
    ParseComplete(FormatLine(t), t.name, a, d, 1, t.command, "\n");
    IntOfDecimal(t.lines);
    assert Span(t.command, Space) == 0;
  }

  lemma FormattedIsOneLine(t: Test, rest: string)
    requires Storable(t)
    ensures Lines(FormatLine(t) + rest) == [FormatLine(t)] + Lines(rest)
    ensures !Comment(FormatLine(t))
  {
    var body := PadRight(t.name, 16) + " " + PadLeft(Decimal(t.lines), 6) + " " + t.command;
    assert FormatLine(t) == body + "\n";
    NoNewlines(t);
    OneLine(body, rest);
    assert FormatLine(t)[0] == t.name[0];
  }

  lemma NoNewlines(t: Test)
    requires Storable(t)
    ensures All(PadRight(t.name, 16) + " " + PadLeft(Decimal(t.lines), 6) + " " + t.command, NotNewline)
  {
    hide Decimal;
    var d := Decimal(t.lines);
    assert forall i :: 0 <= i < |d| ==> Digit(d[i]);
    assert All(PadRight(t.name, 16), NotNewline) && All(PadLeft(d, 6), NotNewline);
  }

  lemma OneLine(body: string, rest: string)
    requires All(body, NotNewline)
    ensures Lines(body + "\n" + rest) == [body + "\n"] + Lines(rest)
  {
    var text := body + "\n" + rest;
    assert text == body + ("\n" + rest);
    SpanOf(body, "\n" + rest, NotNewline);
    assert LineEnd(text) == |body| + 1;
    assert text[..|body| + 1] == body + "\n" && text[|body| + 1..] == rest;
  }

  /** Reading a file that was written from storable tests gives back exactly those tests. */
  lemma {:induction false} FileRoundTrip(tests: seq<Test>)
    requires forall i :: 0 <= i < |tests| ==> Storable(tests[i])
    ensures ParseLines(Lines(FormatAll(tests))) == Tests(tests)
  {
    hide FormatLine, ParseLine, Lines;
    if tests == [] {
      LinesOfNothing();
    } else {
      var t, rest := tests[0], FormatAll(tests[1..]);
      FileRoundTrip(tests[1..]);
      FormattedIsOneLine(t, rest);
      LineRoundTrip(t);
      var lines := [FormatLine(t)] + Lines(rest);
      assert lines[1..] == Lines(rest);
      assert [t] + tests[1..] == tests;
    }
  }

  lemma LinesOfNothing()
    ensures Lines([]) == []
  {
  }

  lemma ParsedIsStorable(line: string)
    requires ParseLine(line).Some? && !Comment(line)
    requires forall i :: 0 <= i < |line| - 1 ==> line[i] != '\n'
    ensures Storable(ParseLine(line).value)
  {
    hide ParseLine, IntOf;
    var a, digits, b, newline := ParseSound(line);
    var t := ParseLine(line).value;
    forall i | 0 <= i < |t.name|
      ensures t.name[i] != '\n'
    {
      assert line[i] == t.name[i];
    }
    assert line[0] == t.name[0];
  }

  /** Everything the parser can produce is storable. */
  lemma {:induction false} ParsedAreStorable(lines: seq<string>)
    requires ParseLines(lines).Tests?
    requires forall k :: 0 <= k < |lines| ==> forall i :: 0 <= i < |lines[k]| - 1 ==> lines[k][i] != '\n'
    ensures forall i :: 0 <= i < |ParseLines(lines).tests| ==> Storable(ParseLines(lines).tests[i])
  {
    hide ParseLine, Storable;
    if lines == [] {
    } else {
      assert forall k :: 0 <= k < |lines[1..]| ==> lines[1..][k] == lines[k + 1];
      ParsedAreStorable(lines[1..]);
      if !Comment(lines[0]) {
        ParsedIsStorable(lines[0]);
      }
    }
  }

  /** Whatever file was read and however the tests went, reading the rewritten file gives the
      same tests, in the same order, with the line counts of exactly the passing ones updated. */
  lemma RewriteRoundTrip(text: string, seen: seq<Seen>)
    ensures var read := ParseLines(Lines(text));
            read.Tests? && |seen| == |read.tests| ==>
              var again := ParseLines(Lines(FormatAll(Updated(read.tests, seen))));
              again.Tests? && |again.tests| == |seen|
              && forall i :: 0 <= i < |seen| ==>
                   again.tests[i].name == read.tests[i].name && again.tests[i].command == read.tests[i].command
                   && again.tests[i].lines == if seen[i].passed then seen[i].count else read.tests[i].lines
  {
    hide Lines, ParseLines, FormatAll;
    var read := ParseLines(Lines(text));
    if read.Tests? && |seen| == |read.tests| {
      ReadBackIsStorable(text, read.tests);
      var updated := Updated(read.tests, seen);
      forall i | 0 <= i < |updated|
        ensures Storable(updated[i])
      {
        assert Storable(read.tests[i]);
      }
      FileRoundTrip(updated);
    }
  }

  /** A single test is read back exactly when it is storable. */
  lemma StorableExactly(t: Test)
    ensures ParseLines(Lines(FormatAll([t]))) == Tests([t]) <==> Storable(t)
  {
    hide Lines, ParseLines, FormatAll, Storable;
    if Storable(t) {
      FileRoundTrip([t]);
    }
    if ParseLines(Lines(FormatAll([t]))) == Tests([t]) {
      ReadBackIsStorable(FormatAll([t]), [t]);
      assert Storable([t][0]);
    }
  }

  lemma ReadBackIsStorable(text: string, tests: seq<Test>)
    requires ParseLines(Lines(text)) == Tests(tests)
    ensures forall i :: 0 <= i < |tests| ==> Storable(tests[i])
  {
    hide Lines, ParseLines;
    LinesMeans(text);
    ParsedAreStorable(Lines(text));
  }

  // ---------------------------------------------------------------------------------------
  // The progress bars

  /** The percentage of `print_bar`: none where Python divides by zero. */
  function Percent(count: nat, lines: nat): Option<nat> {
    if lines == 0 then None else Some(count * 100 / lines)
  }

  /** The first `print_bars` of a run, before any output was counted. */
  predicate BarsPrintable(tests: seq<Test>) {
    forall i :: 0 <= i < |tests| ==> Percent(0, tests[i].lines).Some?
  }

  /** After a run whose bars could be printed, the rewritten file can be run again exactly when
      no passing test was silent. */
  lemma SilentTestBreaksNextRun(tests: seq<Test>, seen: seq<Seen>)
    requires |tests| == |seen| && BarsPrintable(tests)
    ensures BarsPrintable(Updated(tests, seen)) <==> forall i :: 0 <= i < |seen| && seen[i].passed ==> seen[i].count > 0
  {
    var updated := Updated(tests, seen);
    if i :| 0 <= i < |seen| && seen[i].passed && seen[i].count == 0 {
      assert Percent(0, updated[i].lines).None?;
    } else {
      forall i | 0 <= i < |updated|
        ensures Percent(0, updated[i].lines).Some?
      {
        assert Percent(0, tests[i].lines).Some?;
      }
    }
  }

  // ---------------------------------------------------------------------------------------
  // The poll loop

  /** text.count("\n"). */
  function Newlines(text: string): nat {
    if text == [] then 0 else (if text[0] == '\n' then 1 else 0) + Newlines(text[1..])
  }

  function Concat(chunks: seq<string>): string {
    if chunks == [] then [] else chunks[0] + Concat(chunks[1..])
  }

  lemma {:induction false} NewlinesConcat(a: string, b: string)
    ensures Newlines(a + b) == Newlines(a) + Newlines(b)
  {
    if a == [] {
      assert a + b == b;
    } else {
      NewlinesConcat(a[1..], b);
      assert (a + b)[1..] == a[1..] + b;
    }
  }

  /** Newlines are lines, except for a last line without one. */
  lemma {:induction false} NewlinesAreLines(text: string)
    ensures Newlines(text) == |Lines(text)| - (if text != [] && text[|text| - 1] != '\n' then 1 else 0)
    decreases |text|
  {
    if text == [] {
    } else {
      hide LineEnd;
      var n := LineEnd(text);
      var body, rest := text[..n - 1], text[n..];
      NoNewlinesCount(body);
      assert text[..n] == body + [text[n - 1]] && [text[n - 1]][1..] == [];
      NewlinesConcat(body, [text[n - 1]]);
      assert text == text[..n] + rest;
      NewlinesConcat(text[..n], rest);
      NewlinesAreLines(rest);
    }
  }

  lemma {:induction false} NoNewlinesCount(text: string)
    requires All(text, NotNewline)
    ensures Newlines(text) == 0
  {
    if text == [] {
    } else {
      assert forall i :: 0 <= i < |text[1..]| ==> text[1..][i] == text[i + 1];
      NoNewlinesCount(text[1..]);
    }
  }

  lemma {:induction false} ConcatSnoc(chunks: seq<string>, c: string)
    ensures Concat(chunks + [c]) == Concat(chunks) + c
  {
    if chunks == [] {
      assert chunks + [c] == [c] && [c][1..] == [];
    } else {
      ConcatSnoc(chunks[1..], c);
      assert (chunks + [c])[1..] == chunks[1..] + [c];
    }
  }

  /** One descriptor in the result of `poll`: how many chunks can be read before the next read would
      block or, when all output has been read and the process has exited, report its end. */
  datatype Event = Event(fd: nat, chunks: nat, atEnd: bool)

  /** Number of tests that have not reached the end of their output. */
  function ActiveCount(done: seq<bool>): nat {
    if done == [] then 0 else (if done[0] then 0 else 1) + ActiveCount(done[1..])
  }

  lemma {:induction false} OneLessActive(done: seq<bool>, i: nat)
    requires i < |done| && !done[i]
    ensures ActiveCount(done[i := true]) == ActiveCount(done) - 1
  {
    if i == 0 {
      assert done[0 := true][1..] == done[1..];
    } else {
      OneLessActive(done[1..], i - 1);
      assert done[i := true][1..] == done[1..][i - 1 := true];
    }
  }

  lemma {:induction false} NoneActive(done: seq<bool>)
    ensures ActiveCount(done) == 0 <==> forall i :: 0 <= i < |done| ==> done[i]
  {
    if done == [] {
    } else {
      NoneActive(done[1..]);
    }
  }

  lemma {:induction false} AllActive(n: nat)
    ensures ActiveCount(seq(n, _ => false)) == n
  {
    if n == 0 {
    } else {
      AllActive(n - 1);
      assert seq(n, _ => false)[1..] == seq(n - 1, _ => false);
    }
  }

  function Min(a: nat, b: nat): nat {
    if a <= b then a else b
  }

  /** Test.update: reads the chunks that are there, counting their newlines, and notices the end. */
  method Update(output: seq<string>, at: nat, count: nat, event: Event) returns (at': nat, count': nat, finished: bool)
    requires at <= |output| && count == Newlines(Concat(output[..at]))
    ensures at' == Min(at + event.chunks, |output|) && count' == Newlines(Concat(output[..at']))
    ensures finished <==> event.atEnd && at' == |output|
  {
    at', count' := at, count;
    while at' < |output| && at' - at < event.chunks
      invariant at <= at' <= |output| && at' - at <= event.chunks && count' == Newlines(Concat(output[..at']))
    {
      var text := output[at'];
      ConcatSnoc(output[..at'], text);
      NewlinesConcat(Concat(output[..at']), text);
      assert output[..at' + 1] == output[..at'] + [text];
      at', count' := at' + 1, count' + Newlines(text);
    }
    finished := event.atEnd && at' == |output|;
  }

  /** How many chunks of test `i` the events make available in all. */
  function Offered(events: seq<Event>, i: nat): nat {
    if events == [] then 0
    else
      var last := events[|events| - 1];
      Offered(events[..|events| - 1], i) + (if last.fd == i then last.chunks else 0)
  }

  /** Is there an event that shows the end of test `i`, with all of its `n` chunks available by then? */
  predicate Ends(events: seq<Event>, i: nat, n: nat) {
    events != []
    && var last := events[|events| - 1];
       Ends(events[..|events| - 1], i, n) || (last.fd == i && last.atEnd && Offered(events, i) >= n)
  }

  function Flatten(polls: seq<seq<Event>>): seq<Event> {
    if polls == [] then [] else Flatten(polls[..|polls| - 1]) + polls[|polls| - 1]
  }

  lemma OneMoreEvent(events: seq<Event>, e: Event, i: nat, n: nat)
    ensures Offered(events + [e], i) == Offered(events, i) + (if e.fd == i then e.chunks else 0)
    ensures Ends(events + [e], i, n) <==>
              Ends(events, i, n) || (e.fd == i && e.atEnd && Offered(events + [e], i) >= n)
  {
    assert (events + [e])[..|events|] == events;
  }

  lemma {:induction false} EndedMeansRead(events: seq<Event>, i: nat, n: nat)
    requires Ends(events, i, n)
    ensures Offered(events, i) >= n
  {
    var before := events[..|events| - 1];
    if Ends(before, i, n) {
      EndedMeansRead(before, i, n);
    } else {
    }
  }

  /** More events take nothing back. */
  lemma {:induction false} MoreEvents(events: seq<Event>, more: seq<Event>, i: nat, n: nat)
    ensures Offered(events, i) <= Offered(events + more, i)
    ensures Ends(events, i, n) ==> Ends(events + more, i, n)
  {
    if more == [] {
      assert events + more == events;
    } else {
      var m := |more| - 1;
      MoreEvents(events, more[..m], i, n);
      assert events + more == events + more[..m] + [more[m]];
      OneMoreEvent(events + more[..m], more[m], i, n);
    }
  }

  lemma {:induction false} FlattenSplit(polls: seq<seq<Event>>, p: nat) returns (rest: seq<Event>)
    requires p <= |polls|
    ensures Flatten(polls) == Flatten(polls[..p]) + rest
  {
    if p == |polls| {
      assert polls[..p] == polls;
      rest := [];
    } else {
      var n := |polls| - 1;
      rest := FlattenSplit(polls[..n], p);
      assert polls[..n][..p] == polls[..p];
      rest := rest + polls[n];
    }
  }

  /** Where test `i` is after some events: everything available was read and counted, and it is
      done exactly when its end was shown. */
  ghost predicate Follows(output: seq<string>, events: seq<Event>, i: nat, read: nat, count: nat, done: bool) {
    read == Min(Offered(events, i), |output|) && count == Newlines(Concat(output[..read]))
    && (done <==> Ends(events, i, |output|))
  }

  ghost predicate AllFollow(
      outputs: seq<seq<string>>, events: seq<Event>, read: seq<nat>, counts: seq<nat>, done: seq<bool>)
  {
    |read| == |counts| == |done| == |outputs|
    && forall i :: 0 <= i < |outputs| ==> Follows(outputs[i], events, i, read[i], counts[i], done[i])
  }

  /** An event that is not looked at changes nothing. */
  lemma OtherEvent(output: seq<string>, events: seq<Event>, e: Event, i: nat, read: nat, count: nat, done: bool)
    requires Follows(output, events, i, read, count, done) && (e.fd != i || done)
    ensures Follows(output, events + [e], i, read, count, done)
  {
    OneMoreEvent(events, e, i, |output|);
    if done {
      EndedMeansRead(events, i, |output|);
    }
  }

  /** The loop over `poller.poll()`.  However the outputs are cut into chunks and the events
      interleave, every test is credited with exactly the lines made available to it and is done
      exactly when its end was shown; the active count is the number of unfinished tests, and the
      loop ends early only when there are none. */
  method PollLoop(outputs: seq<seq<string>>, polls: seq<seq<Event>>)
    returns (counts: seq<nat>, done: seq<bool>, active: int)
    ensures |counts| == |done| == |outputs| && active == ActiveCount(done)
    ensures forall i :: 0 <= i < |outputs| ==> (done[i] <==> Ends(Flatten(polls), i, |outputs[i]|))
    ensures forall i :: 0 <= i < |outputs| ==>
              counts[i] == Newlines(Concat(outputs[i][..Min(Offered(Flatten(polls), i), |outputs[i]|)]))
    ensures forall i :: 0 <= i < |outputs| && done[i] ==> counts[i] == Newlines(Concat(outputs[i]))
    ensures active == 0 <==> forall i :: 0 <= i < |outputs| ==> Ends(Flatten(polls), i, |outputs[i]|)
  {
    hide Follows, Ends, Offered, Newlines, Concat;
    var read: seq<nat> := seq(|outputs|, _ => 0);
    counts, done, active := seq(|outputs|, _ => 0), seq(|outputs|, _ => false), |outputs|;
    AllActive(|outputs|);
    var p := 0;
    ghost var events: seq<Event> := [];
    forall i | 0 <= i < |outputs|
      ensures Follows(outputs[i], [], i, 0, 0, false)
    {
      FollowsNothing(outputs[i], i);
    }
    assert polls[..0] == [];
    while active > 0 && p < |polls|
      invariant 0 <= p <= |polls| && events == Flatten(polls[..p])
      invariant AllFollow(outputs, events, read, counts, done) && active == ActiveCount(done)
      decreases |polls| - p
    {
      ghost var before := events;
      assert before + polls[p][..0] == before;
      for e := 0 to |polls[p]|
        invariant events == before + polls[p][..e]
        invariant AllFollow(outputs, events, read, counts, done) && active == ActiveCount(done)
      {
        var event := polls[p][e];
        read, counts, done, active := Handle(outputs, events, event, read, counts, done, active);
        assert events + [event] == before + polls[p][..e + 1];
        events := events + [event];
      }
      assert polls[p][..|polls[p]|] == polls[p] && polls[..p + 1][..p] == polls[..p];
      p := p + 1;
    }
    NoneActive(done);
    FinalCounts(outputs, polls, p, read, counts, done);
  }

  /** One event: the test it is about is updated, and unregistered when it is done. */
  method Handle(outputs: seq<seq<string>>, ghost events: seq<Event>, event: Event,
                read: seq<nat>, counts: seq<nat>, done: seq<bool>, active: int)
    returns (read': seq<nat>, counts': seq<nat>, done': seq<bool>, active': int)
    requires AllFollow(outputs, events, read, counts, done) && active == ActiveCount(done)
    ensures AllFollow(outputs, events + [event], read', counts', done') && active' == ActiveCount(done')
  {
    hide Ends, Offered, Newlines, Concat;
    read', counts', done', active' := read, counts, done, active;
    var fd := event.fd;
    if fd < |outputs| && !done[fd] {
      assert Follows(outputs[fd], events, fd, read[fd], counts[fd], done[fd]);
      var at, count, finished := Update(outputs[fd], read[fd], counts[fd], event);
      OneMoreEvent(events, event, fd, |outputs[fd]|);
      read', counts' := read[fd := at], counts[fd := count];
      if finished {
        OneLessActive(done, fd);
        done' := done[fd := true];
        active' := active - 1;
      }
      assert Follows(outputs[fd], events + [event], fd, at, count, finished);
    }
    forall i | 0 <= i < |outputs| && (i != fd || done[i])
      ensures Follows(outputs[i], events + [event], i, read[i], counts[i], done[i])
    {
      OtherEvent(outputs[i], events, event, i, read[i], counts[i], done[i]);
    }
  }

  lemma FollowsNothing(output: seq<string>, i: nat)
    ensures Follows(output, [], i, 0, 0, false)
  {
    assert output[..0] == [];
  }

  /** Events after the last test was done change nothing. */
  lemma FinalCounts(outputs: seq<seq<string>>, polls: seq<seq<Event>>, p: nat,
                    read: seq<nat>, counts: seq<nat>, done: seq<bool>)
    requires p <= |polls| && AllFollow(outputs, Flatten(polls[..p]), read, counts, done)
    requires p == |polls| || forall i :: 0 <= i < |done| ==> done[i]
    ensures forall i :: 0 <= i < |outputs| ==> (done[i] <==> Ends(Flatten(polls), i, |outputs[i]|))
    ensures forall i :: 0 <= i < |outputs| ==>
              counts[i] == Newlines(Concat(outputs[i][..Min(Offered(Flatten(polls), i), |outputs[i]|)]))
    ensures forall i :: 0 <= i < |outputs| && done[i] ==> counts[i] == Newlines(Concat(outputs[i]))
  {
    hide Ends, Offered, Newlines, Concat, Follows, Flatten;
    var seen := Flatten(polls[..p]);
    var rest := FlattenSplit(polls, p);
    if p == |polls| {
      assert polls[..p] == polls;
      rest := [];
      assert seen + rest == Flatten(polls);
    }
    forall i | 0 <= i < |outputs|
      ensures done[i] <==> Ends(Flatten(polls), i, |outputs[i]|)
      ensures counts[i] == Newlines(Concat(outputs[i][..Min(Offered(Flatten(polls), i), |outputs[i]|)]))
      ensures done[i] ==> counts[i] == Newlines(Concat(outputs[i]))
    {
      FinalCount(outputs[i], seen, rest, i, read[i], counts[i], done[i]);
    }
  }

  lemma FinalCount(output: seq<string>, seen: seq<Event>, rest: seq<Event>, i: nat, read: nat, count: nat, done: bool)
    requires Follows(output, seen, i, read, count, done) && (rest == [] || done)
    ensures done <==> Ends(seen + rest, i, |output|)
    ensures count == Newlines(Concat(output[..Min(Offered(seen + rest, i), |output|)]))
    ensures done ==> count == Newlines(Concat(output))
  {
    hide Ends, Offered, Newlines, Concat;
    assert rest == [] ==> seen + rest == seen;
    if done {
      EndedMeansRead(seen, i, |output|);
      MoreEvents(seen, rest, i, |output|);
      assert output[..|output|] == output;
    }
  }
}
