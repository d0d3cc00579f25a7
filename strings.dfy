/**
  * The string operations of the Rust standard library that the document
  * transformers use (`starts_with`, `trim_start_matches`, `trim_end`,
  * `lines`, `strip_prefix`, `join`), and `deindent`, which strips the
  * common indentation from a highlighted code block.
  */
module Strings {
  import opened Wrappers

  predicate StartsWith(s: string, c: char) {
    |s| > 0 && s[0] == c
  }

  /** `char::is_whitespace`: the Unicode White_Space property. */
  predicate IsWhitespace(c: char) {
    || c == ' ' || ('\t' <= c <= '\r')
    || c == '\U{85}' || c == '\U{A0}' || c == '\U{1680}'
    || ('\U{2000}' <= c <= '\U{200A}')
    || c == '\U{2028}' || c == '\U{2029}' || c == '\U{202F}' || c == '\U{205F}' || c == '\U{3000}'
  }

  /** `trim_start_matches("\n")`: every leading newline goes. */
  function TrimStartNewlines(s: string): (r: string)
    ensures |r| <= |s| && r == s[|s| - |r|..]
    ensures forall i :: 0 <= i < |s| - |r| ==> s[i] == '\n'
    ensures !StartsWith(r, '\n')
  {
    if StartsWith(s, '\n') then
      var r := TrimStartNewlines(s[1..]);
      assert s[1..][|s| - 1 - |r|..] == s[|s| - |r|..];
      r
    else s
  }

  /** `trim_end`: trailing whitespace goes. */
  function TrimEnd(s: string): (r: string)
    ensures |r| <= |s| && r == s[..|r|]
    ensures forall i :: |r| <= i < |s| ==> IsWhitespace(s[i])
    ensures |r| == 0 || !IsWhitespace(r[|r| - 1])
  {
    if |s| > 0 && IsWhitespace(s[|s| - 1]) then TrimEnd(s[..|s| - 1]) else s
  }

  /** `chars().take_while(|&c| c == ' ').count()` */
  function LeadingSpaces(s: string): (n: nat)
    ensures n <= |s|
    ensures forall i :: 0 <= i < n ==> s[i] == ' '
    ensures n == |s| || s[n] != ' '
  {
    if StartsWith(s, ' ') then 1 + LeadingSpaces(s[1..]) else 0
  }

  /** `repeat(' ').take(n).collect()` */
  function Spaces(n: nat): (r: string)
    ensures |r| == n && forall i :: 0 <= i < n ==> r[i] == ' '
  {
    seq(n, _ => ' ')
  }

  /** `strip_prefix(prefix).unwrap_or(line)` */
  function StripPrefixOrKeep(line: string, prefix: string): string {
    if prefix <= line then line[|prefix|..] else line
  }

  function IndexOf(s: string, c: char): (r: Option<nat>)
    ensures r.Some? ==> r.value < |s| && s[r.value] == c && c !in s[..r.value]
    ensures r.None? ==> c !in s
  {
    if |s| == 0 then None
    else if s[0] == c then Some(0)
    else match IndexOf(s[1..], c)
      case None => None
      case Some(i) => assert s[..i + 1] == [s[0]] + s[1..][..i]; Some(i + 1)
  }

  /** Drops the `\r` of a `\r\n` line ending. */
  function StripCr(line: string): string {
    if |line| > 0 && line[|line| - 1] == '\r' then line[..|line| - 1] else line
  }

  /** `str::lines`: split at `\n`, drop a `\r` just before a `\n`, and yield
      no final empty line for a trailing `\n`. */
  function Lines(s: string): (r: seq<string>)
    ensures forall i :: 0 <= i < |r| ==> '\n' !in r[i]
    ensures |r| == 0 <==> |s| == 0
    decreases |s|
  {
    if |s| == 0 then []
    else match IndexOf(s, '\n')
      case None => [s]
      case Some(i) => [StripCr(s[..i])] + Lines(s[i + 1..])
  }

  /** Without carriage returns and a trailing newline, `lines` is the plain
      split at every newline. */
  lemma {:induction false} LinesIsSplit(s: string)
    requires |s| > 0 && '\r' !in s && s[|s| - 1] != '\n'
    ensures Lines(s) == Split(s, '\n')
    decreases |s|
  {
    match IndexOf(s, '\n')
    case None =>
    case Some(i) =>
      assert s[..i] == s[..|s|][..i];
      assert '\r' !in s[..i] by {
        forall k | 0 <= k < i ensures s[..i][k] != '\r' {
          assert s[..i][k] == s[k];
        }
      }
      assert StripCr(s[..i]) == s[..i];
      var rest := s[i + 1..];
      assert rest[|rest| - 1] == s[|s| - 1];
      assert '\r' !in rest by {
        forall k | 0 <= k < |rest| ensures rest[k] != '\r' {
          assert rest[k] == s[i + 1 + k];
        }
      }
      LinesIsSplit(rest);
  }

  /** Plain split at every occurrence of `sep`. */
  function Split(s: string, sep: char): (r: seq<string>)
    ensures |r| > 0
    decreases |s|
  {
    match IndexOf(s, sep)
    case None => [s]
    case Some(i) => [s[..i]] + Split(s[i + 1..], sep)
  }

  /** `join` with a one-character separator. */
  function Join(parts: seq<string>, sep: char): string {
    if |parts| == 0 then ""
    else if |parts| == 1 then parts[0]
    else parts[0] + [sep] + Join(parts[1..], sep)
  }

  function MapStripPrefix(lines: seq<string>, prefix: string): (r: seq<string>)
    ensures |r| == |lines|
    ensures forall i :: 0 <= i < |r| ==> r[i] == StripPrefixOrKeep(lines[i], prefix)
  {
    if |lines| == 0 then [] else [StripPrefixOrKeep(lines[0], prefix)] + MapStripPrefix(lines[1..], prefix)
  }

  /** The text `deindent` works on: leading newlines and trailing whitespace removed. */
  function DeindentInput(source: string): string {
    TrimEnd(TrimStartNewlines(source))
  }

  /** `deindent`: measure the run of spaces that opens the first line, and
      strip exactly that run from every line that starts with it. */
  function Deindent(source: string): string {
    var s := DeindentInput(source);
    var prefix := Spaces(LeadingSpaces(s));
    Join(MapStripPrefix(Lines(s), prefix), '\n')
  }

  /** Splitting a joined list gives the list back when no part holds the separator. */
  lemma {:induction false} SplitJoin(parts: seq<string>, sep: char)
    requires |parts| > 0
    requires forall i :: 0 <= i < |parts| ==> sep !in parts[i]
    ensures Split(Join(parts, sep), sep) == parts
    decreases |parts|
  {
    if |parts| == 1 {
      assert IndexOf(parts[0], sep).None?;
    } else {
      var joined := Join(parts, sep);
      var rest := Join(parts[1..], sep);
      assert joined == parts[0] + [sep] + rest;
      var k := |parts[0]|;
      assert joined[k] == sep;
      assert joined[..k] == parts[0];
      assert IndexOf(joined, sep) == Some(k) by {
        assert sep !in joined[..k];
      }
      assert joined[k + 1..] == rest;
      SplitJoin(parts[1..], sep);
    }
  }

  /** Each line of a non-empty text, before the first, starts with the text's first line. */
  lemma FirstLineIsPrefix(s: string)
    requires |s| > 0
    ensures Lines(s)[0] <= s
    ensures |Lines(s)[0]| == |s| || s[|Lines(s)[0]|] == '\n' || s[|Lines(s)[0]|] == '\r'
  {
  }

  /** The first line of the text `deindent` works on always carries the whole measured indentation. */
  lemma FirstLineIndented(s: string)
    requires |s| > 0
    ensures Spaces(LeadingSpaces(s)) <= Lines(s)[0]
    ensures var n := LeadingSpaces(s); |Lines(s)[0]| == n || Lines(s)[0][n] != ' '
  {
    var n := LeadingSpaces(s);
    var first := Lines(s)[0];
    FirstLineIsPrefix(s);
    assert first[..n] == s[..n] == Spaces(n);
  }

  /** The lines of `deindent`'s output are the input's lines, in order, each
      with the first line's run of leading spaces stripped when it starts
      with exactly that run and left unchanged otherwise. An input that is
      empty after trimming gives the empty string. */
  lemma DeindentLines(source: string)
    ensures var s := DeindentInput(source);
      var prefix := Spaces(LeadingSpaces(s));
      var out := Deindent(source);
      && (|s| == 0 ==> out == "")
      && (|s| > 0 ==>
            && |Split(out, '\n')| == |Lines(s)|
            && forall i :: 0 <= i < |Lines(s)| ==>
                 Split(out, '\n')[i] == (if prefix <= Lines(s)[i] then Lines(s)[i][|prefix|..] else Lines(s)[i]))
  {
    var s := DeindentInput(source);
    var prefix := Spaces(LeadingSpaces(s));
    var stripped := MapStripPrefix(Lines(s), prefix);
    if |s| > 0 {
      forall i | 0 <= i < |stripped| ensures '\n' !in stripped[i] {
        var line := Lines(s)[i];
        assert '\n' !in line;
        if prefix <= line {
          assert forall c :: c in line[|prefix|..] ==> c in line;
        }
      }
      SplitJoin(stripped, '\n');
    }
  }

  /** The first character of `deindent`'s output is never a space. */
  lemma DeindentFirstCharNotSpace(source: string)
    ensures var out := Deindent(source); |out| == 0 || out[0] != ' '
  {
    var s := DeindentInput(source);
    if |s| > 0 {
      var n := LeadingSpaces(s);
      var lines := Lines(s);
      var stripped := MapStripPrefix(lines, Spaces(n));
      FirstLineIndented(s);
      assert stripped[0] == lines[0][n..];
      var out := Join(stripped, '\n');
      if |stripped| == 1 {
        assert out == stripped[0];
      } else {
        assert out == stripped[0] + ['\n'] + Join(stripped[1..], '\n');
        if |stripped[0]| == 0 {
          assert out[0] == '\n';
        } else {
          assert out[0] == stripped[0][0];
        }
      }
    }
  }

  /** The worked example: a newline-led, four-space-indented block. */
  lemma DeindentExample(source: string)
    requires source == "\n    line1\n    line2\n"
    ensures Deindent(source) == "line1" + "\n" + "line2"
  {
    var s := DeindentInput(source);
    ExampleInput();
    ExampleBody(s);
  }

  lemma ExampleBody(s: string)
    requires s == "    line1" + "\n" + "    line2"
    ensures Join(MapStripPrefix(Lines(s), Spaces(LeadingSpaces(s))), '\n') == "line1" + "\n" + "line2"
  {
    ExampleIndent();
    ExampleLines();
    ExampleStripped();
    var stripped := MapStripPrefix(Lines(s), Spaces(LeadingSpaces(s)));
    assert stripped == ["line1", "line2"];
    JoinTwo("line1", "line2");
  }

  lemma JoinTwo(a: string, b: string)
    ensures Join([a, b], '\n') == a + "\n" + b
  {
    assert [a, b][1..] == [b];
  }

  lemma ExampleIndent()
    ensures LeadingSpaces("    line1" + "\n" + "    line2") == 4
  {
    LeadingSpacesOf("    line1" + "\n" + "    line2", 4);
  }

  lemma ExampleLines()
    ensures Lines("    line1" + "\n" + "    line2") == ["    line1", "    line2"]
  {
    LinesOfTwo("    line1", "    line2");
  }

  lemma ExampleStripped()
    ensures MapStripPrefix(["    line1", "    line2"], Spaces(4)) == ["line1", "line2"]
  {
    var prefix := Spaces(4);
    assert prefix == "    ";
    assert "    line1"[4..] == "line1";
    assert "    line2"[4..] == "line2";
  }

  lemma ExampleInput()
    ensures DeindentInput("\n    line1\n    line2\n") == "    line1" + "\n" + "    line2"
  {
    var source := "\n    line1\n    line2\n";
    var t := TrimStartNewlines(source);
    assert t == source[1..];
    assert t[..|t| - 1] == "    line1" + "\n" + "    line2";
    assert !IsWhitespace('2');
  }

  /** Two lines joined by one newline are read back as those two lines. */
  lemma LinesOfTwo(a: string, b: string)
    requires '\n' !in a && '\n' !in b && |b| > 0
    requires |a| == 0 || a[|a| - 1] != '\r'
    ensures Lines(a + "\n" + b) == [a, b]
  {
    var s := a + "\n" + b;
    assert s[..|a|] == a;
    assert IndexOf(s, '\n') == Some(|a|);
    assert s[|a| + 1..] == b;
  }

  lemma LeadingSpacesOf(s: string, n: nat)
    requires n <= |s| && (forall i :: 0 <= i < n ==> s[i] == ' ') && (n == |s| || s[n] != ' ')
    ensures LeadingSpaces(s) == n
  {
  }
}
