/**
 * The traceback recognisers on the lines of the rule table's own tests
 * (src/rules.rs:178-215), and the two edge cases of the IPDB pattern.
 */
module RulesExamples {
  import opened Wrappers
  import opened Rules

  /** `> /path/to/debugger.py(45)some_func()`, written in its parts. */
  const IpdbWithLine: string := "> " + "/path/to/debugger.py" + "(" + "45" + ")some_func()"

  lemma IpdbWithLinePath()
    ensures RunEnd(IpdbWithLine, 1, IsSpace) == 2 && RunEnd(IpdbWithLine, 2, NotOpenParen) == 22
    ensures IpdbWithLine[2..22] == "/path/to/debugger.py"
  {
    var a, path, rest := "> ", "/path/to/debugger.py", "(" + "45" + ")some_func()";
    var t := IpdbWithLine;
    assert t == a + path + rest;
    assert t[2..22] == path && t[22] == '(';
    RunEndIs(t, 1, 2, IsSpace);
    RunEndOver(t, 2, path, NotOpenParen);
  }

  lemma IpdbWithLineLine()
    ensures LineInParens(IpdbWithLine, 22) == Some(Group(23, 25)) && IpdbWithLine[23..25] == "45"
  {
    var a, digits, c := "> " + "/path/to/debugger.py" + "(", "45", ")some_func()";
    var t := IpdbWithLine;
    assert t == a + digits + c;
    assert t[23..25] == digits && t[22] == '(' && t[25] == ')';
    RunEndOver(t, 23, digits, IsDigit);
  }

  /** An IPDB line with a line number: path and line are the text between the markers. */
  lemma IpdbWithLineExample()
    ensures IpdbCaptures(IpdbWithLine) == Some([Some(Group(0, 26)), Some(Group(2, 22)), Some(Group(23, 25))])
    ensures IpdbWithLine[2..22] == "/path/to/debugger.py" && IpdbWithLine[23..25] == "45"
  {
    IpdbWithLinePath();
    IpdbWithLineLine();
  }

  /** `> /another/script.py`, written in its parts. */
  const IpdbWithoutLine: string := "> " + "/another/script.py"

  lemma IpdbWithoutLinePath()
    ensures RunEnd(IpdbWithoutLine, 1, IsSpace) == 2 && RunEnd(IpdbWithoutLine, 2, NotOpenParen) == 20
    ensures IpdbWithoutLine[2..20] == "/another/script.py"
  {
    var a, path := "> ", "/another/script.py";
    var t := IpdbWithoutLine;
    assert t[2..20] == path;
    RunEndIs(t, 1, 2, IsSpace);
    RunEndOver(t, 2, path, NotOpenParen);
  }

  /** An IPDB line without a line number: the path runs to the end. */
  lemma IpdbWithoutLineExample()
    ensures IpdbCaptures(IpdbWithoutLine) == Some([Some(Group(0, 20)), Some(Group(2, 20)), None])
    ensures IpdbWithoutLine[2..20] == "/another/script.py"
  {
    IpdbWithoutLinePath();
  }

  /** With nothing but a parenthesis after `> `, the whitespace gives its last character to the path. */
  lemma IpdbBacktrackExample()
    ensures IpdbCaptures("> (45)") == Some([Some(Group(0, 6)), Some(Group(1, 2)), Some(Group(3, 5))])
  {
    var t := "> (45)";
    RunEndIs(t, 1, 2, IsSpace);
    RunEndIs(t, 2, 2, NotOpenParen);
    RunEndIs(t, 3, 5, IsDigit);
  }

  /** A parenthesis straight after `>` leaves the path empty: no match. */
  lemma IpdbNoPathExample()
    ensures IpdbCaptures(">(45)") == None && IpdbCaptures(">") == None
  {
  }

  /** `  File "/path/to/my_module.py", line 123`, written in its parts. */
  const PythonWithLine: string := "  " + "File \"" + "/path/to/my_module.py" + "\"" + ", line " + "123"

  lemma PythonWithLineIndent(t: string)
    requires t == PythonWithLine
    ensures RunEnd(t, 0, IsSpace) == 2
  {
    assert t[0] == ' ' && t[1] == ' ' && t[2] == 'F';
    RunEndIs(t, 0, 2, IsSpace);
  }

  lemma PythonWithLineStart()
    ensures PathStart(PythonWithLine) == Some(8)
  {
    var a, f, rest := "  ", "File \"", "/path/to/my_module.py" + "\"" + ", line " + "123";
    var t := PythonWithLine;
    assert t == a + f + rest;
    assert t[2..8] == f;
    PythonWithLineIndent(PythonWithLine);
  }

  lemma PythonWithLinePath()
    ensures ClosingQuote(PythonWithLine, 8) == Some(29)
    ensures PythonWithLine[8..29] == "/path/to/my_module.py"
  {
    var a, path, rest := "  " + "File \"", "/path/to/my_module.py", "\"" + ", line " + "123";
    var t := PythonWithLine;
    assert t == a + path + rest;
    assert t[8..29] == path && t[29] == '"';
    RunEndOver(t, 8, path, InQuotedPath);
  }

  lemma PythonWithLineLine()
    ensures LineAfterComma(PythonWithLine, 30) == Some(Group(37, 40)) && PythonWithLine[37..40] == "123"
  {
    var a, comma, digits := "  " + "File \"" + "/path/to/my_module.py" + "\"", ", line ", "123";
    var t := PythonWithLine;
    assert t == a + comma + digits;
    assert t[30..37] == comma && t[37..40] == digits;
    RunEndOver(t, 37, digits, IsDigit);
  }

  /** A traceback frame with a line number. */
  lemma PythonWithLineExample()
    ensures PythonCaptures(PythonWithLine) == Some([Some(Group(0, 40)), Some(Group(8, 29)), Some(Group(37, 40))])
    ensures PythonWithLine[8..29] == "/path/to/my_module.py" && PythonWithLine[37..40] == "123"
  {
    PythonWithLineStart();
    PythonWithLinePath();
    PythonWithLineLine();
  }

  /** `  File "/another/path.py"`, written in its parts. */
  const PythonWithoutLine: string := "  " + "File \"" + "/another/path.py" + "\""

  lemma PythonWithoutLinePath()
    ensures PathStart(PythonWithoutLine) == Some(8) && ClosingQuote(PythonWithoutLine, 8) == Some(24)
    ensures PythonWithoutLine[8..24] == "/another/path.py" && |PythonWithoutLine| == 25
  {
    var a, f, path, q := "  ", "File \"", "/another/path.py", "\"";
    var t := PythonWithoutLine;
    assert t[2..8] == f && t[8..24] == path && t[24] == '"';
    RunEndIs(t, 0, 2, IsSpace);
    RunEndOver(t, 8, path, InQuotedPath);
  }

  /** A traceback frame without a line number: the match ends at the closing quote. */
  lemma PythonWithoutLineExample()
    ensures PythonCaptures(PythonWithoutLine) == Some([Some(Group(0, 25)), Some(Group(8, 24)), None])
    ensures PythonWithoutLine[8..24] == "/another/path.py"
  {
    PythonWithoutLinePath();
  }

  /** A newline before the closing quote: no match. */
  lemma PythonNewlineExample()
    ensures PythonCaptures("File \"a\nb\"") == None
  {
    var f, rest := "File \"", "a\nb\"";
    var t := f + rest;
    assert t == "File \"a\nb\"";
    assert t[0..6] == f && t[7] == '\n';
    RunEndIs(t, 0, 0, IsSpace);
    RunEndIs(t, 6, 7, InQuotedPath);
  }
}
