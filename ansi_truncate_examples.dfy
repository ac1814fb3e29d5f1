/**
 * The truncation tests of src/ansi/mod.rs restated over the model, and the
 * inputs that show the two departures of `truncate_str_impl` from its
 * documentation. Every string here is a single text span unless stated.
 */
module AnsiTruncateExamples {
  import opened Wrappers
  import opened Ansi
  import opened AnsiTruncate
  import opened AnsiExamples

  lemma CharWidth(c: char)
    ensures StrWidth(ExampleMetrics, [c]) == ExampleCharWidth(c)
  {
    assert [c][1..] == "";
  }

  /** The piece functions on a sequence with a given first piece. */
  lemma Cons(m: Metrics, p: Piece, ps: seq<Piece>)
    ensures Join([p] + ps) == p.text + Join(ps)
    ensures TextOf([p] + ps) == (if p.isAnsi then "" else p.text) + TextOf(ps)
    ensures PiecesWidth(m, [p] + ps) == (if p.isAnsi then 0 else StrWidth(m, p.text)) + PiecesWidth(m, ps)
  {
    assert ([p] + ps)[1..] == ps;
  }

  lemma OneDoubleFour()
    ensures ExampleMetrics.graphemes("1＃4") == ["1", "＃", "4"]
    ensures StrWidth(ExampleMetrics, "1＃4") == 4
  {
    var t := "1＃4";
    assert t[1..] == "＃4" && t[1..][1..] == "4" && t[1..][1..][1..] == "";
    assert StrWidth(ExampleMetrics, "4") == 1 && StrWidth(ExampleMetrics, "＃4") == 3;
  }

  /** A single text span covering the whole buffer. */
  lemma SingleSpan(t: string)
    requires t != ""
    ensures WellFormed([Text(0, |t|)], |t|) && InBounds([Text(0, |t|)], |t|)
    ensures AnsiStrings(t, [Text(0, |t|)]) == [Piece(t, false)]
    ensures TextOf([Piece(t, false)]) == t
    ensures PiecesWidth(ExampleMetrics, [Piece(t, false)]) == StrWidth(ExampleMetrics, t)
  {
    assert [Text(0, |t|)][..0] == [];
    assert t[0..|t|] == t;
    assert [Piece(t, false)][1..] == [];
  }

  /** `truncate_str("1＃4", 2, "") == "1 "`: the cut double-width grapheme leaves a space. */
  lemma TruncateAtDoubleWidthExample()
    ensures InBounds([Text(0, 3)], 3)
    ensures Join(TruncateImpl(ExampleMetrics, "1＃4", [Text(0, 3)], 2, "", [], Some(' '))) == "1 "
  {
    OneDoubleFour();
    SingleSpan("1＃4");
    CharWidth('1');
    CharWidth('＃');
    var gs := ["1", "＃", "4"];
    assert gs[1..] == ["＃", "4"];
    var g := WalkGraphemes(ExampleMetrics, gs, 2, 0, Some(' '));
    assert g.pieces == [Piece("1", false), Piece(" ", false)];
    var items := [Piece("1＃4", false)];
    assert items[1..] == [];
    assert Walk(ExampleMetrics, items, 2, 0, Some(' ')).pieces == g.pieces + [];
    assert [Piece("1", false), Piece(" ", false)][1..] == [Piece(" ", false)];
    assert Join([Piece("1", false), Piece(" ", false)]) == "1 ";
  }

  /** `truncate_str_short("1＃4", 2) == "1"`: without fill the cut grapheme is dropped. */
  lemma TruncateShortAtDoubleWidthExample()
    ensures InBounds([Text(0, 3)], 3)
    ensures Join(TruncateImpl(ExampleMetrics, "1＃4", [Text(0, 3)], 2, "", [], None)) == "1"
  {
    OneDoubleFour();
    SingleSpan("1＃4");
    CharWidth('1');
    CharWidth('＃');
    var gs := ["1", "＃", "4"];
    assert gs[1..] == ["＃", "4"];
    var g := WalkGraphemes(ExampleMetrics, gs, 2, 0, None);
    assert g.pieces == [Piece("1", false)];
    var items := [Piece("1＃4", false)];
    assert items[1..] == [];
    assert Walk(ExampleMetrics, items, 2, 0, None).pieces == g.pieces + [];
    assert Join([Piece("1", false)]) == "1";
  }

  /**
   * `truncate_str("1＃4", 1, "／") == " "`: the tail itself is truncated to a
   * fill, which uses the only column.
   */
  lemma TruncateToFilledTailExample()
    ensures InBounds([Text(0, 3)], 3) && InBounds([Text(0, 1)], 1)
    ensures Join(TruncateImpl(ExampleMetrics, "1＃4", [Text(0, 3)], 1, "／", [Text(0, 1)], Some(' '))) == " "
  {
    OneDoubleFour();
    SingleSpan("1＃4");
    SingleSpan("／");
    CharWidth('1');
    CharWidth('／');
    assert ExampleMetrics.graphemes("／") == ["／"];
    var tailWalk := WalkGraphemes(ExampleMetrics, ["／"], 1, 0, Some(' '));
    assert tailWalk.pieces == [Piece(" ", false)];
    assert Walk(ExampleMetrics, [Piece("／", false)], 1, 0, Some(' ')).pieces == tailWalk.pieces + [];
    var resultTail := TruncateImpl(ExampleMetrics, "／", [Text(0, 1)], 1, "", [], Some(' '));
    assert resultTail == [Piece(" ", false)];
    assert [Piece(" ", false)][1..] == [];
    CharWidth(' ');
    assert PiecesWidth(ExampleMetrics, resultTail) == 1;
    var g := WalkGraphemes(ExampleMetrics, ["1", "＃", "4"], 1, 1, Some(' '));
    assert g.pieces == [];
    assert Walk(ExampleMetrics, [Piece("1＃4", false)], 1, 1, Some(' ')).pieces == [] + [];
    assert [] + resultTail == resultTail;
  }

  /** `truncate_str("123", 2, "s") == "1s"`: the tail is kept and `s` gets the remaining column. */
  lemma TruncateWithTailExample()
    ensures InBounds([Text(0, 3)], 3) && InBounds([Text(0, 1)], 1)
    ensures Join(TruncateImpl(ExampleMetrics, "123", [Text(0, 3)], 2, "s", [Text(0, 1)], Some(' '))) == "1s"
  {
    var t := "123";
    assert t[1..] == "23" && t[1..][1..] == "3" && t[1..][1..][1..] == "";
    assert ExampleMetrics.graphemes(t) == ["1", "2", "3"];
    CharWidth('1');
    CharWidth('2');
    CharWidth('3');
    CharWidth('s');
    assert StrWidth(ExampleMetrics, t) == 3;
    SingleSpan(t);
    SingleSpan("s");
    var resultTail := TruncateImpl(ExampleMetrics, "s", [Text(0, 1)], 2, "", [], Some(' '));
    assert resultTail == [Piece("s", false)];
    assert PiecesWidth(ExampleMetrics, resultTail) == 1;
    var gs := ["1", "2", "3"];
    assert gs[1..] == ["2", "3"];
    var g := WalkGraphemes(ExampleMetrics, gs, 2, 1, Some(' '));
    assert g.pieces == [Piece("1", false)];
    assert Walk(ExampleMetrics, [Piece(t, false)], 2, 1, Some(' ')).pieces == g.pieces + [];
    Cons(ExampleMetrics, Piece("s", false), []);
    Cons(ExampleMetrics, Piece("1", false), [Piece("s", false)]);
  }

  // ---------------------------------------------------------------------
  // The two departures from the documentation

  /** `"1＃\x1b[0m4"`: a double-width character, a reset, and one more character. */
  const CutThenReset: string := "1＃\U{1B}[0m4"
  const CutThenResetElements: seq<Element> := [Text(0, 2), Sgr(DefaultStyle, 2, 6), Text(6, 7)]

  lemma CutThenResetFacts()
    ensures WellFormed(CutThenResetElements, |CutThenReset|)
    ensures InBounds(CutThenResetElements, |CutThenReset|)
    ensures AnsiStrings(CutThenReset, CutThenResetElements)
      == [Piece("1＃", false), Piece("\U{1B}[0m", true), Piece("4", false)]
    ensures StripAnsiCodes(CutThenReset, CutThenResetElements) == "1＃4"
    ensures !Fits(ExampleMetrics, CutThenReset, CutThenResetElements, 2)
    ensures ExampleMetrics.graphemes("1＃") == ["1", "＃"] && ExampleMetrics.graphemes("4") == ["4"]
  {
    var s := CutThenReset;
    var els := CutThenResetElements;
    assert |s| == 7;
    assert els[..2][..1] == els[..1] && els[..1][..0] == [];
    assert Tiles(els[..1], 0, 2);
    assert Tiles(els[..2], 0, 6);
    WellFormedInBounds(els, |s|);
    assert s[0..2] == "1＃" && s[6..7] == "4";
    assert s[2..6] == "\U{1B}[0m" by { assert s[2] == '\U{1B}' && s[3] == '[' && s[4] == '0' && s[5] == 'm'; }
    var ps := AnsiStrings(s, els);
    assert ps == [Piece("1＃", false), Piece("\U{1B}[0m", true), Piece("4", false)];
    Cons(ExampleMetrics, Piece("4", false), []);
    Cons(ExampleMetrics, Piece("\U{1B}[0m", true), [Piece("4", false)]);
    Cons(ExampleMetrics, Piece("1＃", false), [Piece("\U{1B}[0m", true), Piece("4", false)]);
    assert TextOf(ps) == "1＃" + "4";
    OneDoubleFour();
    assert "1＃"[1..] == "＃";
    assert ["1", "＃"][1..] == ["＃"];
  }

  /** Walking `"1＃"` in two columns from nothing used: the `1` fits, the `＃` is cut. */
  lemma CutThenResetFirstWalk(fill: Option<char>)
    ensures WalkGraphemes(ExampleMetrics, ["1", "＃"], 2, 0, fill)
      == Progress([Piece("1", false)] + FillPieces(2, 2, 1, fill), 1, true)
  {
    CharWidth('1');
    CharWidth('＃');
    assert ["1", "＃"][1..] == ["＃"];
    assert ["＃"][1..] == [];
  }

  /** The walk as written of `"1＃\x1b[0m4"` in two columns: the `4` after the reset is walked again. */
  lemma CutThenResetWalk(fill: Option<char>)
    ensures Walk(ExampleMetrics, [Piece("1＃", false), Piece("\U{1B}[0m", true), Piece("4", false)], 2, 0, fill).pieces
      == [Piece("1", false)] + FillPieces(2, 2, 1, fill) + [Piece("\U{1B}[0m", true), Piece("4", false)]
  {
    CutThenResetFacts();
    CutThenResetFirstWalk(fill);
    CharWidth('4');
    var items := [Piece("1＃", false), Piece("\U{1B}[0m", true), Piece("4", false)];
    assert items[1..] == [Piece("\U{1B}[0m", true), Piece("4", false)] && items[1..][1..] == [Piece("4", false)];
    assert items[1..][1..][1..] == [];
    assert ["4"][1..] == [];
    assert Walk(ExampleMetrics, items[1..][1..], 2, 1, fill).pieces == [Piece("4", false)];
    assert Walk(ExampleMetrics, items[1..], 2, 1, fill).pieces == [Piece("\U{1B}[0m", true), Piece("4", false)];
  }

  /**
   * As written, `truncate_str_short("1＃\x1b[0m4", 2)` is `"1\x1b[0m4"`: its
   * visible text `14` is not a prefix of `1＃4`, contrary to the documented promise.
   */
  lemma TruncateShortNotPrefixExample()
    ensures InBounds(CutThenResetElements, |CutThenReset|)
    ensures TextOf(TruncateImpl(ExampleMetrics, CutThenReset, CutThenResetElements, 2, "", [], None)) == "14"
    ensures !IsPrefix(TextOf(TruncateImpl(ExampleMetrics, CutThenReset, CutThenResetElements, 2, "", [], None)),
                      StripAnsiCodes(CutThenReset, CutThenResetElements))
  {
    CutThenResetFacts();
    CutThenResetWalk(None);
    var r := [Piece("1", false), Piece("\U{1B}[0m", true), Piece("4", false)];
    assert [Piece("1", false)] + [] + [Piece("\U{1B}[0m", true), Piece("4", false)] == r;
    assert r + [] == r;
    Cons(ExampleMetrics, Piece("4", false), []);
    Cons(ExampleMetrics, Piece("\U{1B}[0m", true), [Piece("4", false)]);
    Cons(ExampleMetrics, Piece("1", false), [Piece("\U{1B}[0m", true), Piece("4", false)]);
    assert TextOf(r) == "14";
    assert "1＃4"[..2] == "1＃";
  }

  /** The pieces `truncate_str("1＃\x1b[0m4", 2, "")` produces as written. */
  lemma TruncateFillTooWidePieces()
    ensures InBounds(CutThenResetElements, |CutThenReset|)
    ensures TruncateImpl(ExampleMetrics, CutThenReset, CutThenResetElements, 2, "", [], Some(' '))
         == [Piece("1", false), Piece(" ", false), Piece("\U{1B}[0m", true), Piece("4", false)]
  {
    CutThenResetFacts();
    CutThenResetWalk(Some(' '));
    CharWidth('4');
    CharWidth('1');
    assert FillPieces(2, 2, 1, Some(' ')) == [Piece(" ", false)];
    var r := [Piece("1", false), Piece(" ", false), Piece("\U{1B}[0m", true), Piece("4", false)];
    assert [Piece("1", false)] + [Piece(" ", false)] + [Piece("\U{1B}[0m", true), Piece("4", false)] == r;
    assert r + [] == r;
  }

  /**
   * As written, `truncate_str("1＃\x1b[0m4", 2, "")` is `"1 \x1b[0m4"`, three
   * columns wide although two were asked for.
   */
  lemma TruncateFillTooWideExample()
    ensures InBounds(CutThenResetElements, |CutThenReset|)
    ensures Join(TruncateImpl(ExampleMetrics, CutThenReset, CutThenResetElements, 2, "", [], Some(' '))) == "1 \U{1B}[0m4"
    ensures PiecesWidth(ExampleMetrics, TruncateImpl(ExampleMetrics, CutThenReset, CutThenResetElements, 2, "", [], Some(' '))) == 3
  {
    TruncateFillTooWidePieces();
    CharWidth('4');
    CharWidth(' ');
    CharWidth('1');
    Cons(ExampleMetrics, Piece("4", false), []);
    Cons(ExampleMetrics, Piece("\U{1B}[0m", true), [Piece("4", false)]);
    Cons(ExampleMetrics, Piece(" ", false), [Piece("\U{1B}[0m", true), Piece("4", false)]);
    Cons(ExampleMetrics, Piece("1", false), [Piece(" ", false), Piece("\U{1B}[0m", true), Piece("4", false)]);
  }

  /** Corrected, the same inputs without a fill give `"1\x1b[0m"`: a prefix of the input. */
  lemma TruncateFixedExample()
    ensures InBounds(CutThenResetElements, |CutThenReset|)
    ensures Join(TruncateImplFixed(ExampleMetrics, CutThenReset, CutThenResetElements, 2, "", [], None)) == "1\U{1B}[0m"
  {
    CutThenResetFacts();
    CutThenResetFirstWalk(None);
    var items := [Piece("1＃", false), Piece("\U{1B}[0m", true), Piece("4", false)];
    var rest := items[1..];
    assert rest == [Piece("\U{1B}[0m", true), Piece("4", false)] && rest[1..] == [Piece("4", false)] && rest[1..][1..] == [];
    assert EscapesOnly(rest) == [Piece("\U{1B}[0m", true)];
    var r1 := [Piece("1", false)] + [Piece("\U{1B}[0m", true)];
    assert WalkFixed(ExampleMetrics, items, 2, 0, None).pieces == r1;
    assert r1 + [] == r1;
    Cons(ExampleMetrics, Piece("\U{1B}[0m", true), []);
    Cons(ExampleMetrics, Piece("1", false), [Piece("\U{1B}[0m", true)]);
  }

  /** Corrected, the same inputs with a space fill give `"1 \x1b[0m"`: two columns. */
  lemma TruncateFixedFillExample()
    ensures InBounds(CutThenResetElements, |CutThenReset|)
    ensures Join(TruncateImplFixed(ExampleMetrics, CutThenReset, CutThenResetElements, 2, "", [], Some(' '))) == "1 \U{1B}[0m"
  {
    CutThenResetFacts();
    CutThenResetFirstWalk(Some(' '));
    var items := [Piece("1＃", false), Piece("\U{1B}[0m", true), Piece("4", false)];
    var rest := items[1..];
    assert rest == [Piece("\U{1B}[0m", true), Piece("4", false)] && rest[1..] == [Piece("4", false)] && rest[1..][1..] == [];
    assert EscapesOnly(rest) == [Piece("\U{1B}[0m", true)];
    assert FillPieces(2, 2, 1, Some(' ')) == [Piece(" ", false)];
    var r2 := [Piece("1", false), Piece(" ", false)] + [Piece("\U{1B}[0m", true)];
    assert WalkFixed(ExampleMetrics, items, 2, 0, Some(' ')).pieces == r2;
    assert r2 + [] == r2;
    Cons(ExampleMetrics, Piece("\U{1B}[0m", true), []);
    Cons(ExampleMetrics, Piece(" ", false), [Piece("\U{1B}[0m", true)]);
    assert r2 == [Piece("1", false)] + [Piece(" ", false), Piece("\U{1B}[0m", true)];
    Cons(ExampleMetrics, Piece("1", false), [Piece(" ", false), Piece("\U{1B}[0m", true)]);
  }
}
