/**
 * The unit tests of src/ansi/mod.rs, restated over the model. The token
 * sequences are those the tokenizer produces for the test strings; the
 * width metric gives the full-width characters used in the tests width 2,
 * a newline width 0, and segments every string into single characters.
 */
module AnsiExamples {
  import opened Wrappers
  import opened Ansi

  function ExampleCharWidth(c: char): nat
  {
    if c == '\n' then 0 else if c == '＃' || c == '／' || c == 'バ' || c == 'ー' then 2 else 1
  }

  function Singletons(t: string): (r: seq<string>)
    ensures |r| == |t| && forall i :: 0 <= i < |t| ==> r[i] == [t[i]]
  {
    seq(|t|, i requires 0 <= i < |t| => [t[i]])
  }

  const ExampleMetrics: Metrics := Metrics(ExampleCharWidth, Singletons)

  lemma {:induction false} SingletonsConcat(t: string)
    ensures Concat(Singletons(t)) == t
  {
    if t != "" {
      SingletonsConcat(t[1..]);
      assert Singletons(t)[1..] == Singletons(t[1..]);
    }
  }

  lemma ExampleMetricsValid()
    ensures ValidMetrics(ExampleMetrics)
  {
    forall t: string ensures Concat(ExampleMetrics.graphemes(t)) == t {
      SingletonsConcat(t);
    }
  }

  const RedStyle: Style := DefaultStyle.(foreground := Some(Red))
  const MagentaBoldStyle: Style := DefaultStyle.(foreground := Some(Purple), isBold := true)
  const CyanBoldStyle: Style := DefaultStyle.(foreground := Some(Cyan), isBold := true)

  lemma WidthOfBarExample()
    ensures StrWidth(ExampleMetrics, "バー") == 4
  {
    assert "バー"[1..] == "ー" && "ー"[1..] == "";
    assert StrWidth(ExampleMetrics, "ー") == 2;
  }

  /** The text and the width of three pieces whose middle one is the only text piece. */
  lemma ThreePieces(m: Metrics, a: Piece, b: Piece, c: Piece)
    requires a.isAnsi && !b.isAnsi && c.isAnsi
    ensures TextOf([a, b, c]) == b.text
    ensures Join([a, b, c]) == a.text + b.text + c.text
    ensures PiecesWidth(m, [a, b, c]) == StrWidth(m, b.text)
  {
    var ps := [a, b, c];
    assert ps[1..] == [b, c] && ps[1..][1..] == [c] && ps[1..][1..][1..] == [];
    assert TextOf([c]) == "" && Join([c]) == c.text && PiecesWidth(m, [c]) == 0;
    assert TextOf([b, c]) == b.text && Join([b, c]) == b.text + c.text;
    assert PiecesWidth(m, [b, c]) == StrWidth(m, b.text);
  }

  /** `strip_ansi_codes("\x1b[31mバー\x1b[0m") == "バー"`, and the width of that string is 4. */
  lemma StripColouredExample()
    ensures var s := "\U{1B}[31mバー\U{1B}[0m";
      var els := [Sgr(RedStyle, 0, 5), Text(5, 7), Sgr(DefaultStyle, 7, 11)];
      && WellFormed(els, |s|)
      && StripAnsiCodes(s, els) == "バー"
      && MeasureTextWidth(ExampleMetrics, s, els) == 4
  {
    var s := "\U{1B}[31mバー\U{1B}[0m";
    var els := [Sgr(RedStyle, 0, 5), Text(5, 7), Sgr(DefaultStyle, 7, 11)];
    assert |s| == 11;
    assert els[..2][..1] == els[..1] && els[..1][..0] == [];
    assert Tiles(els[..1], 0, 5);
    assert Tiles(els[..2], 0, 7);
    assert WellFormed(els, |s|);
    var ps := AnsiStrings(s, els);
    assert s[5..7] == "バー";
    assert ps == [Piece(s[0..5], true), Piece("バー", false), Piece(s[7..11], true)];
    ThreePieces(ExampleMetrics, Piece(s[0..5], true), Piece("バー", false), Piece(s[7..11], true));
    WidthOfBarExample();
  }

  /** `measure_text_width("a\nb\n") == 2`. */
  lemma MeasureNewlinesExample()
    ensures MeasureTextWidth(ExampleMetrics, "a\nb\n", [Text(0, 4)]) == 2
  {
    var t := "a\nb\n";
    var ps := AnsiStrings(t, [Text(0, 4)]);
    assert t[0..4] == t;
    assert ps == [Piece(t, false)];
    assert ps[1..] == [];
    assert t[1..] == "\nb\n" && t[1..][1..] == "b\n" && t[1..][1..][1..] == "\n" && t[1..][1..][1..][1..] == "";
    assert StrWidth(ExampleMetrics, "\n") == 0;
    assert StrWidth(ExampleMetrics, "b\n") == 1;
    assert StrWidth(ExampleMetrics, "\nb\n") == 1;
    assert StrWidth(ExampleMetrics, t) == 2;
    assert PiecesWidth(ExampleMetrics, ps) == 2;
  }

  const CyanBoldSgr: string := "\U{1B}[1;36m"
  const BareReset: string := "\U{1B}[m"

  /** `"\x1b[1;36m0\x1b[m\x1b[1;36m123456789\x1b[m\n"`, written in its tokens. */
  const TwoRuns: string := CyanBoldSgr + "0" + BareReset + CyanBoldSgr + "123456789" + BareReset + "\n"
  const TwoRunsElements: seq<Element> :=
    [Sgr(CyanBoldStyle, 0, 7), Text(7, 8), Sgr(DefaultStyle, 8, 11), Sgr(CyanBoldStyle, 11, 18),
     Text(18, 27), Sgr(DefaultStyle, 27, 30), Text(30, 31)]

  /** The text positions, prefix by prefix, of any seven elements laid out like the two-run string's. */
  lemma TwoRunsLayoutPositions(els: seq<Element>)
    requires |els| == 7 && SpansOrdered(els)
    requires !els[0].Text? && els[1] == Text(7, 8) && !els[2].Text? && !els[3].Text?
    requires els[4] == Text(18, 27) && !els[5].Text? && els[6] == Text(30, 31)
    ensures |TextPositions(els[..1])| == 0 && |TextPositions(els[..2])| == 1
    ensures |TextPositions(els[..3])| == 1 && |TextPositions(els[..4])| == 1
    ensures |TextPositions(els[..5])| == 10 && |TextPositions(els[..6])| == 10
    ensures TextPositions(els) == [7] + Range(18, 27) + [30]
  {
    assert els[..0] == [];
    TextPositionsStep(els, 0);
    TextPositionsStep(els, 1);
    assert Range(7, 8) == [7];
    TextPositionsStep(els, 2);
    TextPositionsStep(els, 3);
    TextPositionsStep(els, 4);
    TextPositionsStep(els, 5);
    TextPositionsStep(els, 6);
    assert Range(30, 31) == [30];
    assert els[..7] == els;
  }

  /** The raw offsets of the stripped text of the two-run string, prefix by prefix. */
  lemma TwoRunsPositions()
    ensures InBounds(TwoRunsElements, |TwoRuns|)
    ensures |TextPositions(TwoRunsElements[..1])| == 0
    ensures |TextPositions(TwoRunsElements[..2])| == 1
    ensures |TextPositions(TwoRunsElements[..3])| == 1
    ensures |TextPositions(TwoRunsElements[..4])| == 1
    ensures |TextPositions(TwoRunsElements[..5])| == 10
    ensures |TextPositions(TwoRunsElements[..6])| == 10
    ensures TextPositions(TwoRunsElements) == [7] + Range(18, 27) + [30]
  {
    assert |TwoRuns| == 31;
    TwoRunsLayoutPositions(TwoRunsElements);
  }

  /** `ansi_preserving_index` on the two-run string gives 7, 18 and 24 for 0, 1 and 7. */
  lemma PreservingIndexExample()
    ensures InBounds(TwoRunsElements, |TwoRuns|)
    ensures |TextPositions(TwoRunsElements)| == 11
    ensures TextPositions(TwoRunsElements)[0] == 7
    ensures TextPositions(TwoRunsElements)[1] == 18
    ensures TextPositions(TwoRunsElements)[7] == 24
  {
    TwoRunsPositions();
  }

  /** The slice pieces of the two-run string from offset 1. */
  lemma TwoRunsSliceParts()
    ensures InBounds(TwoRunsElements, |TwoRuns|)
    ensures SliceParts(TwoRuns, TwoRunsElements, 1)
      == [Piece(TwoRuns[0..7], true), Piece("", false), Piece(TwoRuns[8..11], true), Piece(TwoRuns[11..18], true),
          Piece(TwoRuns[18..27], false), Piece(TwoRuns[27..30], true), Piece(TwoRuns[30..31], false)]
  {
    var s := TwoRuns;
    var els := TwoRunsElements;
    TwoRunsPositions();
    assert els[..1][..0] == [];
    SlicePartsStep(s, els, 0, 1);
    SlicePartsStep(s, els, 1, 1);
    SlicePartsStep(s, els, 2, 1);
    SlicePartsStep(s, els, 3, 1);
    SlicePartsStep(s, els, 4, 1);
    SlicePartsStep(s, els, 5, 1);
    SlicePartsStep(s, els, 6, 1);
    assert els[..7] == els;
  }

  /** `ansi_preserving_slice` keeps both SGR sequences of the dropped first run. */
  lemma PreservingSliceTwoRunsExample()
    ensures InBounds(TwoRunsElements, |TwoRuns|)
    ensures AnsiPreservingSlice(TwoRuns, TwoRunsElements, 1)
      == CyanBoldSgr + "" + BareReset + CyanBoldSgr + "123456789" + BareReset + "\n"
  {
    var s := TwoRuns;
    TwoRunsSliceParts();
    TwoRunsTokens();
    SevenPiecesJoin(Piece(s[0..7], true), Piece("", false), Piece(s[8..11], true), Piece(s[11..18], true),
                    Piece(s[18..27], false), Piece(s[27..30], true), Piece(s[30..31], false));
  }

  /** The tokens of the two-run string, at their offsets. */
  lemma TwoRunsTokens()
    ensures |TwoRuns| == 31
    ensures TwoRuns[0..7] == CyanBoldSgr && TwoRuns[8..11] == BareReset && TwoRuns[11..18] == CyanBoldSgr
    ensures TwoRuns[18..27] == "123456789" && TwoRuns[27..30] == BareReset && TwoRuns[30..31] == "\n"
  {
    var p1 := CyanBoldSgr;
    var p2 := p1 + "0";
    var p3 := p2 + BareReset;
    var p4 := p3 + CyanBoldSgr;
    var p5 := p4 + "123456789";
    var p6 := p5 + BareReset;
    var s := p6 + "\n";
    assert s == TwoRuns;
    assert s[..30] == p6 && p6[..27] == p5 && p5[..18] == p4 && p4[..11] == p3 && p3[..8] == p2 && p2[..7] == p1;
    assert s[30..31] == "\n" && p6[27..30] == BareReset && p5[18..27] == "123456789";
    assert p4[11..18] == CyanBoldSgr && p3[8..11] == BareReset;
  }

  lemma SevenPiecesJoin(a: Piece, b: Piece, c: Piece, d: Piece, e: Piece, f: Piece, g: Piece)
    ensures Join([a, b, c, d, e, f, g]) == a.text + b.text + c.text + d.text + e.text + f.text + g.text
  {
    var ps := [a, b, c, d, e, f, g];
    assert Join(ps[6..]) == g.text by { assert ps[6..][1..] == []; }
    assert Join(ps[5..]) == f.text + Join(ps[6..]) by { assert ps[5..][1..] == ps[6..]; }
    assert Join(ps[4..]) == e.text + Join(ps[5..]) by { assert ps[4..][1..] == ps[5..]; }
    assert Join(ps[3..]) == d.text + Join(ps[4..]) by { assert ps[3..][1..] == ps[4..]; }
    assert Join(ps[2..]) == c.text + Join(ps[3..]) by { assert ps[2..][1..] == ps[3..]; }
    assert Join(ps[1..]) == b.text + Join(ps[2..]) by { assert ps[1..][1..] == ps[2..]; }
    assert Join(ps) == a.text + Join(ps[1..]);
  }

  const MagentaBoldSgr: string := "\U{1B}[1;35m"
  const ResetSgr: string := "\U{1B}[0m"

  /** `"\x1b[1;35m0123456789\x1b[0m"`, written in its tokens. */
  const OneRun: string := MagentaBoldSgr + "0123456789" + ResetSgr

  /** The tokens of the one-run string, at their offsets. */
  lemma OneRunTokens()
    ensures |OneRun| == 21
    ensures OneRun[0..7] == MagentaBoldSgr && OneRun[7..17] == "0123456789" && OneRun[17..21] == ResetSgr
  {
    var p := MagentaBoldSgr + "0123456789";
    assert OneRun[..17] == p && p[..7] == MagentaBoldSgr && p[7..17] == "0123456789";
  }
  const OneRunElements: seq<Element> := [Sgr(MagentaBoldStyle, 0, 7), Text(7, 17), Sgr(DefaultStyle, 17, 21)]

  /** The slice pieces of the one-run string from a given offset within its text. */
  lemma OneRunSliceParts(start: nat)
    requires 0 < start < 10
    ensures InBounds(OneRunElements, |OneRun|)
    ensures TextPositions(OneRunElements) == Range(7, 17)
    ensures SliceParts(OneRun, OneRunElements, start)
      == [Piece(OneRun[0..7], true), Piece(OneRun[7 + start..17], false), Piece(OneRun[17..21], true)]
  {
    var s := OneRun;
    var els := OneRunElements;
    OneRunTokens();
    assert els[..1][..0] == [];
    TextPositionsStep(els, 1);
    TextPositionsStep(els, 2);
    SlicePartsStep(s, els, 0, start);
    SlicePartsStep(s, els, 1, start);
    SlicePartsStep(s, els, 2, start);
    assert els[..3] == els;
  }

  /** `ansi_preserving_slice` from 1 on a single run keeps both escapes. */
  lemma PreservingSliceOneRunFromOneExample()
    ensures InBounds(OneRunElements, |OneRun|)
    ensures AnsiPreservingSlice(OneRun, OneRunElements, 1) == MagentaBoldSgr + "123456789" + ResetSgr
  {
    var s := OneRun;
    OneRunSliceParts(1);
    OneRunTokens();
    var digits := "0123456789";
    assert s[8..17] == digits[1..] by { assert s[8..17] == s[7..17][1..]; }
    assert digits[1..] == "123456789";
    ThreePieces(ExampleMetrics, Piece(s[0..7], true), Piece(s[8..17], false), Piece(s[17..21], true));
  }

  /** `ansi_preserving_slice` from 7 on a single run. */
  lemma PreservingSliceOneRunFromSevenExample()
    ensures InBounds(OneRunElements, |OneRun|)
    ensures AnsiPreservingSlice(OneRun, OneRunElements, 7) == MagentaBoldSgr + "789" + ResetSgr
  {
    var s := OneRun;
    OneRunSliceParts(7);
    OneRunTokens();
    var digits := "0123456789";
    assert s[14..17] == digits[7..] by { assert s[14..17] == s[7..17][7..]; }
    assert digits[7..] == "789";
    ThreePieces(ExampleMetrics, Piece(s[0..7], true), Piece(s[14..17], false), Piece(s[17..21], true));
  }

  /** The empty buffer: the slice is empty and no index exists. */
  lemma EmptyBufferExample()
    ensures WellFormed([], 0)
    ensures AnsiPreservingSlice("", [], 0) == ""
    ensures TextPositions([]) == []
  {
  }

  /** `parse_first_style` on a red line from git, and `string_starts_with_ansi_style_sequence`. */
  lemma FirstStyleExample()
    ensures FirstStyle([Sgr(RedStyle, 0, 5), Text(5, 10), Sgr(DefaultStyle, 10, 13), Text(13, 14)]) == Some(RedStyle)
    ensures StartsWithStyle([Sgr(RedStyle, 0, 5), Text(5, 10), Sgr(DefaultStyle, 10, 13), Text(13, 14)])
    ensures !StartsWithStyle([]) && !StartsWithStyle([Text(0, 1)])
  {
  }
}
