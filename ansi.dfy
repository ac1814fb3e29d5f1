/**
 * The ANSI-aware text layer (src/ansi/mod.rs): stripping escape sequences,
 * measuring display width, mapping stripped-text offsets to raw offsets,
 * slicing while keeping escapes, and pairing text with its SGR style.
 *
 * A buffer is a `string`; one position stands for one byte offset of the
 * source's `&str`. The tokenizer is not part of this model: its output, a
 * sequence of `Element`s, is an argument of every operation, and
 * `WellFormed` states what the tokenizer guarantees about it.
 */
module Ansi {
  import opened Wrappers

  type Byte = x: nat | x < 256

  /** The colours of the ansi_term crate. */
  datatype Colour =
    | Black | Red | Green | Yellow | Blue | Purple | Cyan | White
    | Fixed(index: Byte)
    | RGB(r: Byte, g: Byte, b: Byte)

  /** The rendition state of an ansi_term `Style`, as the tokenizer decodes it from SGR parameters. */
  datatype Style = Style(
    foreground: Option<Colour>, background: Option<Colour>,
    isBold: bool, isDimmed: bool, isItalic: bool, isUnderline: bool,
    isBlink: bool, isReverse: bool, isHidden: bool, isStrikethrough: bool)

  const DefaultStyle: Style := Style(None, None, false, false, false, false, false, false, false, false)

  /** One span of the tokenizer's output; `start` and `end` are offsets into the buffer. */
  datatype Element =
    | Text(start: nat, end: nat)
    | Sgr(style: Style, start: nat, end: nat)
    | Csi(start: nat, end: nat)
    | Esc(start: nat, end: nat)
    | Osc(start: nat, end: nat)
  {
    predicate IsAnsi() { !Text? }
  }

  /** `els` tiles `[from, to)` with nonempty, contiguous, ascending spans (stated from the last span). */
  predicate Tiles(els: seq<Element>, from: nat, to: nat)
    decreases |els|
  {
    if els == [] then from == to
    else
      var e := els[|els| - 1];
      e.start < e.end && e.end == to && Tiles(els[..|els| - 1], from, e.start)
  }

  /** What the tokenizer guarantees about its output for a buffer of length `n`. */
  predicate WellFormed(els: seq<Element>, n: nat)
  {
    Tiles(els, 0, n)
  }

  /** The weaker fact that every span lies inside a buffer of length `n`. */
  predicate InBounds(els: seq<Element>, n: nat)
  {
    forall i :: 0 <= i < |els| ==> els[i].start <= els[i].end <= n
  }

  lemma {:induction false} TilesOrdered(els: seq<Element>, from: nat, to: nat)
    requires Tiles(els, from, to)
    ensures from <= to
    ensures forall i :: 0 <= i < |els| ==> from <= els[i].start < els[i].end <= to
    ensures forall i, j :: 0 <= i < j < |els| ==> els[i].end <= els[j].start
    decreases |els|
  {
    if els != [] {
      var init := els[..|els| - 1];
      TilesOrdered(init, from, els[|els| - 1].start);
      assert forall i :: 0 <= i < |init| ==> els[i] == init[i];
    }
  }

  lemma WellFormedInBounds(els: seq<Element>, n: nat)
    requires WellFormed(els, n)
    ensures InBounds(els, n)
  {
    TilesOrdered(els, 0, n);
  }

  // ---------------------------------------------------------------------
  // Pieces: the (slice, is-escape) pairs of `ansi_strings_iterator`

  datatype Piece = Piece(text: string, isAnsi: bool)

  /** `ansi_strings_iterator`: every element as its slice of `s`, flagged when it is an escape. */
  function AnsiStrings(s: string, els: seq<Element>): (ps: seq<Piece>)
    requires InBounds(els, |s|)
    ensures |ps| == |els|
  {
    seq(|els|, i requires 0 <= i < |els| => Piece(s[els[i].start..els[i].end], els[i].IsAnsi()))
  }

  /** The concatenation of every piece, escapes included. */
  function Join(ps: seq<Piece>): string
  {
    if ps == [] then "" else ps[0].text + Join(ps[1..])
  }

  /** `strip_ansi_codes_from_strings_iterator`: the concatenation of the text pieces only. */
  function TextOf(ps: seq<Piece>): string
  {
    if ps == [] then "" else (if ps[0].isAnsi then "" else ps[0].text) + TextOf(ps[1..])
  }

  /** The escape pieces, in order. */
  function Escapes(ps: seq<Piece>): seq<string>
  {
    if ps == [] then [] else (if ps[0].isAnsi then [ps[0].text] else []) + Escapes(ps[1..])
  }

  function Concat(ss: seq<string>): string
  {
    if ss == [] then "" else ss[0] + Concat(ss[1..])
  }

  /**
   * Unicode width and grapheme segmentation, which the model takes as
   * parameters: the column width of each character, and a segmentation
   * of a string into grapheme clusters.
   */
  datatype Metrics = Metrics(charWidth: char -> nat, graphemes: string -> seq<string>)

  /** A segmentation must give back the string it segments. */
  ghost predicate ValidMetrics(m: Metrics)
  {
    forall t :: Concat(m.graphemes(t)) == t
  }

  /** `UnicodeWidthStr::width`: the sum of the widths of the characters. */
  function StrWidth(m: Metrics, t: string): nat
  {
    if t == "" then 0 else m.charWidth(t[0]) + StrWidth(m, t[1..])
  }

  /** The width that `measure_text_width` folds over pieces: text pieces only. */
  function PiecesWidth(m: Metrics, ps: seq<Piece>): nat
  {
    if ps == [] then 0 else (if ps[0].isAnsi then 0 else StrWidth(m, ps[0].text)) + PiecesWidth(m, ps[1..])
  }

  lemma JoinAppend(a: seq<Piece>, b: seq<Piece>)
    ensures Join(a + b) == Join(a) + Join(b)
    ensures TextOf(a + b) == TextOf(a) + TextOf(b)
    ensures Escapes(a + b) == Escapes(a) + Escapes(b)
  {
    JoinOnlyAppend(a, b);
    TextOfAppend(a, b);
    EscapesAppend(a, b);
  }

  lemma {:induction false} JoinOnlyAppend(a: seq<Piece>, b: seq<Piece>)
    ensures Join(a + b) == Join(a) + Join(b)
  {
    if a != [] {
      JoinOnlyAppend(a[1..], b);
      assert (a + b)[1..] == a[1..] + b;
    } else {
      assert a + b == b;
    }
  }

  lemma {:induction false} TextOfAppend(a: seq<Piece>, b: seq<Piece>)
    ensures TextOf(a + b) == TextOf(a) + TextOf(b)
  {
    if a != [] {
      TextOfAppend(a[1..], b);
      assert (a + b)[1..] == a[1..] + b;
    } else {
      assert a + b == b;
    }
  }

  lemma {:induction false} EscapesAppend(a: seq<Piece>, b: seq<Piece>)
    ensures Escapes(a + b) == Escapes(a) + Escapes(b)
  {
    if a != [] {
      EscapesAppend(a[1..], b);
      assert (a + b)[1..] == a[1..] + b;
    } else {
      assert a + b == b;
    }
  }

  lemma {:induction false} PiecesWidthAppend(m: Metrics, a: seq<Piece>, b: seq<Piece>)
    ensures PiecesWidth(m, a + b) == PiecesWidth(m, a) + PiecesWidth(m, b)
  {
    if a != [] {
      PiecesWidthAppend(m, a[1..], b);
      assert (a + b)[1..] == a[1..] + b;
    } else {
      assert a + b == b;
    }
  }

  lemma {:induction false} StrWidthAppend(m: Metrics, a: string, b: string)
    ensures StrWidth(m, a + b) == StrWidth(m, a) + StrWidth(m, b)
  {
    if a != "" {
      StrWidthAppend(m, a[1..], b);
      assert (a + b)[1..] == a[1..] + b;
    } else {
      assert a + b == b;
    }
  }

  lemma {:induction false} ConcatAppend(a: seq<string>, b: seq<string>)
    ensures Concat(a + b) == Concat(a) + Concat(b)
  {
    if a != [] {
      ConcatAppend(a[1..], b);
      assert (a + b)[1..] == a[1..] + b;
    } else {
      assert a + b == b;
    }
  }

  /** Dropping the last element drops the last piece. */
  lemma AnsiStringsSnoc(s: string, els: seq<Element>)
    requires InBounds(els, |s|) && els != []
    ensures InBounds(els[..|els| - 1], |s|)
    ensures AnsiStrings(s, els) == AnsiStrings(s, els[..|els| - 1]) + [AnsiStrings(s, els)[|els| - 1]]
  {
    var init := els[..|els| - 1];
    assert forall i :: 0 <= i < |init| ==> init[i] == els[i];
  }

  lemma TilesInBounds(els: seq<Element>, from: nat, to: nat, n: nat)
    requires Tiles(els, from, to) && to <= n
    ensures from <= to && InBounds(els, n)
  {
    TilesOrdered(els, from, to);
  }

  /** Concatenating the slices of a tiling of `[from, to)` gives back `s[from..to]`. */
  lemma {:induction false} JoinTiles(s: string, els: seq<Element>, from: nat, to: nat)
    requires Tiles(els, from, to) && to <= |s|
    ensures from <= to && InBounds(els, |s|)
    ensures Join(AnsiStrings(s, els)) == s[from..to]
    decreases |els|
  {
    TilesInBounds(els, from, to, |s|);
    if els != [] {
      var init := els[..|els| - 1];
      var e := els[|els| - 1];
      TilesInBounds(init, from, e.start, |s|);
      JoinTiles(s, init, from, e.start);
      AnsiStringsSnoc(s, els);
      JoinAppend(AnsiStrings(s, init), [AnsiStrings(s, els)[|els| - 1]]);
      assert s[from..e.start] + s[e.start..to] == s[from..to];
    }
  }

  /** The partition invariant: the pieces of a well-formed tokenization concatenate back to `s`. */
  lemma JoinAnsiStrings(s: string, els: seq<Element>)
    requires WellFormed(els, |s|)
    ensures InBounds(els, |s|)
    ensures Join(AnsiStrings(s, els)) == s
  {
    JoinTiles(s, els, 0, |s|);
  }

  // ---------------------------------------------------------------------
  // strip_ansi_codes and measure_text_width

  /** `strip_ansi_codes`: the in-order concatenation of the text spans. */
  function StripAnsiCodes(s: string, els: seq<Element>): string
    requires InBounds(els, |s|)
  {
    TextOf(AnsiStrings(s, els))
  }

  /** `measure_text_width`: the sum of the widths of the text spans; escapes count 0. */
  function MeasureTextWidth(m: Metrics, s: string, els: seq<Element>): nat
    requires InBounds(els, |s|)
  {
    PiecesWidth(m, AnsiStrings(s, els))
  }

  lemma StripSnoc(s: string, els: seq<Element>)
    requires InBounds(els, |s|) && els != []
    ensures InBounds(els[..|els| - 1], |s|)
    ensures var e := els[|els| - 1];
      StripAnsiCodes(s, els) == StripAnsiCodes(s, els[..|els| - 1]) + (if e.Text? then s[e.start..e.end] else "")
  {
    AnsiStringsSnoc(s, els);
    JoinAppend(AnsiStrings(s, els[..|els| - 1]), [AnsiStrings(s, els)[|els| - 1]]);
  }

  lemma {:induction false} TextOfShorter(ps: seq<Piece>)
    ensures |TextOf(ps)| <= |Join(ps)|
  {
    if ps != [] {
      TextOfShorter(ps[1..]);
    }
  }

  lemma {:induction false} TextOfPlain(ps: seq<Piece>)
    requires forall i :: 0 <= i < |ps| ==> !ps[i].isAnsi
    ensures TextOf(ps) == Join(ps)
  {
    if ps != [] {
      TextOfPlain(ps[1..]);
    }
  }

  /** Stripping never adds characters. */
  lemma StripShorter(s: string, els: seq<Element>)
    requires WellFormed(els, |s|)
    ensures InBounds(els, |s|)
    ensures |StripAnsiCodes(s, els)| <= |s|
  {
    JoinAnsiStrings(s, els);
    TextOfShorter(AnsiStrings(s, els));
  }

  /** On a buffer without escape sequences, stripping is the identity. */
  lemma StripPlain(s: string, els: seq<Element>)
    requires WellFormed(els, |s|)
    requires forall i :: 0 <= i < |els| ==> els[i].Text?
    ensures InBounds(els, |s|)
    ensures StripAnsiCodes(s, els) == s
  {
    JoinAnsiStrings(s, els);
    TextOfPlain(AnsiStrings(s, els));
  }

  lemma {:induction false} PiecesWidthOfText(m: Metrics, ps: seq<Piece>)
    ensures PiecesWidth(m, ps) == StrWidth(m, TextOf(ps))
  {
    if ps != [] {
      PiecesWidthOfText(m, ps[1..]);
      StrWidthAppend(m, if ps[0].isAnsi then "" else ps[0].text, TextOf(ps[1..]));
    }
  }

  /**
   * The per-span width that `measure_text_width` sums is the width of the
   * stripped string, which is what `truncate_str_impl` compares first.
   */
  lemma MeasureIsStrippedWidth(m: Metrics, s: string, els: seq<Element>)
    requires InBounds(els, |s|)
    ensures MeasureTextWidth(m, s, els) == StrWidth(m, StripAnsiCodes(s, els))
  {
    PiecesWidthOfText(m, AnsiStrings(s, els));
  }

  function ShiftElement(e: Element, d: nat): (r: Element)
    ensures r.start == e.start + d && r.end == e.end + d && r.IsAnsi() == e.IsAnsi()
  {
    match e
    case Text(a, b) => Text(a + d, b + d)
    case Sgr(st, a, b) => Sgr(st, a + d, b + d)
    case Csi(a, b) => Csi(a + d, b + d)
    case Esc(a, b) => Esc(a + d, b + d)
    case Osc(a, b) => Osc(a + d, b + d)
  }

  /** A span of the wrapped buffer, shifted past the opening sequence, is the span of the buffer. */
  lemma WrappedSlice(open: string, s: string, close: string, a: nat, b: nat)
    requires a <= b <= |s|
    ensures (open + s + close)[a + |open|..b + |open|] == s[a..b]
  {
    var w := open + s + close;
    assert w[|open|..|open| + |s|] == s;
    assert w[a + |open|..b + |open|] == w[|open|..|open| + |s|][a..b];
  }

  /** The pieces of a buffer wrapped in two OSC sequences: the opening one, the buffer's own, the closing one. */
  lemma WrappedPieces(s: string, els: seq<Element>, open: string, close: string)
    requires InBounds(els, |s|)
    ensures var w := open + s + close;
      var wEls := [Osc(0, |open|)] + seq(|els|, i requires 0 <= i < |els| => ShiftElement(els[i], |open|))
        + [Osc(|open| + |s|, |w|)];
      && InBounds(wEls, |w|)
      && AnsiStrings(w, wEls) == [Piece(open, true)] + AnsiStrings(s, els) + [Piece(close, true)]
  {
    var w := open + s + close;
    var shifted := seq(|els|, i requires 0 <= i < |els| => ShiftElement(els[i], |open|));
    var wEls := [Osc(0, |open|)] + shifted + [Osc(|open| + |s|, |w|)];
    assert InBounds(wEls, |w|);
    var mid := AnsiStrings(s, els);
    var ws := AnsiStrings(w, wEls);
    assert ws[0] == Piece(open, true) by { assert w[0..|open|] == open; }
    assert ws[|els| + 1] == Piece(close, true) by { assert w[|open| + |s|..|w|] == close; }
    forall i | 0 <= i < |els|
      ensures ws[i + 1] == mid[i]
    {
      assert wEls[i + 1] == shifted[i];
      WrappedSlice(open, s, close, els[i].start, els[i].end);
    }
    assert ws == [Piece(open, true)] + mid + [Piece(close, true)];
  }

  /**
   * Wrapping a buffer in two OSC sequences (an OSC 8 hyperlink open and
   * close, say) leaves its stripped text and its width unchanged.
   */
  lemma OscWrapInvisible(m: Metrics, s: string, els: seq<Element>, open: string, close: string)
    requires InBounds(els, |s|)
    ensures var w := open + s + close;
      var wEls := [Osc(0, |open|)] + seq(|els|, i requires 0 <= i < |els| => ShiftElement(els[i], |open|))
        + [Osc(|open| + |s|, |w|)];
      && InBounds(wEls, |w|)
      && AnsiStrings(w, wEls) == [Piece(open, true)] + AnsiStrings(s, els) + [Piece(close, true)]
      && StripAnsiCodes(w, wEls) == StripAnsiCodes(s, els)
      && MeasureTextWidth(m, w, wEls) == MeasureTextWidth(m, s, els)
  {
    WrappedPieces(s, els, open, close);
    var mid := AnsiStrings(s, els);
    TextOfAppend([Piece(open, true)], mid);
    TextOfAppend([Piece(open, true)] + mid, [Piece(close, true)]);
    PiecesWidthAppend(m, [Piece(open, true)], mid);
    PiecesWidthAppend(m, [Piece(open, true)] + mid, [Piece(close, true)]);
  }

  // ---------------------------------------------------------------------
  // ansi_preserving_index

  predicate SpansOrdered(els: seq<Element>)
  {
    forall i :: 0 <= i < |els| ==> els[i].start <= els[i].end
  }

  function Range(a: nat, b: nat): (r: seq<nat>)
    requires a <= b
    ensures |r| == b - a
    ensures forall k :: 0 <= k < |r| ==> r[k] == a + k
  {
    seq(b - a, k requires 0 <= k < b - a => a + k)
  }

  /** The raw offset of every character of the stripped text, in order: the reference for index mapping. */
  function TextPositions(els: seq<Element>): seq<nat>
    requires SpansOrdered(els)
  {
    if els == [] then []
    else
      var e := els[|els| - 1];
      TextPositions(els[..|els| - 1]) + (if e.Text? then Range(e.start, e.end) else [])
  }

  /** One more element extends the raw offsets by its own, when it is text. */
  lemma TextPositionsStep(els: seq<Element>, k: nat)
    requires SpansOrdered(els) && k < |els|
    ensures SpansOrdered(els[..k]) && SpansOrdered(els[..k + 1])
    ensures TextPositions(els[..k + 1])
      == TextPositions(els[..k]) + (if els[k].Text? then Range(els[k].start, els[k].end) else [])
  {
    assert els[..k + 1][..k] == els[..k];
  }

  lemma {:induction false} TextPositionsPrefix(els: seq<Element>, k: nat)
    requires SpansOrdered(els) && k <= |els|
    ensures TextPositions(els[..k]) <= TextPositions(els)
    decreases |els|
  {
    if k < |els| {
      var init := els[..|els| - 1];
      TextPositionsPrefix(init, k);
      assert init[..k] == els[..k];
    } else {
      assert els[..k] == els;
    }
  }

  /** Position `i` of the stripped text is the character at raw offset `TextPositions(els)[i]`. */
  lemma {:induction false} TextPositionsAgree(s: string, els: seq<Element>)
    requires InBounds(els, |s|)
    ensures |TextPositions(els)| == |StripAnsiCodes(s, els)|
    ensures forall i :: 0 <= i < |TextPositions(els)| ==>
      TextPositions(els)[i] < |s| && s[TextPositions(els)[i]] == StripAnsiCodes(s, els)[i]
    decreases |els|
  {
    if els != [] {
      var init := els[..|els| - 1];
      var e := els[|els| - 1];
      StripSnoc(s, els);
      TextPositionsAgree(s, init);
      var tp := TextPositions(init);
      var st := StripAnsiCodes(s, init);
      if e.Text? {
        var r := Range(e.start, e.end);
        assert TextPositions(els) == tp + r;
        assert StripAnsiCodes(s, els) == st + s[e.start..e.end];
        forall i | 0 <= i < |TextPositions(els)|
          ensures TextPositions(els)[i] < |s| && s[TextPositions(els)[i]] == StripAnsiCodes(s, els)[i]
        {
          if i >= |tp| {
            assert TextPositions(els)[i] == e.start + (i - |tp|);
          }
        }
      }
    }
  }

  /** Offset `p` lies inside one of the `Text` spans of `els`. */
  predicate InSomeText(els: seq<Element>, p: nat)
  {
    exists k :: 0 <= k < |els| && els[k].Text? && els[k].start <= p < els[k].end
  }

  /** Every raw offset of the stripped text lies inside a `Text` span. */
  lemma {:induction false} TextPositionsInText(els: seq<Element>)
    requires SpansOrdered(els)
    ensures forall i :: 0 <= i < |TextPositions(els)| ==> InSomeText(els, TextPositions(els)[i])
    decreases |els|
  {
    if els != [] {
      var init := els[..|els| - 1];
      var e := els[|els| - 1];
      assert SpansOrdered(init) by {
        assert forall k :: 0 <= k < |init| ==> init[k] == els[k];
      }
      TextPositionsInText(init);
      var tp := TextPositions(init);
      var all := TextPositions(els);
      assert all == tp + (if e.Text? then Range(e.start, e.end) else []);
      forall i | 0 <= i < |all|
        ensures InSomeText(els, all[i])
      {
        if i < |tp| {
          assert InSomeText(init, tp[i]);
          var k :| 0 <= k < |init| && init[k].Text? && init[k].start <= tp[i] < init[k].end;
          assert els[k] == init[k] && all[i] == tp[i];
        } else {
          assert e.Text? && e.start <= all[i] < e.end;
          assert els[|els| - 1] == e;
        }
      }
    }
  }

  /** Over a tiling of `[from, to)` the raw offsets are strictly increasing and inside `[from, to)`. */
  lemma {:induction false} TextPositionsIncreasing(els: seq<Element>, from: nat, to: nat)
    requires Tiles(els, from, to)
    ensures SpansOrdered(els)
    ensures forall i :: 0 <= i < |TextPositions(els)| ==> from <= TextPositions(els)[i] < to
    ensures forall i, j :: 0 <= i < j < |TextPositions(els)| ==> TextPositions(els)[i] < TextPositions(els)[j]
    decreases |els|
  {
    TilesOrdered(els, from, to);
    if els != [] {
      var init := els[..|els| - 1];
      var e := els[|els| - 1];
      TextPositionsIncreasing(init, from, e.start);
      var tp := TextPositions(init);
      var all := TextPositions(els);
      assert all == tp + (if e.Text? then Range(e.start, e.end) else []);
      assert forall i :: |tp| <= i < |all| ==> e.start <= all[i] < e.end && all[i] == e.start + (i - |tp|);
      assert forall i :: 0 <= i < |tp| ==> all[i] == tp[i] && from <= tp[i] < e.start;
      forall i, j | 0 <= i < j < |all|
        ensures all[i] < all[j]
      {
        if j < |tp| {
          assert all[i] == tp[i] && all[j] == tp[j];
        }
      }
    }
  }

  /**
   * `ansi_preserving_index`: the raw offset of the `i`-th character of the
   * stripped text, or `None` when the stripped text is shorter than `i + 1`.
   */
  method AnsiPreservingIndex(s: string, els: seq<Element>, i: nat) returns (r: Option<nat>)
    requires InBounds(els, |s|)
    ensures r == if i < |TextPositions(els)| then Some(TextPositions(els)[i]) else None
    ensures r.None? <==> i >= |StripAnsiCodes(s, els)|
    ensures r.Some? ==> r.value < |s| && s[r.value] == StripAnsiCodes(s, els)[i]
  {
    TextPositionsAgree(s, els);
    var index := 0;
    for k := 0 to |els|
      invariant index == |TextPositions(els[..k])|
      invariant index <= i
    {
      assert els[..k + 1][..k] == els[..k];
      if els[k].Text? {
        index := index + (els[k].end - els[k].start);
        if index > i {
          TextPositionsPrefix(els, k + 1);
          assert TextPositions(els)[i] == TextPositions(els[..k + 1])[i];
          return Some(els[k].end - (index - i));
        }
      }
    }
    assert els[..|els|] == els;
    return None;
  }

  /** The raw offsets are strictly increasing in the stripped index, so the index mapping is monotonic. */
  lemma AnsiPreservingIndexMonotonic(s: string, els: seq<Element>, i: nat, j: nat)
    requires InBounds(els, |s|) && WellFormed(els, |s|) && i < j < |StripAnsiCodes(s, els)|
    ensures SpansOrdered(els)
    ensures |TextPositions(els)| == |StripAnsiCodes(s, els)|
    ensures TextPositions(els)[i] < TextPositions(els)[j]
  {
    WellFormedInBounds(els, |s|);
    TextPositionsIncreasing(els, 0, |s|);
    TextPositionsAgree(s, els);
  }

  // ---------------------------------------------------------------------
  // ansi_preserving_slice

  /** `s[k..]` when `k` is in range, otherwise empty. */
  function Drop(t: string, k: nat): string
  {
    if k <= |t| then t[k..] else ""
  }

  /** What one element contributes to the slice, `i` being the stripped length before it. */
  function SlicePiece(s: string, e: Element, i: nat, start: nat): Piece
    requires e.start <= e.end <= |s|
  {
    if e.IsAnsi() then Piece(s[e.start..e.end], true)
    else if i + (e.end - e.start) <= start then Piece("", false)
    else if i > start then Piece(s[e.start..e.end], false)
    else Piece(s[e.start + start - i..e.end], false)
  }

  /** The per-element strings of the scan in `ansi_preserving_slice`, as pieces. */
  function SliceParts(s: string, els: seq<Element>, start: nat): (ps: seq<Piece>)
    requires InBounds(els, |s|)
    ensures |ps| == |els|
  {
    if els == [] then []
    else
      var init := els[..|els| - 1];
      assert InBounds(init, |s|) by {
        assert forall i :: 0 <= i < |init| ==> init[i] == els[i];
      }
      SliceParts(s, init, start) + [SlicePiece(s, els[|els| - 1], |TextPositions(init)|, start)]
  }

  /** One more element adds its own slice piece. */
  lemma SlicePartsStep(s: string, els: seq<Element>, k: nat, start: nat)
    requires InBounds(els, |s|) && k < |els|
    ensures InBounds(els[..k], |s|) && InBounds(els[..k + 1], |s|)
    ensures SliceParts(s, els[..k + 1], start)
      == SliceParts(s, els[..k], start) + [SlicePiece(s, els[k], |TextPositions(els[..k])|, start)]
  {
    assert els[..k + 1][..k] == els[..k];
  }

  /** `ansi_preserving_slice`: the content from stripped offset `start` on, with every escape kept. */
  function AnsiPreservingSlice(s: string, els: seq<Element>, start: nat): string
    requires InBounds(els, |s|)
  {
    Join(SliceParts(s, els, start))
  }

  /** The slice keeps every escape sequence of `s`, whole and in order. */
  lemma {:induction false} SliceKeepsEscapes(s: string, els: seq<Element>, start: nat)
    requires InBounds(els, |s|)
    ensures Escapes(SliceParts(s, els, start)) == Escapes(AnsiStrings(s, els))
    decreases |els|
  {
    if els != [] {
      var init := els[..|els| - 1];
      AnsiStringsSnoc(s, els);
      SliceKeepsEscapes(s, init, start);
      JoinAppend(SliceParts(s, init, start), [SlicePiece(s, els[|els| - 1], |TextPositions(init)|, start)]);
      JoinAppend(AnsiStrings(s, init), [AnsiStrings(s, els)[|els| - 1]]);
    }
  }

  /** What a text span of `n` bytes keeps of itself when `i` stripped bytes precede it. */
  function KeptText(t: string, i: nat, start: nat): string
  {
    if i + |t| <= start then "" else if i > start then t else t[start - i..]
  }

  /** Dropping a prefix of `a + t` drops it from `a` first, then keeps what `KeptText` keeps of `t`. */
  lemma DropAppend(a: string, t: string, start: nat)
    ensures Drop(a + t, start) == Drop(a, start) + KeptText(t, |a|, start)
  {
    if start <= |a| {
      assert (a + t)[start..] == a[start..] + t;
    } else if start <= |a| + |t| {
      assert (a + t)[start..] == t[start - |a|..];
    }
  }

  /** The text a slice piece contributes. */
  lemma SlicePieceText(s: string, e: Element, i: nat, start: nat)
    requires e.start <= e.end <= |s|
    ensures TextOf([SlicePiece(s, e, i, start)]) == if e.Text? then KeptText(s[e.start..e.end], i, start) else ""
  {
    var p := SlicePiece(s, e, i, start);
    assert TextOf([p]) == (if p.isAnsi then "" else p.text) + TextOf([p][1..]);
    assert [p][1..] == [];
    if e.Text? && i <= start < i + (e.end - e.start) {
      assert s[e.start + start - i..e.end] == s[e.start..e.end][start - i..];
    }
  }

  /** The visible text of the slice is the stripped text from `start` on. */
  lemma {:induction false} SliceStripped(s: string, els: seq<Element>, start: nat)
    requires InBounds(els, |s|)
    ensures TextOf(SliceParts(s, els, start)) == Drop(StripAnsiCodes(s, els), start)
    decreases |els|
  {
    if els != [] {
      var init := els[..|els| - 1];
      var e := els[|els| - 1];
      StripSnoc(s, els);
      SliceStripped(s, init, start);
      TextPositionsAgree(s, init);
      var p := SlicePiece(s, e, |TextPositions(init)|, start);
      TextOfAppend(SliceParts(s, init, start), [p]);
      SlicePieceText(s, e, |TextPositions(init)|, start);
      var a := StripAnsiCodes(s, init);
      if e.Text? {
        DropAppend(a, s[e.start..e.end], start);
      } else {
        assert StripAnsiCodes(s, els) == a + "";
        assert a + "" == a;
      }
    }
  }

  /** From stripped offset 0 every element contributes its whole slice. */
  lemma {:induction false} SliceFromZeroParts(s: string, els: seq<Element>)
    requires InBounds(els, |s|)
    ensures SliceParts(s, els, 0) == AnsiStrings(s, els)
    decreases |els|
  {
    if els != [] {
      AnsiStringsSnoc(s, els);
      SliceFromZeroParts(s, els[..|els| - 1]);
    }
  }

  /** `ansi_preserving_slice(s, 0) == s`. */
  lemma SliceFromZero(s: string, els: seq<Element>)
    requires WellFormed(els, |s|)
    ensures InBounds(els, |s|)
    ensures AnsiPreservingSlice(s, els, 0) == s
  {
    JoinAnsiStrings(s, els);
    SliceFromZeroParts(s, els);
  }

  // ---------------------------------------------------------------------
  // parse_style_sections, parse_first_style, string_starts_with_ansi_style_sequence

  /** The style in force after `els`: that of the last `Sgr` element, or the default when there is none. */
  function CurrentStyle(els: seq<Element>): Style
  {
    if els == [] then DefaultStyle
    else if els[|els| - 1].Sgr? then els[|els| - 1].style
    else CurrentStyle(els[..|els| - 1])
  }

  /** With no `Sgr` element, `CurrentStyle` is the default style. */
  lemma {:induction false} CurrentStyleWithoutSgr(els: seq<Element>)
    requires forall k :: 0 <= k < |els| ==> !els[k].Sgr?
    ensures CurrentStyle(els) == DefaultStyle
    decreases |els|
  {
    if els != [] {
      var n := |els| - 1;
      assert forall k :: 0 <= k < n ==> els[..n][k] == els[k];
      CurrentStyleWithoutSgr(els[..n]);
    }
  }

  /** With `els[k]` the last `Sgr` element, `CurrentStyle` is its style. */
  lemma {:induction false} CurrentStyleIsLastSgr(els: seq<Element>, k: nat)
    requires k < |els| && els[k].Sgr?
    requires forall j :: k < j < |els| ==> !els[j].Sgr?
    ensures CurrentStyle(els) == els[k].style
    decreases |els|
  {
    var n := |els| - 1;
    if k < n {
      var init := els[..n];
      assert init[k] == els[k];
      assert forall j :: k < j < n ==> init[j] == els[j];
      CurrentStyleIsLastSgr(init, k);
    }
  }

  /** The sections `parse_style_sections` pushes for the elements `els`, in order. */
  function StyleSections(s: string, els: seq<Element>): seq<(Style, string)>
    requires InBounds(els, |s|)
  {
    if els == [] then []
    else
      var init := els[..|els| - 1];
      var e := els[|els| - 1];
      assert InBounds(init, |s|) by {
        assert forall i :: 0 <= i < |init| ==> init[i] == els[i];
      }
      StyleSections(s, init) + (if e.Text? then [(CurrentStyle(init), s[e.start..e.end])] else [])
  }

  /** `parse_style_sections`: every text span paired with the style current when it is reached. */
  method ParseStyleSections(s: string, els: seq<Element>) returns (sections: seq<(Style, string)>)
    requires InBounds(els, |s|)
    ensures sections == StyleSections(s, els)
  {
    sections := [];
    var currStyle := DefaultStyle;
    for k := 0 to |els|
      invariant InBounds(els[..k], |s|)
      invariant sections == StyleSections(s, els[..k])
      invariant currStyle == CurrentStyle(els[..k])
    {
      assert els[..k + 1][..k] == els[..k];
      match els[k]
      case Text(a, b) => sections := sections + [(currStyle, s[a..b])];
      case Sgr(style, _, _) => currStyle := style;
      case _ =>
    }
    assert els[..|els|] == els;
  }

  /** The indices of the `Text` elements, ascending. */
  function TextIndices(els: seq<Element>): (r: seq<nat>)
    ensures forall j :: 0 <= j < |r| ==> r[j] < |els| && els[r[j]].Text?
    ensures forall k :: 0 <= k < |els| && els[k].Text? ==> k in r
    ensures forall i, j :: 0 <= i < j < |r| ==> r[i] < r[j]
  {
    if els == [] then []
    else
      var init := els[..|els| - 1];
      var r := TextIndices(init);
      assert forall j :: 0 <= j < |r| ==> els[r[j]] == init[r[j]];
      r + (if els[|els| - 1].Text? then [|els| - 1] else [])
  }

  /**
   * Section `j` holds the `j`-th text span together with the style of the
   * last `Sgr` element before it (the default style when there is none).
   */
  lemma {:induction false} StyleSectionsPairs(s: string, els: seq<Element>)
    requires InBounds(els, |s|)
    ensures |StyleSections(s, els)| == |TextIndices(els)|
    ensures forall j :: 0 <= j < |TextIndices(els)| ==>
      var k := TextIndices(els)[j];
      StyleSections(s, els)[j] == (CurrentStyle(els[..k]), s[els[k].start..els[k].end])
    decreases |els|
  {
    if els != [] {
      var init := els[..|els| - 1];
      assert InBounds(init, |s|) by {
        assert forall i :: 0 <= i < |init| ==> init[i] == els[i];
      }
      StyleSectionsPairs(s, init);
      var ti := TextIndices(init);
      forall j | 0 <= j < |ti|
        ensures els[..ti[j]] == init[..ti[j]] && els[ti[j]] == init[ti[j]]
      {
      }
    }
  }

  function SectionTexts(secs: seq<(Style, string)>): seq<string>
  {
    seq(|secs|, j requires 0 <= j < |secs| => secs[j].1)
  }

  /** The texts of the sections, concatenated, are the stripped text. */
  lemma {:induction false} StyleSectionsText(s: string, els: seq<Element>)
    requires InBounds(els, |s|)
    ensures Concat(SectionTexts(StyleSections(s, els))) == StripAnsiCodes(s, els)
    decreases |els|
  {
    if els != [] {
      var init := els[..|els| - 1];
      var e := els[|els| - 1];
      StripSnoc(s, els);
      StyleSectionsText(s, init);
      var a := StyleSections(s, init);
      var all := StyleSections(s, els);
      var ta := SectionTexts(a);
      var tall := SectionTexts(all);
      if e.Text? {
        assert tall == ta + [s[e.start..e.end]];
        ConcatAppend(ta, [s[e.start..e.end]]);
      } else {
        assert all == a;
        assert tall == ta;
      }
    }
  }

  /** `parse_first_style`: the style of the first `Sgr` element, if any. */
  function FirstStyle(els: seq<Element>): (r: Option<Style>)
    ensures r.None? <==> forall k :: 0 <= k < |els| ==> !els[k].Sgr?
    ensures r.Some? ==>
      exists k :: 0 <= k < |els| && els[k].Sgr? && els[k].style == r.value &&
        forall j :: 0 <= j < k ==> !els[j].Sgr?
  {
    if els == [] then None
    else if els[0].Sgr? then Some(els[0].style)
    else
      var r := FirstStyle(els[1..]);
      assert forall k :: 0 < k < |els| ==> els[k] == els[1..][k - 1];
      r
  }

  /** `string_starts_with_ansi_style_sequence`: whether the first element is an `Sgr` sequence. */
  function StartsWithStyle(els: seq<Element>): (b: bool)
    ensures b <==> |els| > 0 && els[0].Sgr?
    ensures b ==> FirstStyle(els) == Some(els[0].style)
  {
    |els| > 0 && els[0].Sgr?
  }
}
