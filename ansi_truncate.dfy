/**
 * Width-bounded truncation (`truncate_str_impl`, `truncate_str` and
 * `truncate_str_short` in src/ansi/mod.rs).
 *
 * The result string is kept as the sequence of pieces it is assembled
 * from: escape pieces copied from the input, and text pieces that are
 * graphemes of the input or fill characters. `Join` of that sequence is the
 * string the source returns; the split lets the width of the result be
 * stated without tokenizing it again.
 */
module AnsiTruncate {
  import opened Wrappers
  import opened Seqs
  import opened Ansi

  /** `a` is a prefix of `b`. */
  predicate IsPrefix<T(==)>(a: seq<T>, b: seq<T>)
  {
    |a| <= |b| && b[..|a|] == a
  }

  /** `a` is a suffix of `b`. */
  predicate IsSuffix<T(==)>(a: seq<T>, b: seq<T>)
  {
    |a| <= |b| && b[|b| - |a|..] == a
  }

  lemma PrefixExtend<T>(a: seq<T>, b: seq<T>, c: seq<T>)
    requires IsPrefix(a, b)
    ensures IsPrefix(a, b + c)
  {
    assert (b + c)[..|a|] == b[..|a|];
  }

  lemma PrefixCons<T>(x: seq<T>, a: seq<T>, b: seq<T>)
    requires IsPrefix(a, b)
    ensures IsPrefix(x + a, x + b)
  {
    assert (x + b)[..|x + a|] == x + b[..|a|];
  }

  /** `n` copies of `c`. */
  function Repeat(c: char, n: nat): (r: string)
    ensures |r| == n && forall i :: 0 <= i < n ==> r[i] == c
  {
    if n == 0 then "" else Repeat(c, n - 1) + [c]
  }

  lemma {:induction false} RepeatWidth(m: Metrics, c: char, n: nat)
    requires m.charWidth(c) == 1
    ensures StrWidth(m, Repeat(c, n)) == n
  {
    if n > 0 {
      RepeatWidth(m, c, n - 1);
      StrWidthAppend(m, Repeat(c, n - 1), [c]);
      assert [c][1..] == "";
    }
  }

  /**
   * What is pushed when a grapheme of width `w` does not fit: with a fill
   * character, one fill for the hole of a cut double-width grapheme while
   * a column is free, or fills up to `dw` for a grapheme wider than 2.
   */
  function FillPieces(w: nat, dw: nat, used: nat, fill: Option<char>): (r: seq<Piece>)
    ensures fill.None? ==> r == []
    ensures forall i :: 0 <= i < |r| ==> !r[i].isAnsi
  {
    match fill
    case None => []
    case Some(c) =>
      if w == 2 && used < dw then [Piece([c], false)]
      else if w > 2 then [Piece(Repeat(c, if used < dw then dw - used else 0), false)]
      else []
  }

  /** A walk's output, the width it has accounted for, and whether it stopped at a grapheme that does not fit. */
  datatype Progress = Progress(pieces: seq<Piece>, used: nat, cut: bool)

  /** The inner loop of `truncate_str_impl` over the graphemes of one text piece. */
  function WalkGraphemes(m: Metrics, gs: seq<string>, dw: nat, used: nat, fill: Option<char>): Progress
    decreases |gs|
  {
    if gs == [] then Progress([], used, false)
    else
      var w := StrWidth(m, gs[0]);
      if used + w > dw then Progress(FillPieces(w, dw, used, fill), used, true)
      else
        var r := WalkGraphemes(m, gs[1..], dw, used + w, fill);
        Progress([Piece(gs[0], false)] + r.pieces, r.used, r.cut)
  }

  /**
   * The outer loop of `truncate_str_impl`: escapes are copied, text pieces
   * are walked grapheme by grapheme. A grapheme that does not fit ends
   * only the walk of its own text piece; the next text piece is walked
   * again with the same `used`.
   */
  function Walk(m: Metrics, items: seq<Piece>, dw: nat, used: nat, fill: Option<char>): Progress
    decreases |items|
  {
    if items == [] then Progress([], used, false)
    else if items[0].isAnsi then
      var r := Walk(m, items[1..], dw, used, fill);
      Progress([items[0]] + r.pieces, r.used, r.cut)
    else
      var g := WalkGraphemes(m, m.graphemes(items[0].text), dw, used, fill);
      var r := Walk(m, items[1..], dw, g.used, fill);
      Progress(g.pieces + r.pieces, r.used, g.cut || r.cut)
  }

  /** Whether the text of `s` fits in `dw` columns, the first test of `truncate_str_impl`. */
  predicate Fits(m: Metrics, s: string, els: seq<Element>, dw: nat)
    requires InBounds(els, |s|)
  {
    StrWidth(m, TextOf(AnsiStrings(s, els))) <= dw
  }

  /**
   * `truncate_str_impl(s, dw, tail, fill2w)`, as written: `s` itself when it
   * fits; otherwise the walk of `s`, starting with the width of the
   * truncated tail already used, followed by that truncated tail.
   */
  function TruncateImpl(m: Metrics, s: string, els: seq<Element>, dw: nat,
                        tail: string, tailEls: seq<Element>, fill: Option<char>): seq<Piece>
    requires InBounds(els, |s|) && InBounds(tailEls, |tail|)
    decreases |tail|
  {
    var items := AnsiStrings(s, els);
    if Fits(m, s, els, dw) then items
    else
      var resultTail := if tail != "" then TruncateImpl(m, tail, tailEls, dw, "", [], fill) else [];
      Walk(m, items, dw, PiecesWidth(m, resultTail), fill).pieces + resultTail
  }

  // ---------------------------------------------------------------------
  // The imperative form

  /** `truncate_str_impl`: the nested loops with the inner `break`, proved equal to `TruncateImpl`. */
  method TruncateStrImpl(m: Metrics, s: string, els: seq<Element>, dw: nat,
                         tail: string, tailEls: seq<Element>, fill: Option<char>)
    returns (result: seq<Piece>)
    requires InBounds(els, |s|) && InBounds(tailEls, |tail|)
    ensures result == TruncateImpl(m, s, els, dw, tail, tailEls, fill)
    decreases |tail|
  {
    var items := AnsiStrings(s, els);
    var width := StrWidth(m, TextOf(items));
    if width <= dw {
      return items;
    }
    var resultTail: seq<Piece> := [];
    if tail != "" {
      resultTail := TruncateStrImpl(m, tail, tailEls, dw, "", [], fill);
    }
    var used: nat := PiecesWidth(m, resultTail);
    result := WalkLoop(m, items, dw, used, fill);
    result := result + resultTail;
  }

  /** The outer loop of `truncate_str_impl` over the pieces of `s`, from the width the tail takes. */
  method WalkLoop(m: Metrics, items: seq<Piece>, dw: nat, used0: nat, fill: Option<char>) returns (result: seq<Piece>)
    ensures result == Walk(m, items, dw, used0, fill).pieces
  {
    var used := used0;
    result := [];
    var i := 0;
    while i < |items|
      invariant 0 <= i <= |items|
      invariant result + Walk(m, items[i..], dw, used, fill).pieces == Walk(m, items, dw, used0, fill).pieces
    {
      var item := items[i];
      assert items[i..][0] == item && items[i..][1..] == items[i + 1..];
      ghost var here := Walk(m, items[i..], dw, used, fill);
      if !item.isAnsi {
        var pushed, usedAfter := WalkGraphemesLoop(m, m.graphemes(item.text), dw, used, fill);
        ghost var rest := Walk(m, items[i + 1..], dw, usedAfter, fill);
        assert here.pieces == pushed + rest.pieces;
        AppendAssoc(result, pushed, rest.pieces);
        result := result + pushed;
        used := usedAfter;
      } else {
        ghost var rest := Walk(m, items[i + 1..], dw, used, fill);
        assert here.pieces == [item] + rest.pieces;
        AppendAssoc(result, [item], rest.pieces);
        result := result + [item];
      }
      i := i + 1;
    }
    assert items[|items|..] == [];
    assert result + [] == result;
  }

  /**
   * The inner loop of `truncate_str_impl` over the graphemes of one text
   * piece, with its `break` and the fill it pushes before it; `pushed` is
   * what the loop appends to the result.
   */
  method WalkGraphemesLoop(m: Metrics, gs: seq<string>, dw: nat, used0: nat, fill: Option<char>)
    returns (pushed: seq<Piece>, used: nat)
    ensures pushed == WalkGraphemes(m, gs, dw, used0, fill).pieces
    ensures used == WalkGraphemes(m, gs, dw, used0, fill).used
  {
    pushed := [];
    used := used0;
    var j := 0;
    while j < |gs|
      invariant 0 <= j <= |gs|
      invariant pushed + WalkGraphemes(m, gs[j..], dw, used, fill).pieces == WalkGraphemes(m, gs, dw, used0, fill).pieces
      invariant WalkGraphemes(m, gs[j..], dw, used, fill).used == WalkGraphemes(m, gs, dw, used0, fill).used
    {
      var g := gs[j];
      ghost var here := WalkGraphemes(m, gs[j..], dw, used, fill);
      assert gs[j..][0] == g && gs[j..][1..] == gs[j + 1..];
      var widthOfGrapheme := StrWidth(m, g);
      if used + widthOfGrapheme > dw {
        var filled := PushFill(widthOfGrapheme, dw, used, fill);
        assert here.pieces == filled && here.used == used;
        pushed := pushed + filled;
        return;
      }
      ghost var rest := WalkGraphemes(m, gs[j + 1..], dw, used + widthOfGrapheme, fill);
      assert here.pieces == [Piece(g, false)] + rest.pieces && here.used == rest.used;
      AppendAssoc(pushed, [Piece(g, false)], rest.pieces);
      pushed := pushed + [Piece(g, false)];
      used := used + widthOfGrapheme;
      j := j + 1;
    }
    assert gs[j..] == [];
    assert pushed + [] == pushed;
  }

  /** What the inner loop pushes before its `break` at a grapheme of width `w` that does not fit. */
  method PushFill(w: nat, dw: nat, used: nat, fill: Option<char>) returns (ps: seq<Piece>)
    ensures ps == FillPieces(w, dw, used, fill)
  {
    ps := [];
    if fill.Some? {
      var fillchar := fill.value;
      if w == 2 && used < dw {
        ps := [Piece([fillchar], false)];
      } else if w > 2 {
        var n := if used < dw then dw - used else 0;
        var filled := "";
        for k := 0 to n
          invariant filled == Repeat(fillchar, k)
        {
          filled := filled + [fillchar];
        }
        ps := [Piece(filled, false)];
      }
    }
  }

  /** `truncate_str`: truncation with a space filling the hole of a cut double-width grapheme. */
  method TruncateStr(m: Metrics, s: string, els: seq<Element>, dw: nat, tail: string, tailEls: seq<Element>)
    returns (r: string)
    requires InBounds(els, |s|) && InBounds(tailEls, |tail|)
    ensures r == Join(TruncateImpl(m, s, els, dw, tail, tailEls, Some(' ')))
    ensures Fits(m, s, els, dw) && WellFormed(els, |s|) ==> r == s
  {
    var ps := TruncateStrImpl(m, s, els, dw, tail, tailEls, Some(' '));
    r := Join(ps);
    if Fits(m, s, els, dw) && WellFormed(els, |s|) {
      TruncateFits(m, s, els, dw, tail, tailEls, Some(' '));
    }
  }

  /** `truncate_str_short`: truncation without a tail and without fill; the result is never wider than `dw`. */
  method TruncateStrShort(m: Metrics, s: string, els: seq<Element>, dw: nat)
    returns (r: string)
    requires InBounds(els, |s|)
    ensures r == Join(TruncateImpl(m, s, els, dw, "", [], None))
    ensures PiecesWidth(m, TruncateImpl(m, s, els, dw, "", [], None)) <= dw || Fits(m, s, els, dw)
  {
    var ps := TruncateStrImpl(m, s, els, dw, "", [], None);
    r := Join(ps);
    TruncateWithoutFillWidth(m, s, els, dw, "", []);
  }

  // ---------------------------------------------------------------------
  // Properties of the walks

  lemma {:induction false} WalkGraphemesPlain(m: Metrics, gs: seq<string>, dw: nat, used: nat, fill: Option<char>)
    ensures forall i :: 0 <= i < |WalkGraphemes(m, gs, dw, used, fill).pieces| ==> !WalkGraphemes(m, gs, dw, used, fill).pieces[i].isAnsi
    ensures !WalkGraphemes(m, gs, dw, used, fill).cut ==> WalkGraphemes(m, gs, dw, used, fill).pieces == Plain(gs)
    decreases |gs|
  {
    if gs != [] && used + StrWidth(m, gs[0]) <= dw {
      WalkGraphemesPlain(m, gs[1..], dw, used + StrWidth(m, gs[0]), fill);
      assert gs[1..] == gs[1..];
    }
  }

  /** Each grapheme as a text piece. */
  function Plain(gs: seq<string>): (r: seq<Piece>)
    ensures |r| == |gs| && forall i :: 0 <= i < |gs| ==> r[i] == Piece(gs[i], false)
    decreases |gs|
  {
    if gs == [] then [] else [Piece(gs[0], false)] + Plain(gs[1..])
  }

  lemma {:induction false} EscapesOfPlain(ps: seq<Piece>)
    requires forall i :: 0 <= i < |ps| ==> !ps[i].isAnsi
    ensures Escapes(ps) == []
  {
    if ps != [] {
      EscapesOfPlain(ps[1..]);
    }
  }

  /** The walk copies every escape piece, in order, and emits no other escape. */
  lemma {:induction false} WalkKeepsEscapes(m: Metrics, items: seq<Piece>, dw: nat, used: nat, fill: Option<char>)
    ensures Escapes(Walk(m, items, dw, used, fill).pieces) == Escapes(items)
    decreases |items|
  {
    if items != [] {
      if items[0].isAnsi {
        WalkKeepsEscapes(m, items[1..], dw, used, fill);
        EscapesAppend([items[0]], Walk(m, items[1..], dw, used, fill).pieces);
      } else {
        var g := WalkGraphemes(m, m.graphemes(items[0].text), dw, used, fill);
        WalkGraphemesPlain(m, m.graphemes(items[0].text), dw, used, fill);
        EscapesOfPlain(g.pieces);
        WalkKeepsEscapes(m, items[1..], dw, g.used, fill);
        EscapesAppend(g.pieces, Walk(m, items[1..], dw, g.used, fill).pieces);
      }
    }
  }

  /**
   * Without fill, the inner walk accounts for exactly the width it emits,
   * never goes past `dw` from a starting point within it, and never moves
   * from a starting point beyond it.
   */
  lemma {:induction false} WalkGraphemesWidth(m: Metrics, gs: seq<string>, dw: nat, used: nat)
    ensures var g := WalkGraphemes(m, gs, dw, used, None);
      && used + PiecesWidth(m, g.pieces) == g.used
      && (used <= dw ==> g.used <= dw)
      && (used > dw ==> g.used == used)
    decreases |gs|
  {
    if gs != [] {
      var w := StrWidth(m, gs[0]);
      if used + w <= dw {
        WalkGraphemesWidth(m, gs[1..], dw, used + w);
        var r := WalkGraphemes(m, gs[1..], dw, used + w, None);
        PiecesWidthAppend(m, [Piece(gs[0], false)], r.pieces);
        assert [Piece(gs[0], false)][1..] == [];
      }
    }
  }

  lemma {:induction false} WalkWidth(m: Metrics, items: seq<Piece>, dw: nat, used: nat)
    ensures var r := Walk(m, items, dw, used, None);
      && used + PiecesWidth(m, r.pieces) == r.used
      && (used <= dw ==> r.used <= dw)
      && (used > dw ==> r.used == used)
    decreases |items|
  {
    if items != [] {
      if items[0].isAnsi {
        WalkWidth(m, items[1..], dw, used);
        PiecesWidthAppend(m, [items[0]], Walk(m, items[1..], dw, used, None).pieces);
        assert [items[0]][1..] == [];
      } else {
        var g := WalkGraphemes(m, m.graphemes(items[0].text), dw, used, None);
        WalkGraphemesWidth(m, m.graphemes(items[0].text), dw, used);
        WalkWidth(m, items[1..], dw, g.used);
        PiecesWidthAppend(m, g.pieces, Walk(m, items[1..], dw, g.used, None).pieces);
      }
    }
  }

  // ---------------------------------------------------------------------
  // Properties of truncate_str_impl as written

  /** A string that fits is returned unchanged (step 1 of the documented construction). */
  lemma TruncateFits(m: Metrics, s: string, els: seq<Element>, dw: nat,
                     tail: string, tailEls: seq<Element>, fill: Option<char>)
    requires InBounds(els, |s|) && WellFormed(els, |s|) && InBounds(tailEls, |tail|)
    requires Fits(m, s, els, dw)
    ensures InBounds(els, |s|)
    ensures Join(TruncateImpl(m, s, els, dw, tail, tailEls, fill)) == s
  {
    JoinAnsiStrings(s, els);
  }

  /**
   * Every escape sequence of `s` is kept, in order, followed by every escape
   * sequence of the tail when the tail is used.
   */
  lemma TruncateKeepsEscapes(m: Metrics, s: string, els: seq<Element>, dw: nat,
                             tail: string, tailEls: seq<Element>, fill: Option<char>)
    requires InBounds(els, |s|) && InBounds(tailEls, |tail|)
    ensures Escapes(TruncateImpl(m, s, els, dw, tail, tailEls, fill))
      == Escapes(AnsiStrings(s, els)) + (if Fits(m, s, els, dw) || tail == "" then [] else Escapes(AnsiStrings(tail, tailEls)))
  {
    if !Fits(m, s, els, dw) {
      var items := AnsiStrings(s, els);
      var resultTail := if tail != "" then TruncateImpl(m, tail, tailEls, dw, "", [], fill) else [];
      var w := Walk(m, items, dw, PiecesWidth(m, resultTail), fill);
      WalkKeepsEscapes(m, items, dw, PiecesWidth(m, resultTail), fill);
      EscapesAppend(w.pieces, resultTail);
      if tail != "" {
        var tailItems := AnsiStrings(tail, tailEls);
        if !Fits(m, tail, tailEls, dw) {
          var tw := Walk(m, tailItems, dw, 0, fill);
          WalkKeepsEscapes(m, tailItems, dw, 0, fill);
          assert tw.pieces + [] == tw.pieces;
          assert resultTail == tw.pieces;
        }
      }
    }
  }

  /**
   * A tail that fits is a suffix of the result, and is preceded by the walk
   * of `s` (steps 3 and 4 of the documented construction).
   */
  lemma TruncateTailSuffix(m: Metrics, s: string, els: seq<Element>, dw: nat,
                           tail: string, tailEls: seq<Element>, fill: Option<char>)
    requires InBounds(els, |s|) && WellFormed(tailEls, |tail|)
    requires !Fits(m, s, els, dw) && tail != ""
    ensures InBounds(tailEls, |tail|)
    ensures Fits(m, tail, tailEls, dw) ==> IsSuffix(tail, Join(TruncateImpl(m, s, els, dw, tail, tailEls, fill)))
  {
    JoinAnsiStrings(tail, tailEls);
    if Fits(m, tail, tailEls, dw) {
      var tailItems := AnsiStrings(tail, tailEls);
      var w := Walk(m, AnsiStrings(s, els), dw, PiecesWidth(m, tailItems), fill);
      JoinOnlyAppend(w.pieces, tailItems);
      var r := Join(w.pieces) + tail;
      assert r[|r| - |tail|..] == tail;
    }
  }

  /** Without fill, the result is never wider than `dw`, whatever the tail. */
  lemma TruncateWithoutFillWidth(m: Metrics, s: string, els: seq<Element>, dw: nat,
                                 tail: string, tailEls: seq<Element>)
    requires InBounds(els, |s|) && InBounds(tailEls, |tail|)
    ensures PiecesWidth(m, TruncateImpl(m, s, els, dw, tail, tailEls, None)) <= dw || Fits(m, s, els, dw)
    ensures Fits(m, s, els, dw) ==> PiecesWidth(m, TruncateImpl(m, s, els, dw, tail, tailEls, None)) <= dw
    decreases |tail|
  {
    var items := AnsiStrings(s, els);
    PiecesWidthOfText(m, items);
    if !Fits(m, s, els, dw) {
      var resultTail := if tail != "" then TruncateImpl(m, tail, tailEls, dw, "", [], None) else [];
      if tail != "" {
        TruncateWithoutFillWidth(m, tail, tailEls, dw, "", []);
      }
      var used := PiecesWidth(m, resultTail);
      WalkWidth(m, items, dw, used);
      PiecesWidthAppend(m, Walk(m, items, dw, used, None).pieces, resultTail);
    }
  }

  // ---------------------------------------------------------------------
  // The corrected truncation: a cut grapheme ends the walk of all the text

  /** The escape pieces of `ps`, in order. */
  function EscapesOnly(ps: seq<Piece>): (r: seq<Piece>)
    ensures forall i :: 0 <= i < |r| ==> r[i].isAnsi
    decreases |ps|
  {
    if ps == [] then [] else (if ps[0].isAnsi then [ps[0]] else []) + EscapesOnly(ps[1..])
  }

  lemma {:induction false} EscapesOnlyFacts(m: Metrics, ps: seq<Piece>)
    ensures TextOf(EscapesOnly(ps)) == "" && PiecesWidth(m, EscapesOnly(ps)) == 0
    ensures Escapes(EscapesOnly(ps)) == Escapes(ps)
    decreases |ps|
  {
    if ps != [] {
      EscapesOnlyFacts(m, ps[1..]);
      var head := if ps[0].isAnsi then [ps[0]] else [];
      JoinAppend(head, EscapesOnly(ps[1..]));
      PiecesWidthAppend(m, head, EscapesOnly(ps[1..]));
      assert head == [] || head[1..] == [];
    }
  }

  /**
   * The walk as the documentation of `truncate_str` describes it: once a
   * grapheme does not fit, no further text is contributed; the escapes
   * that follow are still copied.
   */
  function WalkFixed(m: Metrics, items: seq<Piece>, dw: nat, used: nat, fill: Option<char>): Progress
    decreases |items|
  {
    if items == [] then Progress([], used, false)
    else if items[0].isAnsi then
      var r := WalkFixed(m, items[1..], dw, used, fill);
      Progress([items[0]] + r.pieces, r.used, r.cut)
    else
      var g := WalkGraphemes(m, m.graphemes(items[0].text), dw, used, fill);
      if g.cut then Progress(g.pieces + EscapesOnly(items[1..]), g.used, true)
      else
        var r := WalkFixed(m, items[1..], dw, g.used, fill);
        Progress(g.pieces + r.pieces, r.used, r.cut)
  }

  /** `truncate_str_impl` with the corrected walk. */
  function TruncateImplFixed(m: Metrics, s: string, els: seq<Element>, dw: nat,
                             tail: string, tailEls: seq<Element>, fill: Option<char>): seq<Piece>
    requires InBounds(els, |s|) && InBounds(tailEls, |tail|)
    decreases |tail|
  {
    var items := AnsiStrings(s, els);
    if Fits(m, s, els, dw) then items
    else
      var resultTail := if tail != "" then TruncateImplFixed(m, tail, tailEls, dw, "", [], fill) else [];
      WalkFixed(m, items, dw, PiecesWidth(m, resultTail), fill).pieces + resultTail
  }

  /** The two walks differ only after a cut: a walk that cuts nothing is the corrected walk. */
  lemma {:induction false} WalkFixedAgrees(m: Metrics, items: seq<Piece>, dw: nat, used: nat, fill: Option<char>)
    ensures !Walk(m, items, dw, used, fill).cut ==> WalkFixed(m, items, dw, used, fill) == Walk(m, items, dw, used, fill)
    decreases |items|
  {
    if items != [] {
      if items[0].isAnsi {
        WalkFixedAgrees(m, items[1..], dw, used, fill);
      } else {
        var g := WalkGraphemes(m, m.graphemes(items[0].text), dw, used, fill);
        WalkFixedAgrees(m, items[1..], dw, g.used, fill);
      }
    }
  }

  /** Without fill, the inner walk emits a prefix of the text it walks, all of it when nothing is cut. */
  lemma {:induction false} WalkGraphemesPrefix(m: Metrics, gs: seq<string>, dw: nat, used: nat)
    ensures IsPrefix(TextOf(WalkGraphemes(m, gs, dw, used, None).pieces), Concat(gs))
    ensures !WalkGraphemes(m, gs, dw, used, None).cut ==> TextOf(WalkGraphemes(m, gs, dw, used, None).pieces) == Concat(gs)
    decreases |gs|
  {
    if gs != [] {
      var w := StrWidth(m, gs[0]);
      if used + w <= dw {
        var r := WalkGraphemes(m, gs[1..], dw, used + w, None);
        WalkGraphemesPrefix(m, gs[1..], dw, used + w);
        TextOfAppend([Piece(gs[0], false)], r.pieces);
        assert [Piece(gs[0], false)][1..] == [];
        PrefixCons(gs[0], TextOf(r.pieces), Concat(gs[1..]));
      }
    }
  }

  /** Without fill, the corrected walk emits a prefix of the text of the pieces it walks. */
  lemma {:induction false} WalkFixedPrefix(m: Metrics, items: seq<Piece>, dw: nat, used: nat)
    requires ValidMetrics(m)
    ensures IsPrefix(TextOf(WalkFixed(m, items, dw, used, None).pieces), TextOf(items))
    decreases |items|
  {
    if items != [] {
      var rest := items[1..];
      if items[0].isAnsi {
        WalkFixedPrefix(m, rest, dw, used);
        TextOfAppend([items[0]], WalkFixed(m, rest, dw, used, None).pieces);
        assert [items[0]][1..] == [];
      } else {
        var t := items[0].text;
        var gs := m.graphemes(t);
        var g := WalkGraphemes(m, gs, dw, used, None);
        WalkGraphemesPrefix(m, gs, dw, used);
        assert Concat(gs) == t;
        if g.cut {
          EscapesOnlyFacts(m, rest);
          TextOfAppend(g.pieces, EscapesOnly(rest));
          PrefixExtend(TextOf(g.pieces), t, TextOf(rest));
        } else {
          var r := WalkFixed(m, rest, dw, g.used, None);
          WalkFixedPrefix(m, rest, dw, g.used);
          TextOfAppend(g.pieces, r.pieces);
          PrefixCons(t, TextOf(r.pieces), TextOf(rest));
        }
      }
    }
  }

  /** A fill character of width one, or no fill at all. */
  predicate NarrowFill(m: Metrics, fill: Option<char>)
  {
    fill.None? || m.charWidth(fill.value) == 1
  }

  lemma FillPiecesWidth(m: Metrics, w: nat, dw: nat, used: nat, fill: Option<char>)
    requires NarrowFill(m, fill) && used <= dw && used + w > dw
    ensures used + PiecesWidth(m, FillPieces(w, dw, used, fill)) <= dw
  {
    if fill.Some? {
      var c := fill.value;
      if w == 2 && used < dw {
        assert [c][1..] == "";
        assert StrWidth(m, [c]) == 1;
        assert [Piece([c], false)][1..] == [];
      } else if w > 2 {
        RepeatWidth(m, c, dw - used);
        assert [Piece(Repeat(c, dw - used), false)][1..] == [];
      }
    }
  }

  /**
   * With a narrow fill, the inner walk from a point within `dw` never
   * passes it, and accounts exactly for what it emits when nothing is cut.
   */
  lemma {:induction false} WalkGraphemesFillWidth(m: Metrics, gs: seq<string>, dw: nat, used: nat, fill: Option<char>)
    requires NarrowFill(m, fill) && used <= dw
    ensures var g := WalkGraphemes(m, gs, dw, used, fill);
      && used + PiecesWidth(m, g.pieces) <= dw
      && (!g.cut ==> used + PiecesWidth(m, g.pieces) == g.used)
      && g.used <= dw
    decreases |gs|
  {
    if gs != [] {
      var w := StrWidth(m, gs[0]);
      if used + w > dw {
        FillPiecesWidth(m, w, dw, used, fill);
      } else {
        WalkGraphemesFillWidth(m, gs[1..], dw, used + w, fill);
        var r := WalkGraphemes(m, gs[1..], dw, used + w, fill);
        PiecesWidthAppend(m, [Piece(gs[0], false)], r.pieces);
        assert [Piece(gs[0], false)][1..] == [];
      }
    }
  }

  /** With a narrow fill, the corrected walk from a point within `dw` never passes it. */
  lemma {:induction false} WalkFixedWidth(m: Metrics, items: seq<Piece>, dw: nat, used: nat, fill: Option<char>)
    requires NarrowFill(m, fill) && used <= dw
    ensures used + PiecesWidth(m, WalkFixed(m, items, dw, used, fill).pieces) <= dw
    ensures !WalkFixed(m, items, dw, used, fill).cut
      ==> used + PiecesWidth(m, WalkFixed(m, items, dw, used, fill).pieces) == WalkFixed(m, items, dw, used, fill).used
    decreases |items|
  {
    if items != [] {
      var rest := items[1..];
      if items[0].isAnsi {
        WalkFixedWidth(m, rest, dw, used, fill);
        PiecesWidthAppend(m, [items[0]], WalkFixed(m, rest, dw, used, fill).pieces);
        assert [items[0]][1..] == [];
      } else {
        var g := WalkGraphemes(m, m.graphemes(items[0].text), dw, used, fill);
        WalkGraphemesFillWidth(m, m.graphemes(items[0].text), dw, used, fill);
        if g.cut {
          EscapesOnlyFacts(m, rest);
          PiecesWidthAppend(m, g.pieces, EscapesOnly(rest));
        } else {
          WalkFixedWidth(m, rest, dw, g.used, fill);
          PiecesWidthAppend(m, g.pieces, WalkFixed(m, rest, dw, g.used, fill).pieces);
        }
      }
    }
  }

  /** Corrected: the result is never wider than `dw`, with a narrow fill or none. */
  lemma TruncateFixedWidth(m: Metrics, s: string, els: seq<Element>, dw: nat,
                           tail: string, tailEls: seq<Element>, fill: Option<char>)
    requires InBounds(els, |s|) && InBounds(tailEls, |tail|)
    requires NarrowFill(m, fill)
    ensures PiecesWidth(m, TruncateImplFixed(m, s, els, dw, tail, tailEls, fill)) <= dw
    decreases |tail|
  {
    var items := AnsiStrings(s, els);
    PiecesWidthOfText(m, items);
    if !Fits(m, s, els, dw) {
      var resultTail := if tail != "" then TruncateImplFixed(m, tail, tailEls, dw, "", [], fill) else [];
      if tail != "" {
        TruncateFixedWidth(m, tail, tailEls, dw, "", [], fill);
      }
      var used := PiecesWidth(m, resultTail);
      WalkFixedWidth(m, items, dw, used, fill);
      PiecesWidthAppend(m, WalkFixed(m, items, dw, used, fill).pieces, resultTail);
    }
  }

  /** Corrected: without tail and fill, the visible text of the result is a prefix of the visible text of `s`. */
  lemma TruncateFixedPrefix(m: Metrics, s: string, els: seq<Element>, dw: nat)
    requires InBounds(els, |s|) && ValidMetrics(m)
    ensures IsPrefix(TextOf(TruncateImplFixed(m, s, els, dw, "", [], None)), StripAnsiCodes(s, els))
  {
    var items := AnsiStrings(s, els);
    if !Fits(m, s, els, dw) {
      var w := WalkFixed(m, items, dw, 0, None);
      WalkFixedPrefix(m, items, dw, 0);
      assert TruncateImplFixed(m, s, els, dw, "", [], None) == w.pieces + [];
      assert w.pieces + [] == w.pieces;
    }
  }

  /** Corrected: the escapes are kept exactly as the walk as written keeps them. */
  lemma TruncateFixedKeepsEscapes(m: Metrics, s: string, els: seq<Element>, dw: nat,
                                  tail: string, tailEls: seq<Element>, fill: Option<char>)
    requires InBounds(els, |s|) && InBounds(tailEls, |tail|)
    ensures Escapes(TruncateImplFixed(m, s, els, dw, tail, tailEls, fill))
      == Escapes(TruncateImpl(m, s, els, dw, tail, tailEls, fill))
  {
    TruncateKeepsEscapes(m, s, els, dw, tail, tailEls, fill);
    if !Fits(m, s, els, dw) {
      var items := AnsiStrings(s, els);
      var resultTail := if tail != "" then TruncateImplFixed(m, tail, tailEls, dw, "", [], fill) else [];
      WalkFixedKeepsEscapes(m, items, dw, PiecesWidth(m, resultTail), fill);
      EscapesAppend(WalkFixed(m, items, dw, PiecesWidth(m, resultTail), fill).pieces, resultTail);
      if tail != "" && !Fits(m, tail, tailEls, dw) {
        var tw := WalkFixed(m, AnsiStrings(tail, tailEls), dw, 0, fill);
        WalkFixedKeepsEscapes(m, AnsiStrings(tail, tailEls), dw, 0, fill);
        assert tw.pieces + [] == tw.pieces;
        assert resultTail == tw.pieces;
      }
    }
  }

  lemma {:induction false} WalkFixedKeepsEscapes(m: Metrics, items: seq<Piece>, dw: nat, used: nat, fill: Option<char>)
    ensures Escapes(WalkFixed(m, items, dw, used, fill).pieces) == Escapes(items)
    decreases |items|
  {
    if items != [] {
      var rest := items[1..];
      if items[0].isAnsi {
        WalkFixedKeepsEscapes(m, rest, dw, used, fill);
        EscapesAppend([items[0]], WalkFixed(m, rest, dw, used, fill).pieces);
      } else {
        var g := WalkGraphemes(m, m.graphemes(items[0].text), dw, used, fill);
        WalkGraphemesPlain(m, m.graphemes(items[0].text), dw, used, fill);
        EscapesOfPlain(g.pieces);
        if g.cut {
          EscapesOnlyFacts(m, rest);
          EscapesAppend(g.pieces, EscapesOnly(rest));
        } else {
          WalkFixedKeepsEscapes(m, rest, dw, g.used, fill);
          EscapesAppend(g.pieces, WalkFixed(m, rest, dw, g.used, fill).pieces);
        }
      }
    }
  }
}
