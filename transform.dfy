/**
 * The hyperlinking pass (src/transform.rs): every text span of a chunk is
 * searched with every rule, the matches are stable-sorted by start, and each
 * match that does not overlap an earlier link and passes the link test is
 * wrapped in an OSC 8 hyperlink; escape spans are copied through.
 *
 * The regex engine's `captures_iter` is a parameter (`CapturesIter`), and so
 * is the filesystem (`FileSystem`): whether a path exists and what it
 * canonicalises to.
 */
module Transform {
  import opened Wrappers
  import opened Seqs
  import opened Ansi
  import opened Rules

  // ---------------------------------------------------------------------
  // `str::parse::<u32>` and decimal formatting

  const U32Limit: nat := 0x1_0000_0000

  predicate AllDigits(ds: string)
  {
    forall k :: 0 <= k < |ds| ==> IsDigit(ds[k])
  }

  function DigitValue(c: char): (d: nat)
    requires IsDigit(c)
    ensures d < 10
  {
    c as int - '0' as int
  }

  /** The value of a string of decimal digits, most significant first. */
  function DecimalValue(ds: string): nat
    requires AllDigits(ds)
  {
    if ds == "" then 0 else 10 * DecimalValue(ds[..|ds| - 1]) + DigitValue(ds[|ds| - 1])
  }

  /** The digits that `parse::<u32>` reads: a leading `+` is skipped. */
  function UnsignedDigits(s: string): string
  {
    if |s| > 0 && s[0] == '+' then s[1..] else s
  }

  /** The digit scan of `parse`: the value of `ds` when every character is a digit. */
  function ScanDigits(ds: string): Option<nat>
  {
    if ds == "" then Some(0)
    else if !IsDigit(ds[|ds| - 1]) then None
    else
      match ScanDigits(ds[..|ds| - 1])
      case None => None
      case Some(v) => Some(10 * v + DigitValue(ds[|ds| - 1]))
  }

  /** The scan succeeds exactly on strings of digits, with their decimal value. */
  lemma {:induction false} ScanDigitsValue(ds: string)
    ensures ScanDigits(ds).Some? <==> AllDigits(ds)
    ensures ScanDigits(ds).Some? ==> ScanDigits(ds).value == DecimalValue(ds)
    decreases |ds|
  {
    if ds != "" {
      var init := ds[..|ds| - 1];
      ScanDigitsValue(init);
      assert forall k :: 0 <= k < |init| ==> init[k] == ds[k];
    }
  }

  /** `str::parse::<u32>`: an optional `+`, then at least one digit, with a value below 2^32. */
  function ParseU32(s: string): (r: Option<nat>)
    ensures r.Some? ==> r.value < U32Limit
  {
    var ds := UnsignedDigits(s);
    if ds == "" then None
    else
      match ScanDigits(ds)
      case None => None
      case Some(v) => if v < U32Limit then Some(v) else None
  }

  /** The parse accepts exactly an optional `+` and a non-empty digit string whose value is below 2^32, giving that value. */
  lemma ParseU32Spec(s: string)
    ensures var ds := UnsignedDigits(s);
      ParseU32(s) == if ds != "" && AllDigits(ds) && DecimalValue(ds) < U32Limit then Some(DecimalValue(ds)) else None
  {
    ScanDigitsValue(UnsignedDigits(s));
  }

  function DigitChar(d: nat): (c: char)
    requires d < 10
    ensures IsDigit(c) && DigitValue(c) == d
  {
    ('0' as int + d) as char
  }

  /** `format!("{}", n)`: the shortest decimal representation of `n`. */
  function DecimalString(n: nat): (s: string)
    ensures s != "" && AllDigits(s) && DecimalValue(s) == n
    ensures s[0] == '0' ==> n == 0 && s == "0"
    decreases n
  {
    if n < 10 then [DigitChar(n)]
    else
      var s := DecimalString(n / 10) + [DigitChar(n % 10)];
      assert s[..|s| - 1] == DecimalString(n / 10);
      s
  }

  function Pow10(k: nat): (p: nat)
    ensures p >= 1
  {
    if k == 0 then 1 else 10 * Pow10(k - 1)
  }

  lemma {:induction false} DecimalValueBound(ds: string)
    requires AllDigits(ds)
    ensures DecimalValue(ds) < Pow10(|ds|)
    decreases |ds|
  {
    if ds != "" {
      DecimalValueBound(ds[..|ds| - 1]);
    }
  }

  lemma {:induction false} Pow10Monotone(a: nat, b: nat)
    requires a <= b
    ensures Pow10(a) <= Pow10(b)
    decreases b - a
  {
    if a < b {
      Pow10Monotone(a, b - 1);
    }
  }

  /** Formatting a line number and parsing it back gives the number again. */
  lemma ParseDecimalString(n: nat)
    requires n < U32Limit
    ensures ParseU32(DecimalString(n)) == Some(n)
  {
    ParseU32Spec(DecimalString(n));
  }

  /** Every run of one to nine digits, the shape `\d+` captures in practice, parses to its value. */
  lemma ShortDigitsParse(ds: string)
    requires 0 < |ds| <= 9 && AllDigits(ds)
    ensures ParseU32(ds) == Some(DecimalValue(ds))
  {
    ParseU32Spec(ds);
    DecimalValueBound(ds);
    Pow10Monotone(|ds|, 9);
    assert Pow10(9) == 1000000000;
  }

  /** A leading zero does not change the parsed value. */
  lemma {:induction false} LeadingZeroValue(ds: string)
    requires AllDigits(ds)
    ensures AllDigits("0" + ds) && DecimalValue("0" + ds) == DecimalValue(ds)
    decreases |ds|
  {
    if ds != "" {
      var z := "0" + ds;
      assert z[..|z| - 1] == "0" + ds[..|ds| - 1];
      LeadingZeroValue(ds[..|ds| - 1]);
    }
  }

  lemma LeadingZeroParse(ds: string)
    requires ds != "" && AllDigits(ds)
    ensures ParseU32("0" + ds) == ParseU32(ds)
  {
    ParseU32Spec("0" + ds);
    ParseU32Spec(ds);
    LeadingZeroValue(ds);
  }

  /** Anything but a digit after the optional sign makes the parse fail. */
  lemma ParseRejectsNonDigit(s: string, k: nat)
    requires k < |UnsignedDigits(s)| && !IsDigit(UnsignedDigits(s)[k])
    ensures ParseU32(s) == None
  {
    ParseU32Spec(s);
  }

  // ---------------------------------------------------------------------
  // collect_matches

  datatype MatchInfo = MatchInfo(start: nat, end: nat, text: string, path: string, line: nat, ruleName: string)

  /** `m` is a match in haystack `t`: its span lies in `t` and its text is that span. */
  predicate WithinText(t: string, m: MatchInfo)
  {
    m.start <= m.end <= |t| && m.text == t[m.start..m.end]
  }

  /** `caps.get(i)`. */
  function GetGroup(caps: Captures, i: nat): (r: Option<Group>)
    ensures r.Some? ==> i < |caps| && r == caps[i]
  {
    if i < |caps| then caps[i] else None
  }

  /** The line group of a rule in a match: absent when the rule has no line group. */
  function LineGroupOf(rule: CompiledRule, caps: Captures): Option<Group>
  {
    if rule.lineGroupIndex.Some? then GetGroup(caps, rule.lineGroupIndex.value) else None
  }

  /** What the regex engine guarantees: every captured group is a span of the haystack. */
  predicate GroupsWithin(caps: Captures, n: nat)
  {
    forall i :: 0 <= i < |caps| && caps[i].Some? ==> InText(caps[i].value, n)
  }

  /** Group `g` is a span of a haystack of length `n`. */
  predicate InText(g: Group, n: nat)
  {
    g.start <= g.end <= n
  }

  function Span(t: string, g: Group): string
    requires InText(g, |t|)
  {
    t[g.start..g.end]
  }

  /** `Regex::captures_iter`: the successive matches of a compiled pattern in a haystack. */
  type CapturesIter = (Regex, string) -> seq<Captures>

  /**
   * The body of `collect_matches` for one match: recorded only when the
   * whole match, the path group and the line group are all present, the
   * line parses as a `u32`, and the path is not empty. A group outside the
   * haystack, which a regex engine never reports, is treated as absent.
   */
  function MatchOf(rule: CompiledRule, t: string, caps: Captures): (r: Option<MatchInfo>)
    ensures r.Some? ==> WithinText(t, r.value) && r.value.path != "" && r.value.line < U32Limit && r.value.ruleName == rule.name
  {
    var whole, path, line := GetGroup(caps, 0), GetGroup(caps, rule.pathGroupIndex), LineGroupOf(rule, caps);
    if whole.None? || path.None? || line.None? then None
    else if !InText(whole.value, |t|) || !InText(path.value, |t|) || !InText(line.value, |t|) then None
    else
      match ParseU32(Span(t, line.value))
      case None => None
      case Some(n) =>
        if Span(t, path.value) != "" then
          Some(MatchInfo(whole.value.start, whole.value.end, Span(t, whole.value), Span(t, path.value), n, rule.name))
        else None
  }

  /**
   * A match is recorded exactly when the whole match, the path group and
   * the line group are present, the line parses and the path is not empty;
   * its span and text are group 0's, its path the path group's text.
   */
  lemma MatchOfRecords(rule: CompiledRule, t: string, caps: Captures)
    requires GroupsWithin(caps, |t|)
    ensures MatchOf(rule, t, caps).Some? <==>
      && GetGroup(caps, 0).Some? && GetGroup(caps, rule.pathGroupIndex).Some? && LineGroupOf(rule, caps).Some?
      && ParseU32(Span(t, LineGroupOf(rule, caps).value)).Some?
      && Span(t, GetGroup(caps, rule.pathGroupIndex).value) != ""
    ensures MatchOf(rule, t, caps).Some? ==>
      var m := MatchOf(rule, t, caps).value;
      && Group(m.start, m.end) == GetGroup(caps, 0).value
      && m.path == Span(t, GetGroup(caps, rule.pathGroupIndex).value)
      && Some(m.line) == ParseU32(Span(t, LineGroupOf(rule, caps).value))
  {
  }

  /** The matches `collect_matches` records from the successive captures `cs`, in order. */
  function Collected(rule: CompiledRule, t: string, cs: seq<Captures>): (ms: seq<MatchInfo>)
    ensures |ms| <= |cs|
    decreases |cs|
  {
    if cs == [] then []
    else
      Collected(rule, t, cs[..|cs| - 1])
        + match MatchOf(rule, t, cs[|cs| - 1]) case None => [] case Some(m) => [m]
  }

  /** Every recorded match lies in the haystack, has a non-empty path and a `u32` line, and carries the rule's name. */
  lemma {:induction false} CollectedFit(rule: CompiledRule, t: string, cs: seq<Captures>)
    ensures MatchesFit(t, Collected(rule, t, cs))
    ensures forall m :: m in Collected(rule, t, cs) ==> m.path != "" && m.ruleName == rule.name
    decreases |cs|
  {
    if cs != [] {
      CollectedSnoc(rule, t, cs);
      CollectedFit(rule, t, cs[..|cs| - 1]);
    }
  }

  /** Capture `i` of `cs` yields the match `m`. */
  predicate YieldsAt(rule: CompiledRule, t: string, cs: seq<Captures>, i: int, m: MatchInfo)
  {
    0 <= i < |cs| && MatchOf(rule, t, cs[i]) == Some(m)
  }

  /** The matches one capture contributes: none or one. */
  function Recorded(rule: CompiledRule, t: string, caps: Captures): (ms: seq<MatchInfo>)
    ensures |ms| <= 1
  {
    match MatchOf(rule, t, caps) case None => [] case Some(m) => [m]
  }

  lemma CollectedSnoc(rule: CompiledRule, t: string, cs: seq<Captures>)
    requires cs != []
    ensures Collected(rule, t, cs) == Collected(rule, t, cs[..|cs| - 1]) + Recorded(rule, t, cs[|cs| - 1])
  {
  }

  /** Every match a capture yields is recorded. */
  lemma {:induction false} CollectedComplete(rule: CompiledRule, t: string, cs: seq<Captures>, i: int, m: MatchInfo)
    requires YieldsAt(rule, t, cs, i, m)
    ensures m in Collected(rule, t, cs)
    decreases |cs|
  {
    var n := |cs| - 1;
    CollectedSnoc(rule, t, cs);
    if i < n {
      var init := cs[..n];
      assert init[i] == cs[i];
      assert YieldsAt(rule, t, init, i, m);
      CollectedComplete(rule, t, init, i, m);
      assert m in Collected(rule, t, init);
    } else {
      assert Recorded(rule, t, cs[n]) == [m];
    }
  }

  /** Every recorded match is yielded by some capture. */
  lemma {:induction false} CollectedSound(rule: CompiledRule, t: string, cs: seq<Captures>, m: MatchInfo)
    requires m in Collected(rule, t, cs)
    ensures exists i :: YieldsAt(rule, t, cs, i, m)
    decreases |cs|
  {
    var n := |cs| - 1;
    CollectedSnoc(rule, t, cs);
    if m in Collected(rule, t, cs[..n]) {
      CollectedSound(rule, t, cs[..n], m);
      var i :| YieldsAt(rule, t, cs[..n], i, m);
      assert cs[..n][i] == cs[i];
      assert YieldsAt(rule, t, cs, i, m);
    } else {
      assert m in Recorded(rule, t, cs[n]);
      assert YieldsAt(rule, t, cs, n, m);
    }
  }

  /** A match is recorded exactly when one of the captures yields it. */
  lemma CollectedExactly(rule: CompiledRule, t: string, cs: seq<Captures>, m: MatchInfo)
    ensures m in Collected(rule, t, cs) <==> exists i :: YieldsAt(rule, t, cs, i, m)
  {
    if m in Collected(rule, t, cs) {
      CollectedSound(rule, t, cs, m);
    }
    if exists i :: YieldsAt(rule, t, cs, i, m) {
      var i :| YieldsAt(rule, t, cs, i, m);
      CollectedComplete(rule, t, cs, i, m);
    }
  }

  /** Matches from earlier captures come before matches from later ones. */
  lemma {:induction false} CollectedAppend(rule: CompiledRule, t: string, a: seq<Captures>, b: seq<Captures>)
    ensures Collected(rule, t, a + b) == Collected(rule, t, a) + Collected(rule, t, b)
    decreases |b|
  {
    if b == [] {
      assert a + b == a;
    } else {
      var b' := b[..|b| - 1];
      assert (a + b)[..|a + b| - 1] == a + b';
      assert (a + b)[|a + b| - 1] == b[|b| - 1];
      CollectedAppend(rule, t, a, b');
    }
  }

  /** A rule without a line group never records a match. */
  lemma {:induction false} CollectedNeedsLineGroup(rule: CompiledRule, t: string, cs: seq<Captures>)
    requires rule.lineGroupIndex.None?
    ensures Collected(rule, t, cs) == []
    decreases |cs|
  {
    if cs != [] {
      CollectedNeedsLineGroup(rule, t, cs[..|cs| - 1]);
    }
  }

  /** `collect_matches`: push the recorded matches of one rule onto `matches`. */
  method CollectMatches(rule: CompiledRule, t: string, iter: CapturesIter, matches: seq<MatchInfo>)
    returns (out: seq<MatchInfo>)
    ensures out == matches + Collected(rule, t, iter(rule.regex, t))
  {
    var cs := iter(rule.regex, t);
    out := matches;
    for i := 0 to |cs|
      invariant out == matches + Collected(rule, t, cs[..i])
    {
      assert cs[..i + 1][..i] == cs[..i];
      match MatchOf(rule, t, cs[i]) {
        case None =>
        case Some(m) =>
          out := out + [m];
      }
    }
    assert cs[..|cs|] == cs;
  }

  /** The matches one rule contributes to a text segment. */
  function RuleMatches(t: string, iter: CapturesIter): CompiledRule -> seq<MatchInfo>
  {
    (rule: CompiledRule) => Collected(rule, t, iter(rule.regex, t))
  }

  /** The matches of every rule in a text segment, rule after rule. */
  function AllMatches(rules: seq<CompiledRule>, t: string, iter: CapturesIter): seq<MatchInfo>
  {
    ConcatMap(rules, RuleMatches(t, iter))
  }

  /** One more rule adds its own matches at the end. */
  lemma AllMatchesSnoc(rules: seq<CompiledRule>, rule: CompiledRule, t: string, iter: CapturesIter)
    ensures AllMatches(rules + [rule], t, iter) == AllMatches(rules, t, iter) + Collected(rule, t, iter(rule.regex, t))
  {
    ConcatMapAppend(rules, [rule], RuleMatches(t, iter));
    ConcatMapSingle(rule, RuleMatches(t, iter));
  }

  /** Every match of every rule lies in the segment, with a non-empty path and a `u32` line, and comes from one of the rules. */
  lemma {:induction false} AllMatchesFit(rules: seq<CompiledRule>, t: string, iter: CapturesIter)
    ensures MatchesFit(t, AllMatches(rules, t, iter))
    ensures forall m :: m in AllMatches(rules, t, iter) ==> m.path != "" && exists r :: r in rules && m.ruleName == r.name
    decreases |rules|
  {
    if rules != [] {
      var init, rule := rules[..|rules| - 1], rules[|rules| - 1];
      AllMatchesFit(init, t, iter);
      AllMatchesSnoc(init, rule, t, iter);
      assert init + [rule] == rules;
      CollectedFit(rule, t, iter(rule.regex, t));
      assert rule in rules;
      assert forall r :: r in init ==> r in rules;
    }
  }

  /** The matches of two rule lists in a row are those of the first, then those of the second. */
  lemma AllMatchesAppend(r1: seq<CompiledRule>, r2: seq<CompiledRule>, t: string, iter: CapturesIter)
    ensures AllMatches(r1 + r2, t, iter) == AllMatches(r1, t, iter) + AllMatches(r2, t, iter)
  {
    ConcatMapAppend(r1, r2, RuleMatches(t, iter));
  }

  // ---------------------------------------------------------------------
  // `sort_by_key(|m| m.start)`: a stable sort

  predicate SortedByStart(ms: seq<MatchInfo>)
  {
    forall i, j :: 0 <= i < j < |ms| ==> ms[i].start <= ms[j].start
  }

  /** Insert `m` after every element whose start is not greater. */
  function InsertByStart(m: MatchInfo, s: seq<MatchInfo>): seq<MatchInfo>
    decreases |s|
  {
    if s == [] then [m]
    else if m.start < s[0].start then [m] + s
    else [s[0]] + InsertByStart(m, s[1..])
  }

  lemma {:induction false} InsertPermutes(m: MatchInfo, s: seq<MatchInfo>)
    ensures multiset(InsertByStart(m, s)) == multiset(s) + multiset{m}
    decreases |s|
  {
    if s != [] && m.start >= s[0].start {
      InsertPermutes(m, s[1..]);
      assert s == [s[0]] + s[1..];
    }
  }

  /** Inserting keeps a lower bound that `m` and all of `s` respect. */
  lemma {:induction false} InsertLowerBound(m: MatchInfo, s: seq<MatchInfo>, b: nat)
    requires b <= m.start && forall i :: 0 <= i < |s| ==> b <= s[i].start
    ensures forall i :: 0 <= i < |InsertByStart(m, s)| ==> b <= InsertByStart(m, s)[i].start
    decreases |s|
  {
    if s != [] && m.start >= s[0].start {
      InsertLowerBound(m, s[1..], b);
      var tail := InsertByStart(m, s[1..]);
      assert forall i :: 1 <= i < |[s[0]] + tail| ==> ([s[0]] + tail)[i] == tail[i - 1];
    }
  }

  lemma SortedCons(x: MatchInfo, s: seq<MatchInfo>)
    requires SortedByStart(s) && forall i :: 0 <= i < |s| ==> x.start <= s[i].start
    ensures SortedByStart([x] + s)
  {
    var r := [x] + s;
    forall i, j | 0 <= i < j < |r|
      ensures r[i].start <= r[j].start
    {
      assert r[j] == s[j - 1];
      if i > 0 {
        assert r[i] == s[i - 1];
      }
    }
  }

  lemma {:induction false} InsertSorted(m: MatchInfo, s: seq<MatchInfo>)
    requires SortedByStart(s)
    ensures SortedByStart(InsertByStart(m, s))
    decreases |s|
  {
    if s == [] {
    } else if m.start < s[0].start {
      SortedCons(m, s);
    } else {
      assert SortedByStart(s[1..]);
      InsertSorted(m, s[1..]);
      InsertLowerBound(m, s[1..], s[0].start);
      SortedCons(s[0], InsertByStart(m, s[1..]));
    }
  }

  /** The stable sort by start: a sorted permutation. */
  function SortByStart(ms: seq<MatchInfo>): seq<MatchInfo>
    decreases |ms|
  {
    if ms == [] then []
    else InsertByStart(ms[|ms| - 1], SortByStart(ms[..|ms| - 1]))
  }

  /** The sort orders the matches by start and is a permutation of its input. */
  lemma {:induction false} SortByStartSpec(ms: seq<MatchInfo>)
    ensures SortedByStart(SortByStart(ms))
    ensures multiset(SortByStart(ms)) == multiset(ms)
    decreases |ms|
  {
    if ms != [] {
      var init, last := ms[..|ms| - 1], ms[|ms| - 1];
      SortByStartSpec(init);
      InsertSorted(last, SortByStart(init));
      InsertPermutes(last, SortByStart(init));
      assert ms == init + [last];
    }
  }

  /** Sorting keeps every match, so it keeps what holds of each. */
  lemma SortedFits(t: string, ms: seq<MatchInfo>)
    requires MatchesFit(t, ms)
    ensures MatchesFit(t, SortByStart(ms))
  {
    var r := SortByStart(ms);
    SortByStartSpec(ms);
    forall m | m in r ensures m in ms { assert m in multiset(r); }
  }

  /** The matches that start at `k`, in order. */
  function WithStart(ms: seq<MatchInfo>, k: nat): seq<MatchInfo>
  {
    ConcatMap(ms, StartsAt(k))
  }

  function StartsAt(k: nat): MatchInfo -> seq<MatchInfo>
  {
    (m: MatchInfo) => if m.start == k then [m] else []
  }

  lemma WithStartAppend(a: seq<MatchInfo>, b: seq<MatchInfo>, k: nat)
    ensures WithStart(a + b, k) == WithStart(a, k) + WithStart(b, k)
  {
    ConcatMapAppend(a, b, StartsAt(k));
  }

  lemma {:induction false} WithStartNone(s: seq<MatchInfo>, k: nat)
    requires forall i :: 0 <= i < |s| ==> s[i].start > k
    ensures WithStart(s, k) == []
    decreases |s|
  {
    if s != [] {
      WithStartNone(s[1..], k);
    }
  }

  lemma {:induction false} InsertWithStart(m: MatchInfo, s: seq<MatchInfo>, k: nat)
    requires SortedByStart(s)
    ensures WithStart(InsertByStart(m, s), k) == WithStart(s, k) + (if m.start == k then [m] else [])
    decreases |s|
  {
    if s == [] {
      ConcatMapSingle(m, StartsAt(k));
    } else if m.start < s[0].start {
      WithStartNone(s, m.start);
      assert ([m] + s)[1..] == s;
      if m.start != k {
        assert WithStart([m] + s, k) == WithStart(s, k);
      }
    } else {
      InsertWithStart(m, s[1..], k);
      var r := [s[0]] + InsertByStart(m, s[1..]);
      assert r[1..] == InsertByStart(m, s[1..]);
    }
  }

  /** Inserting the next match into the sorted prefix keeps the matches with start `k` in their original order. */
  lemma StableStep(init: seq<MatchInfo>, last: MatchInfo, k: nat)
    requires WithStart(SortByStart(init), k) == WithStart(init, k)
    ensures WithStart(InsertByStart(last, SortByStart(init)), k) == WithStart(init + [last], k)
  {
    var s := SortByStart(init);
    SortByStartSpec(init);
    InsertWithStart(last, s, k);
    WithStartAppend(init, [last], k);
    ConcatMapSingle(last, StartsAt(k));
  }

  /** Stability: among the matches with one start, the sort keeps their original order. */
  lemma {:induction false} SortStable(ms: seq<MatchInfo>, k: nat)
    ensures WithStart(SortByStart(ms), k) == WithStart(ms, k)
    decreases |ms|
  {
    if ms != [] {
      var init, last := ms[..|ms| - 1], ms[|ms| - 1];
      assert init + [last] == ms;
      assert SortByStart(ms) == InsertByStart(last, SortByStart(init));
      SortStable(init, k);
      StableStep(init, last, k);
    }
  }


  /** Matches of earlier rules come first among the sorted matches with one start. */
  lemma RuleOrderAtEqualStart(r1: seq<CompiledRule>, r2: seq<CompiledRule>, t: string, iter: CapturesIter, k: nat)
    ensures WithStart(SortByStart(AllMatches(r1 + r2, t, iter)), k)
         == WithStart(AllMatches(r1, t, iter), k) + WithStart(AllMatches(r2, t, iter), k)
  {
    SortStable(AllMatches(r1 + r2, t, iter), k);
    AllMatchesAppend(r1, r2, t, iter);
    WithStartAppend(AllMatches(r1, t, iter), AllMatches(r2, t, iter), k);
  }

  // ---------------------------------------------------------------------
  // resolve_path, the link test and the two formatters

  /** `Path::is_absolute` on Unix. */
  predicate IsAbsolute(p: string)
  {
    |p| > 0 && p[0] == '/'
  }

  /** `Path::join` on Unix: an absolute path replaces the base; otherwise a separator is added when needed. */
  function JoinPath(base: string, p: string): string
  {
    if IsAbsolute(p) then p
    else if base == "" || base[|base| - 1] == '/' then base + p
    else base + "/" + p
  }

  /** A relative path is appended to the base, with exactly one separator between them when the base is not empty. */
  lemma JoinPathShape(base: string, p: string)
    ensures IsAbsolute(p) ==> JoinPath(base, p) == p
    ensures !IsAbsolute(p) ==> |base| + |p| <= |JoinPath(base, p)| <= |base| + 1 + |p|
    ensures !IsAbsolute(p) ==> JoinPath(base, p)[..|base|] == base && JoinPath(base, p)[|JoinPath(base, p)| - |p|..] == p
    ensures !IsAbsolute(p) && base != "" ==> '/' in JoinPath(base, p)[|base| - 1..|JoinPath(base, p)| - |p|]
  {
    var r := JoinPath(base, p);
    if !IsAbsolute(p) && base != "" {
      if base[|base| - 1] == '/' {
        assert r[|base| - 1..|r| - |p|][0] == base[|base| - 1];
      } else {
        assert r[|base|] == '/' && r[|base| - 1..|r| - |p|][1] == r[|base|];
      }
    }
  }

  /** `resolve_path`: an absolute path unchanged, any other joined to the working directory. */
  function ResolvePath(cwd: string, p: string): string
  {
    if IsAbsolute(p) then p else JoinPath(cwd, p)
  }

  /**
   * Resolution keeps an absolute path, agrees with `Path::join` (so its own
   * absolute-path branch changes nothing), and stays absolute under an
   * absolute working directory.
   */
  lemma ResolvePathSpec(cwd: string, p: string)
    ensures IsAbsolute(p) ==> ResolvePath(cwd, p) == p
    ensures ResolvePath(cwd, p) == JoinPath(cwd, p)
    ensures IsAbsolute(cwd) ==> IsAbsolute(ResolvePath(cwd, p))
  {
    JoinPathShape(cwd, p);
    if IsAbsolute(cwd) && !IsAbsolute(p) {
      assert ResolvePath(cwd, p)[0] == ResolvePath(cwd, p)[..|cwd|][0];
    }
  }

  /** The two filesystem queries. */
  datatype FileSystem = FileSystem(fileExists: string -> bool, canonicalize: string -> Option<string>)

  /** The link heuristic. */
  predicate ShouldLink(fs: FileSystem, full: string, path: string)
  {
    fs.fileExists(full) || '/' in path || (|path| > 0 && path[0] == '.') || IsAbsolute(path)
  }

  /** An absolute path contains `/`, so the absolute-path test never decides the outcome. */
  lemma ShouldLinkWithoutAbsolute(fs: FileSystem, full: string, path: string)
    ensures ShouldLink(fs, full, path) <==> fs.fileExists(full) || '/' in path || (|path| > 0 && path[0] == '.')
  {
    if IsAbsolute(path) {
      assert path[0] in path;
    }
  }

  const CursorScheme: string := "cursor://file/"

  /** The path a link points to: the canonical path, or the resolved one when canonicalisation fails. */
  function LinkTarget(fs: FileSystem, full: string): (target: string)
    ensures fs.canonicalize(full).Some? ==> target == fs.canonicalize(full).value
    ensures fs.canonicalize(full).None? ==> target == full
  {
    match fs.canonicalize(full)
    case Some(c) => c
    case None => full
  }

  /** `format_cursor_hyperlink`. */
  function FormatCursorHyperlink(fs: FileSystem, full: string, line: nat): string
  {
    CursorScheme + LinkTarget(fs, full) + ":" + DecimalString(line)
  }

  /** A link URL is the scheme, the target, a colon and the line, which parses back. */
  lemma CursorHyperlinkParts(fs: FileSystem, full: string, line: nat)
    requires line < U32Limit
    ensures var url, target := FormatCursorHyperlink(fs, full, line), LinkTarget(fs, full);
      && |url| == |CursorScheme| + |target| + 1 + |DecimalString(line)|
      && url[..|CursorScheme|] == CursorScheme
      && url[|CursorScheme|..|CursorScheme| + |target|] == target
      && url[|CursorScheme| + |target|] == ':'
      && ParseU32(url[|CursorScheme| + |target| + 1..]) == Some(line)
  {
    var target := LinkTarget(fs, full);
    var url := FormatCursorHyperlink(fs, full, line);
    assert url[|CursorScheme| + |target| + 1..] == DecimalString(line);
    ParseDecimalString(line);
  }

  const Osc8Close: string := "\U{1B}]8;;\U{1B}\\"

  function Osc8Open(url: string): string
  {
    "\U{1B}]8;;" + url + "\U{1B}\\"
  }

  /** `format_osc8_hyperlink`. */
  function FormatOsc8Hyperlink(url: string, text: string): string
  {
    Osc8Open(url) + text + Osc8Close
  }

  /** A hyperlink is the text between an OSC 8 open carrying the URL and an OSC 8 close. */
  lemma Osc8Parts(url: string, text: string)
    ensures var r := FormatOsc8Hyperlink(url, text);
      && |r| == |Osc8Open(url)| + |text| + |Osc8Close|
      && r[..|Osc8Open(url)|] == Osc8Open(url)
      && r[|Osc8Open(url)|..|Osc8Open(url)| + |text|] == text
      && r[|Osc8Open(url)| + |text|..] == Osc8Close
  {
  }

  /** Tokenised as an OSC, the text and an OSC, a link strips and measures as its text. */
  lemma LinkInvisible(m: Metrics, url: string, text: string, els: seq<Element>)
    requires InBounds(els, |text|)
    ensures var w := FormatOsc8Hyperlink(url, text);
      var wEls := [Osc(0, |Osc8Open(url)|)]
        + seq(|els|, i requires 0 <= i < |els| => ShiftElement(els[i], |Osc8Open(url)|))
        + [Osc(|Osc8Open(url)| + |text|, |w|)];
      && InBounds(wEls, |w|)
      && StripAnsiCodes(w, wEls) == StripAnsiCodes(text, els)
      && MeasureTextWidth(m, w, wEls) == MeasureTextWidth(m, text, els)
  {
    OscWrapInvisible(m, text, els, Osc8Open(url), Osc8Close);
  }

  // ---------------------------------------------------------------------
  // Match selection and output assembly

  datatype Env = Env(cwd: string, fs: FileSystem)

  /** The link test for a match: its path resolved against the working directory. */
  predicate Linkable(env: Env, m: MatchInfo)
  {
    ShouldLink(env.fs, ResolvePath(env.cwd, m.path), m.path)
  }

  /**
   * The greedy selection over the sorted matches: a match is linked when it
   * starts at or after the end of the last linked match and passes the link
   * test; a match that fails the test leaves `last` where it was.
   */
  function Accepted(env: Env, ms: seq<MatchInfo>, last: nat): seq<MatchInfo>
    decreases |ms|
  {
    if ms == [] then []
    else
      var m := ms[0];
      if m.start >= last && Linkable(env, m) then [m] + Accepted(env, ms[1..], m.end)
      else Accepted(env, ms[1..], last)
  }

  /** The selection only keeps matches that pass the link test, and never more than it is given. */
  lemma {:induction false} AcceptedLinkable(env: Env, ms: seq<MatchInfo>, last: nat)
    ensures forall m :: m in Accepted(env, ms, last) ==> m in ms && Linkable(env, m)
    ensures |Accepted(env, ms, last)| <= |ms|
    decreases |ms|
  {
    if ms != [] {
      var m := ms[0];
      assert forall x :: x in ms[1..] ==> x in ms;
      if m.start >= last && Linkable(env, m) {
        AcceptedLinkable(env, ms[1..], m.end);
      } else {
        AcceptedLinkable(env, ms[1..], last);
      }
    }
  }

  /** `acc` lie in `t` in order, each starting at or after the end of the one before (and `last`). */
  predicate Chain(t: string, acc: seq<MatchInfo>, last: nat)
    decreases |acc|
  {
    last <= |t| && (acc != [] ==> last <= acc[0].start && WithinText(t, acc[0]) && Chain(t, acc[1..], acc[0].end))
  }

  lemma {:induction false} AcceptedChain(env: Env, t: string, ms: seq<MatchInfo>, last: nat)
    requires last <= |t| && forall m :: m in ms ==> WithinText(t, m)
    ensures Chain(t, Accepted(env, ms, last), last)
    decreases |ms|
  {
    if ms != [] {
      assert ms[0] in ms;
      assert forall m :: m in ms[1..] ==> m in ms;
      if ms[0].start >= last && Linkable(env, ms[0]) {
        AcceptedChain(env, t, ms[1..], ms[0].end);
        assert Accepted(env, ms, last)[1..] == Accepted(env, ms[1..], ms[0].end);
      } else {
        AcceptedChain(env, t, ms[1..], last);
      }
    }
  }

  /** The linked matches are pairwise disjoint and in ascending order. */
  lemma {:induction false} ChainOrdered(t: string, acc: seq<MatchInfo>, last: nat)
    requires Chain(t, acc, last)
    ensures forall i :: 0 <= i < |acc| ==> last <= acc[i].start <= acc[i].end <= |t|
    ensures forall i, j :: 0 <= i < j < |acc| ==> acc[i].end <= acc[j].start
    decreases |acc|
  {
    if acc != [] {
      ChainOrdered(t, acc[1..], acc[0].end);
      forall i, j | 0 <= i < j < |acc|
        ensures acc[i].end <= acc[j].start
      {
        assert acc[j] == acc[1..][j - 1];
        if i > 0 {
          assert acc[i] == acc[1..][i - 1];
        }
      }
    }
  }

  /** An output piece: text copied through, a hyperlinked match, or an escape copied through. */
  datatype Chunk = Plain(text: string) | Link(url: string, text: string) | Control(text: string)

  function RenderChunk(c: Chunk): string
  {
    match c
    case Link(url, text) => FormatOsc8Hyperlink(url, text)
    case _ => c.text
  }

  /** The output string. */
  function Render(cs: seq<Chunk>): string
  {
    ConcatMap(cs, RenderChunk)
  }

  function ChunkText(c: Chunk): string
  {
    c.text
  }

  /** The output with every hyperlink wrapper deleted. */
  function Visible(cs: seq<Chunk>): string
  {
    ConcatMap(cs, ChunkText)
  }

  function ControlText(c: Chunk): seq<string>
  {
    if c.Control? then [c.text] else []
  }

  /** The escapes copied through, in order. */
  function Controls(cs: seq<Chunk>): seq<string>
  {
    ConcatMap(cs, ControlText)
  }

  predicate HasLink(cs: seq<Chunk>)
  {
    exists i :: 0 <= i < |cs| && cs[i].Link?
  }

  lemma RenderAppend(a: seq<Chunk>, b: seq<Chunk>)
    ensures Render(a + b) == Render(a) + Render(b)
    ensures Visible(a + b) == Visible(a) + Visible(b)
    ensures Controls(a + b) == Controls(a) + Controls(b)
  {
    ConcatMapAppend(a, b, RenderChunk);
    ConcatMapAppend(a, b, ChunkText);
    ConcatMapAppend(a, b, ControlText);
  }

  /** Without hyperlinks the output is the visible text. */
  lemma {:induction false} RenderWithoutLinks(cs: seq<Chunk>)
    requires !HasLink(cs)
    ensures Render(cs) == Visible(cs)
    decreases |cs|
  {
    if cs != [] {
      assert !cs[0].Link?;
      forall i | 0 <= i < |cs[1..]|
        ensures !cs[1..][i].Link?
      {
        assert cs[1..][i] == cs[i + 1];
      }
      RenderWithoutLinks(cs[1..]);
    }
  }

  /** The URL of a linked match. */
  function LinkUrl(env: Env, m: MatchInfo): string
    requires m.line < U32Limit
  {
    FormatCursorHyperlink(env.fs, ResolvePath(env.cwd, m.path), m.line)
  }

  predicate LinesInRange(ms: seq<MatchInfo>)
  {
    forall m :: m in ms ==> m.line < U32Limit
  }

  /** The output of one text segment for the chosen matches: the gaps unchanged, each match linked. */
  function Emit(env: Env, t: string, acc: seq<MatchInfo>, last: nat): (cs: seq<Chunk>)
    requires Chain(t, acc, last) && LinesInRange(acc)
    decreases |acc|
  {
    if acc == [] then [Plain(t[last..])]
    else
      var m := acc[0];
      [Plain(t[last..m.start]), Link(LinkUrl(env, m), m.text)] + Emit(env, t, acc[1..], m.end)
  }

  /** A chosen match contributes its gap and its link, and the rest starts at its end. */
  lemma EmitStep(env: Env, t: string, acc: seq<MatchInfo>, last: nat)
    requires acc != [] && Chain(t, acc, last) && LinesInRange(acc)
    ensures Chain(t, acc[1..], acc[0].end) && LinesInRange(acc[1..])
    ensures last <= acc[0].start <= acc[0].end <= |t| && acc[0].line < U32Limit
    ensures Emit(env, t, acc, last)
         == [Plain(t[last..acc[0].start]), Link(LinkUrl(env, acc[0]), acc[0].text)] + Emit(env, t, acc[1..], acc[0].end)
  {
    assert acc[0] in acc;
    assert forall x :: x in acc[1..] ==> x in acc;
  }

  /** Deleting the wrappers from a segment's output gives back the segment. */
  lemma {:induction false} EmitVisible(env: Env, t: string, acc: seq<MatchInfo>, last: nat)
    requires Chain(t, acc, last) && LinesInRange(acc)
    ensures Visible(Emit(env, t, acc, last)) == t[last..]
    decreases |acc|
  {
    if acc == [] {
      ConcatMapSingle(Plain(t[last..]), ChunkText);
    } else {
      var m := acc[0];
      EmitStep(env, t, acc, last);
      EmitVisible(env, t, acc[1..], m.end);
      var gap, link, rest := Plain(t[last..m.start]), Link(LinkUrl(env, m), m.text), Emit(env, t, acc[1..], m.end);
      ConcatMapPair(gap, link, rest, ChunkText);
      SliceThree(t, last, m.start, m.end);
    }
  }

  /** The emitted segment holds no escape chunk. */
  lemma {:induction false} EmitNoControls(env: Env, t: string, acc: seq<MatchInfo>, last: nat)
    requires Chain(t, acc, last) && LinesInRange(acc)
    ensures Controls(Emit(env, t, acc, last)) == []
    decreases |acc|
  {
    if acc == [] {
      ConcatMapSingle(Plain(t[last..]), ControlText);
    } else {
      var m := acc[0];
      EmitStep(env, t, acc, last);
      EmitNoControls(env, t, acc[1..], m.end);
      var gap, link, rest := Plain(t[last..m.start]), Link(LinkUrl(env, m), m.text), Emit(env, t, acc[1..], m.end);
      ConcatMapPair(gap, link, rest, ControlText);
    }
  }

  /** Each chosen match becomes a link whose text is the match and whose URL is built from its path and line. */
  lemma {:induction false} EmitLinks(env: Env, t: string, acc: seq<MatchInfo>, last: nat)
    requires Chain(t, acc, last) && LinesInRange(acc)
    ensures forall m :: m in acc ==> Link(LinkUrl(env, m), m.text) in Emit(env, t, acc, last)
    ensures forall c :: c in Emit(env, t, acc, last) && c.Link? ==> exists m :: m in acc && c == Link(LinkUrl(env, m), m.text)
    decreases |acc|
  {
    if acc != [] {
      var m := acc[0];
      EmitStep(env, t, acc, last);
      EmitLinks(env, t, acc[1..], m.end);
      var gap, link, rest := Plain(t[last..m.start]), Link(LinkUrl(env, m), m.text), Emit(env, t, acc[1..], m.end);
      var cs := [gap, link] + rest;
      assert forall c :: c in cs <==> c == gap || c == link || c in rest;
      assert forall x :: x in acc <==> x == m || x in acc[1..];
    }
  }

  /** The output of one text segment. */
  function SegmentChunks(env: Env, rules: seq<CompiledRule>, iter: CapturesIter, t: string): seq<Chunk>
  {
    var ms := SortByStart(AllMatches(rules, t, iter));
    AllMatchesFit(rules, t, iter);
    SortedFits(t, AllMatches(rules, t, iter));
    AcceptedLines(env, t, ms, 0);
    Emit(env, t, Accepted(env, ms, 0), 0)
  }

  /** The output for one element: a text span through the rules, an escape verbatim. */
  function ElementChunks(env: Env, rules: seq<CompiledRule>, iter: CapturesIter, chunk: string, e: Element): seq<Chunk>
    requires e.start <= e.end <= |chunk|
  {
    if e.Text? then SegmentChunks(env, rules, iter, chunk[e.start..e.end]) else [Control(chunk[e.start..e.end])]
  }

  /** The output for a chunk: the outputs of its elements, in order. */
  function TransformChunks(env: Env, rules: seq<CompiledRule>, iter: CapturesIter, chunk: string, els: seq<Element>): seq<Chunk>
    requires InBounds(els, |chunk|)
    decreases |els|
  {
    if els == [] then []
    else
      var e := els[|els| - 1];
      TransformChunks(env, rules, iter, chunk, els[..|els| - 1]) + ElementChunks(env, rules, iter, chunk, e)
  }

  /** One element's output shows the element's text, and is an escape piece exactly when the element is one. */
  lemma ElementVisible(env: Env, rules: seq<CompiledRule>, iter: CapturesIter, chunk: string, e: Element)
    requires e.start <= e.end <= |chunk|
    ensures var ec, p := ElementChunks(env, rules, iter, chunk, e), Piece(chunk[e.start..e.end], e.IsAnsi());
      Visible(ec) == Join([p]) && Controls(ec) == Escapes([p])
  {
    var p := Piece(chunk[e.start..e.end], e.IsAnsi());
    var ec := ElementChunks(env, rules, iter, chunk, e);
    assert Join([p]) == p.text + Join([]);
    if e.Text? {
      var t := chunk[e.start..e.end];
      var ms := SortByStart(AllMatches(rules, t, iter));
      AllMatchesFit(rules, t, iter);
      SortedFits(t, AllMatches(rules, t, iter));
      AcceptedLines(env, t, ms, 0);
      EmitVisible(env, t, Accepted(env, ms, 0), 0);
      EmitNoControls(env, t, Accepted(env, ms, 0), 0);
      assert Escapes([p]) == [] + Escapes([]);
    } else {
      ConcatMapSingle(ec[0], ChunkText);
      ConcatMapSingle(ec[0], ControlText);
      assert Escapes([p]) == [p.text] + Escapes([]);
    }
  }

  /** Deleting every inserted wrapper from the output gives back the chunk. */
  lemma {:induction false} TransformVisibleParts(env: Env, rules: seq<CompiledRule>, iter: CapturesIter, chunk: string, els: seq<Element>)
    requires InBounds(els, |chunk|)
    ensures Visible(TransformChunks(env, rules, iter, chunk, els)) == Join(AnsiStrings(chunk, els))
    ensures Controls(TransformChunks(env, rules, iter, chunk, els)) == Escapes(AnsiStrings(chunk, els))
    decreases |els|
  {
    if els != [] {
      var init, e := els[..|els| - 1], els[|els| - 1];
      AnsiStringsSnoc(chunk, els);
      TransformVisibleParts(env, rules, iter, chunk, init);
      var p := AnsiStrings(chunk, els)[|els| - 1];
      assert p == Piece(chunk[e.start..e.end], e.IsAnsi());
      ElementVisible(env, rules, iter, chunk, e);
      RenderAppend(TransformChunks(env, rules, iter, chunk, init), ElementChunks(env, rules, iter, chunk, e));
      JoinAppend(AnsiStrings(chunk, init), [p]);
    }
  }

  /** Deleting every inserted wrapper from the output gives back the chunk exactly. */
  lemma TransformVisible(env: Env, rules: seq<CompiledRule>, iter: CapturesIter, chunk: string, els: seq<Element>)
    requires WellFormed(els, |chunk|)
    ensures InBounds(els, |chunk|)
    ensures Visible(TransformChunks(env, rules, iter, chunk, els)) == chunk
  {
    JoinAnsiStrings(chunk, els);
    TransformVisibleParts(env, rules, iter, chunk, els);
  }

  /** Every escape of the chunk appears in the output verbatim and in order, and nothing else is an escape piece. */
  lemma TransformKeepsEscapes(env: Env, rules: seq<CompiledRule>, iter: CapturesIter, chunk: string, els: seq<Element>)
    requires InBounds(els, |chunk|)
    ensures Controls(TransformChunks(env, rules, iter, chunk, els)) == Escapes(AnsiStrings(chunk, els))
  {
    TransformVisibleParts(env, rules, iter, chunk, els);
  }

  /** A chunk in which nothing gets linked comes out unchanged. */
  lemma TransformWithoutLinks(env: Env, rules: seq<CompiledRule>, iter: CapturesIter, chunk: string, els: seq<Element>)
    requires WellFormed(els, |chunk|)
    requires InBounds(els, |chunk|) && !HasLink(TransformChunks(env, rules, iter, chunk, els))
    ensures Render(TransformChunks(env, rules, iter, chunk, els)) == chunk
  {
    RenderWithoutLinks(TransformChunks(env, rules, iter, chunk, els));
    TransformVisible(env, rules, iter, chunk, els);
  }

  /** With no rules every element is copied through, so the output is the concatenation of the pieces. */
  lemma {:induction false} TransformWithoutRulesParts(env: Env, iter: CapturesIter, chunk: string, els: seq<Element>)
    requires InBounds(els, |chunk|)
    ensures Render(TransformChunks(env, [], iter, chunk, els)) == Join(AnsiStrings(chunk, els))
    decreases |els|
  {
    if els != [] {
      var init, e := els[..|els| - 1], els[|els| - 1];
      AnsiStringsSnoc(chunk, els);
      TransformWithoutRulesParts(env, iter, chunk, init);
      var p := AnsiStrings(chunk, els)[|els| - 1];
      assert p == Piece(chunk[e.start..e.end], e.IsAnsi());
      assert Join([p]) == p.text + Join([]);
      if e.Text? {
        SegmentWithoutLinks(env, [], iter, chunk[e.start..e.end]);
      } else {
        ConcatMapSingle(Control(chunk[e.start..e.end]), RenderChunk);
      }
      RenderAppend(TransformChunks(env, [], iter, chunk, init), ElementChunks(env, [], iter, chunk, e));
      JoinAppend(AnsiStrings(chunk, init), [p]);
    }
  }

  /** With an empty rule table the transformation is the identity. */
  lemma TransformWithoutRules(env: Env, iter: CapturesIter, chunk: string, els: seq<Element>)
    requires WellFormed(els, |chunk|)
    ensures InBounds(els, |chunk|)
    ensures Render(TransformChunks(env, [], iter, chunk, els)) == chunk
  {
    JoinAnsiStrings(chunk, els);
    TransformWithoutRulesParts(env, iter, chunk, els);
  }

  /** A text segment without a linked match is appended unchanged. */
  lemma SegmentWithoutLinks(env: Env, rules: seq<CompiledRule>, iter: CapturesIter, t: string)
    requires Accepted(env, SortByStart(AllMatches(rules, t, iter)), 0) == []
    ensures Render(SegmentChunks(env, rules, iter, t)) == t
  {
    assert t[0..] == t;
    ConcatMapSingle(Plain(t), RenderChunk);
  }

  /** A match that fails the link test does not block a later overlapping one. */
  lemma UnlinkableDoesNotBlock(env: Env, m1: MatchInfo, m2: MatchInfo, last: nat)
    requires !Linkable(env, m1) && Linkable(env, m2)
    requires last <= m1.start <= m2.start < m1.end
    ensures Accepted(env, [m1, m2], last) == [m2]
  {
    assert [m1, m2][1..] == [m2] && [m2][1..] == [];
    assert Accepted(env, [m2], last) == [m2] + Accepted(env, [], m2.end);
  }

  /** A linked match blocks a later overlapping one. */
  lemma LinkedBlocksOverlap(env: Env, m1: MatchInfo, m2: MatchInfo, last: nat)
    requires Linkable(env, m1) && last <= m1.start <= m2.start < m1.end
    ensures Accepted(env, [m1, m2], last) == [m1]
  {
    assert [m1, m2][1..] == [m2] && [m2][1..] == [];
    assert Accepted(env, [m2], m1.end) == Accepted(env, [], m1.end);
  }

  // ---------------------------------------------------------------------
  // The imperative pass

  /** Every match lies in `t` and has a line below 2^32. */
  predicate MatchesFit(t: string, ms: seq<MatchInfo>)
  {
    forall m :: m in ms ==> WithinText(t, m) && m.line < U32Limit
  }

  lemma MatchesFitSuffix(t: string, ms: seq<MatchInfo>, i: nat)
    requires MatchesFit(t, ms) && i <= |ms|
    ensures MatchesFit(t, ms[i..])
  {
    assert forall m :: m in ms[i..] ==> m in ms;
  }

  lemma AcceptedLines(env: Env, t: string, ms: seq<MatchInfo>, last: nat)
    requires MatchesFit(t, ms) && last <= |t|
    ensures Chain(t, Accepted(env, ms, last), last) && LinesInRange(Accepted(env, ms, last))
  {
    AcceptedChain(env, t, ms, last);
  }

  /** A linked match renders as the gap before it, its hyperlink, and the rest. */
  lemma EmitCons(env: Env, t: string, m: MatchInfo, acc: seq<MatchInfo>, last: nat)
    requires Chain(t, [m] + acc, last) && LinesInRange([m] + acc)
    ensures Chain(t, acc, m.end) && LinesInRange(acc) && last <= m.start <= m.end <= |t| && m.line < U32Limit
    ensures Render(Emit(env, t, [m] + acc, last))
         == t[last..m.start] + FormatOsc8Hyperlink(LinkUrl(env, m), m.text) + Render(Emit(env, t, acc, m.end))
  {
    var ma := [m] + acc;
    assert ma[1..] == acc && ma[0] == m;
    EmitStep(env, t, ma, last);
    ConcatMapPair(Plain(t[last..m.start]), Link(LinkUrl(env, m), m.text), Emit(env, t, acc, m.end), RenderChunk);
  }

  /**
   * The output still owed once the matches before `i` are dealt with and
   * linking may resume at `last`: the loop of `transform` read as a recursion.
   */
  function Pending(env: Env, t: string, ms: seq<MatchInfo>, i: nat, last: nat): string
    requires MatchesFit(t, ms) && i <= |ms| && last <= |t|
    decreases |ms| - i
  {
    if i == |ms| then t[last..]
    else
      var m := ms[i];
      assert m in ms;
      if m.start >= last && Linkable(env, m) then
        t[last..m.start] + FormatOsc8Hyperlink(LinkUrl(env, m), m.text) + Pending(env, t, ms, i + 1, m.end)
      else Pending(env, t, ms, i + 1, last)
  }

  /** The loop's output is the rendered output of the selected matches. */
  lemma {:induction false} PendingIsEmit(env: Env, t: string, ms: seq<MatchInfo>, i: nat, last: nat)
    requires MatchesFit(t, ms) && i <= |ms| && last <= |t|
    ensures MatchesFit(t, ms[i..])
    ensures Chain(t, Accepted(env, ms[i..], last), last) && LinesInRange(Accepted(env, ms[i..], last))
    ensures Pending(env, t, ms, i, last) == Render(Emit(env, t, Accepted(env, ms[i..], last), last))
    decreases |ms| - i
  {
    MatchesFitSuffix(t, ms, i);
    AcceptedLines(env, t, ms[i..], last);
    if i == |ms| {
      assert ms[i..] == [];
      ConcatMapSingle(Plain(t[last..]), RenderChunk);
    } else {
      var m := ms[i];
      assert m in ms;
      assert ms[i..][1..] == ms[i + 1..];
      if m.start >= last && Linkable(env, m) {
        PendingIsEmit(env, t, ms, i + 1, m.end);
        assert Accepted(env, ms[i..], last) == [m] + Accepted(env, ms[i + 1..], m.end);
        EmitCons(env, t, m, Accepted(env, ms[i + 1..], m.end), last);
      } else {
        PendingIsEmit(env, t, ms, i + 1, last);
      }
    }
  }

  /** One step of the loop: the next match is either linked or passed over. */
  lemma PendingStep(env: Env, t: string, ms: seq<MatchInfo>, i: nat, last: nat)
    requires MatchesFit(t, ms) && i < |ms| && last <= |t|
    ensures WithinText(t, ms[i]) && ms[i].line < U32Limit
    ensures Pending(env, t, ms, i, last)
         == if ms[i].start >= last && Linkable(env, ms[i])
            then t[last..ms[i].start] + FormatOsc8Hyperlink(LinkUrl(env, ms[i]), ms[i].text) + Pending(env, t, ms, i + 1, ms[i].end)
            else Pending(env, t, ms, i + 1, last)
  {
    assert ms[i] in ms;
  }

  /** The selection loop over one segment's sorted matches, with its output. */
  method LinkSegment(env: Env, t: string, ms: seq<MatchInfo>) returns (out: string)
    requires MatchesFit(t, ms)
    ensures out == Pending(env, t, ms, 0, 0)
  {
    out := "";
    var last: nat := 0;
    for i := 0 to |ms|
      invariant last <= |t|
      invariant out + Pending(env, t, ms, i, last) == Pending(env, t, ms, 0, 0)
    {
      var m := ms[i];
      PendingStep(env, t, ms, i, last);
      if m.start >= last {
        var full := ResolvePath(env.cwd, m.path);
        var shouldLink := ShouldLink(env.fs, full, m.path);
        if shouldLink {
          var gap := t[last..m.start];
          var url := FormatCursorHyperlink(env.fs, full, m.line);
          var link := FormatOsc8Hyperlink(url, m.text);
          AppendAssoc3(out, gap, link, Pending(env, t, ms, i + 1, m.end));
          out := out + gap + link;
          last := m.end;
        }
      }
    }
    out := out + t[last..];
  }

  /** The inner loop of `transform`: every rule's matches in a segment, rule after rule. */
  method CollectAll(rules: seq<CompiledRule>, text: string, iter: CapturesIter) returns (matches: seq<MatchInfo>)
    ensures matches == AllMatches(rules, text, iter)
  {
    matches := [];
    for r := 0 to |rules|
      invariant matches == AllMatches(rules[..r], text, iter)
    {
      assert rules[..r + 1] == rules[..r] + [rules[r]];
      AllMatchesSnoc(rules[..r], rules[r], text, iter);
      matches := CollectMatches(rules[r], text, iter, matches);
    }
    assert rules[..|rules|] == rules;
  }

  /** The output of one text segment, as `transform` computes it. */
  method TransformSegment(env: Env, rules: seq<CompiledRule>, iter: CapturesIter, text: string) returns (piece: string)
    ensures piece == Render(SegmentChunks(env, rules, iter, text))
  {
    var matches := CollectAll(rules, text, iter);
    var sorted := SortByStart(matches);
    AllMatchesFit(rules, text, iter);
    SortedFits(text, matches);
    piece := LinkSegment(env, text, sorted);
    PendingIsEmit(env, text, sorted, 0, 0);
    assert sorted[0..] == sorted;
  }

  /** `transform`: the chunk with every accepted match of every text span hyperlinked. */
  method TransformChunk(chunk: string, els: seq<Element>, cwd: string, fs: FileSystem,
                        rules: seq<CompiledRule>, iter: CapturesIter) returns (output: string)
    requires InBounds(els, |chunk|)
    ensures output == Render(TransformChunks(Env(cwd, fs), rules, iter, chunk, els))
  {
    var env := Env(cwd, fs);
    output := "";
    for k := 0 to |els|
      invariant output == Render(TransformChunks(env, rules, iter, chunk, els[..k]))
    {
      var e := els[k];
      assert els[..k + 1][..k] == els[..k] && els[..k + 1][k] == e;
      var piece: string;
      if e.Text? {
        piece := TransformSegment(env, rules, iter, chunk[e.start..e.end]);
      } else {
        piece := chunk[e.start..e.end];
        ConcatMapSingle(Control(piece), RenderChunk);
      }
      RenderAppend(TransformChunks(env, rules, iter, chunk, els[..k]), ElementChunks(env, rules, iter, chunk, e));
      output := output + piece;
    }
    assert els[..|els|] == els;
  }
}
