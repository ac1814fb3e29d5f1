# xolmis: ANSI text layer, rule table and hyperlinking pass in Dafny

xolmis sits between a terminal and a child process. It rewrites the output
stream so that file paths and traceback locations become OSC 8 hyperlinks
(`cursor://file/<path>:<line>`). This project models the three pure parts of
that program and proves properties of them:

- **The ANSI text layer** (`src/ansi/mod.rs`), in modules `Ansi` and
  `AnsiTruncate`. The tokenizer's output is a sequence of `Element`s
  (`Text`, `Sgr`, `Csi`, `Esc`, `Osc`) and is an argument of every operation;
  `WellFormed` states what the tokenizer guarantees about it (contiguous
  spans that tile the buffer in order). The layer's operations are:
  - stripping escape sequences;
  - measuring display width;
  - mapping a stripped-text offset to a raw offset;
  - slicing while keeping every escape;
  - pairing text with the current SGR style;
  - width-bounded truncation with an optional filler and a truncated tail.

  Unicode width and grapheme segmentation are a `Metrics` parameter: a
  width per character, and any segmentation that concatenates back to its
  input.
- **The rule table** (`src/rules.rs`), in module `Rules`. Compiling the three
  `RULES_DATA` entries keeps their order and names. It resolves the path and
  line group indices as "first capture name equal to X". The regex engine's
  `Regex::new` is a parameter. The two anchored traceback patterns (Python
  `File "…", line N` and IPDB `> path(N)`) are also written out as
  hand-made recognisers, with their results proved on the lines the test module uses.
- **The hyperlinking pass** (`src/transform.rs`), in module `Transform`. Each
  text span is searched with every rule (`captures_iter` is a parameter).
  `collect_matches` records a match only with the whole match, the path and
  the line present, a line that parses as `u32` and a non-empty path. The
  matches are stable-sorted by start. Each match that starts at or after the
  last link's end and passes the link test is wrapped in an OSC 8 pair.
  Escape spans are copied through. The filesystem (`exists`, `canonicalize`)
  is a parameter.

Imperative parts of the source are methods, each proved equal to a
specification function. Those parts are the loops of `truncate_str_impl`,
`ansi_preserving_index`, `parse_style_sections`, `collect_matches` and
`transform`. The pure parts are functions: `strip_ansi_codes`,
`measure_text_width`, `ansi_preserving_slice`, the rule compilation and the
formatters. The main results are:

- what the pass leaves visible is its input. Deleting every OSC 8 wrapper
  from the output gives back the chunk.
- the escapes come out verbatim and in order.
- the linked matches of a segment are ordered and do not overlap.
- equal-start matches keep rule order (FilePath, PythonTraceback,
  IpdbTraceback).
- truncation keeps escapes. Without a filler it stays within the width, and
  the corrected walk (see Findings) stays within it with either filler.

Some behaviours of the code are easy to miss:

- the code has no global guard against linking inside an existing OSC 8
  hyperlink. Each text span is processed on its own, so a match never spans
  an escape.
- a match that fails the link test does not advance `last_match_end`
  (`Transform.UnlinkableDoesNotBlock`).
- `src/transform.rs:95` passes `rule.line_group_index`, an `Option`, to
  `caps.get`. The model takes the evident intent: the line group must be
  present and captured. A rule with no line group therefore never records a
  match (`Transform.CollectedNeedsLineGroup`). A match whose optional line
  is absent is never recorded either (`TransformExamples.IpdbWithoutLineNotCollected`).
- a rule whose pattern lacks the path group panics in the source; the model
  gives `None` (`Rules.CompileRule`).
- after the `break` at `src/ansi/mod.rs:71`, truncation goes on scanning
  later text spans (see Findings).

## Model

| member | source | states |
|---|---|---|
| Ansi.WellFormedInBounds | src/ansi/mod.rs:184-192 | elements that tile the buffer all lie inside it |
| Ansi.AnsiStrings | src/ansi/mod.rs:184-192 | `ansi_strings_iterator` yields exactly one piece per element |
| Ansi.JoinTiles | src/ansi/mod.rs:184-192 | the pieces of elements tiling `[from, to)` join to exactly `s[from..to]` |
| Ansi.JoinAnsiStrings | src/ansi/mod.rs:184-192 | the pieces of a well-formed tokenization join back to the whole buffer |
| Ansi.JoinAppend | src/ansi/mod.rs:194-200 | joining, stripping and collecting escapes each distribute over concatenation of piece sequences |
| Ansi.StripSnoc | src/ansi/mod.rs:23-25 | stripping `els + [e]` appends `e`'s bytes exactly when `e` is a `Text` span |
| Ansi.TextOfShorter | src/ansi/mod.rs:194-200 | the text of a piece sequence is never longer than its joined string |
| Ansi.TextOfPlain | src/ansi/mod.rs:194-200 | with no escape piece, the filtered join equals the full join |
| Ansi.StripShorter | src/ansi/mod.rs:23-25 | the stripped string is never longer than the input |
| Ansi.StripPlain | src/ansi/mod.rs:213-216 | stripping is the identity on input without escapes |
| Ansi.PiecesWidthOfText | src/ansi/mod.rs:27-31 | the sum of the text pieces' widths is the width of their concatenation; escapes count 0 |
| Ansi.PiecesWidthAppend | src/ansi/mod.rs:27-31 | the width fold is additive over concatenation |
| Ansi.StrWidthAppend | src/ansi/mod.rs:40 | string width is additive, so measuring the stripped string agrees with summing per span |
| Ansi.MeasureIsStrippedWidth | src/ansi/mod.rs:27-31 | `measure_text_width(s)` equals the width of `strip_ansi_codes(s)` |
| Ansi.OscWrapInvisible | src/ansi/mod.rs:236-245 | wrapping a string in two OSC sequences adds exactly two escape pieces around its own pieces, so stripped text and width are unchanged |
| Ansi.WrappedPieces | src/ansi/mod.rs:236-245 | the wrapped string parses as the opener's escape, the inner elements shifted by the opener's length and the closer's escape, so its pieces are the inner pieces between two escape pieces |
| Ansi.TextPositionsStep | src/ansi/mod.rs:171-182 | each element adds the raw offsets of its bytes to the position list when it is `Text` and nothing otherwise |
| Ansi.TextPositionsPrefix | src/ansi/mod.rs:171-182 | the positions of a prefix of the elements are a prefix of all positions |
| Ansi.TextPositionsAgree | src/ansi/mod.rs:171-182 | there is one raw position per stripped byte, and the raw byte there is the stripped byte |
| Ansi.TextPositionsInText | src/ansi/mod.rs:171-182 | every position lies inside some `Text` span |
| Ansi.TextPositionsIncreasing | src/ansi/mod.rs:171-182 | for tiling elements, the positions lie in the buffer and strictly increase |
| Ansi.AnsiPreservingIndex | src/ansi/mod.rs:171-182 | the loop returns the `i`-th text position. It is `None` exactly when `i >= \|strip(s)\|`, and otherwise `s[r] == strip(s)[i]` |
| Ansi.AnsiPreservingIndexMonotonic | src/ansi/mod.rs:171-182 | `ansi_preserving_index` is strictly increasing where it is defined |
| Ansi.SliceParts | src/ansi/mod.rs:141-167 | the scan yields one piece per element |
| Ansi.SlicePartsStep | src/ansi/mod.rs:143-163 | each element's piece depends on the stripped length before it, the `index` of the scan |
| Ansi.SliceKeepsEscapes | src/ansi/mod.rs:145-149 | the slice keeps every escape piece of the input, whole and in order |
| Ansi.SliceStripped | src/ansi/mod.rs:150-163 | the text of the slice is the stripped text without its first `start` bytes: `strip(slice(s, k)) == strip(s)[k..]` |
| Ansi.SliceFromZeroParts | src/ansi/mod.rs:141-167 | slicing from 0 yields exactly the tokenizer's pieces |
| Ansi.SliceFromZero | src/ansi/mod.rs:141-167 | `ansi_preserving_slice(s, 0) == s` |
| Ansi.CurrentStyleWithoutSgr | src/ansi/mod.rs:112 | with no `Sgr` before a point, the current style is the default style |
| Ansi.CurrentStyleIsLastSgr | src/ansi/mod.rs:112-117 | otherwise the current style is that of the last `Sgr` before it |
| Ansi.ParseStyleSections | src/ansi/mod.rs:110-121 | the loop yields the specification's sections |
| Ansi.TextIndices | src/ansi/mod.rs:115 | exactly the indices of the `Text` elements, each listed once, in ascending order |
| Ansi.StyleSectionsPairs | src/ansi/mod.rs:110-121 | there is one section per `Text` element, pairing the style current before it with its bytes |
| Ansi.StyleSectionsText | src/ansi/mod.rs:110-121 | the section texts concatenate to the stripped string |
| Ansi.FirstStyle | src/ansi/mod.rs:124-129 | `None` exactly when there is no `Sgr`; otherwise the style of the first `Sgr` |
| Ansi.StartsWithStyle | src/ansi/mod.rs:131-136 | true exactly when the first element is an `Sgr`, whose style is then the first style |
| AnsiExamples.WidthOfBarExample | src/ansi/mod.rs:223 | `バー` measures 4 |
| AnsiExamples.StripColouredExample | src/ansi/mod.rs:217 | `"\x1b[31mバー\x1b[0m"` strips to `バー` and measures 4 |
| AnsiExamples.MeasureNewlinesExample | src/ansi/mod.rs:226 | `"a\nb\n"` measures 2 |
| AnsiExamples.TwoRunsPositions | src/ansi/mod.rs:289 | the text positions of the two-run string are 7, 18..26 and 30 |
| AnsiExamples.PreservingIndexExample | src/ansi/mod.rs:294-296 | indices 0, 1 and 7 map to 7, 18 and 24 |
| AnsiExamples.TwoRunsSliceParts | src/ansi/mod.rs:290-293 | the slice pieces of the two-run string from 1 |
| AnsiExamples.PreservingSliceTwoRunsExample | src/ansi/mod.rs:290-293 | slicing the two-run string from 1 keeps both escapes of the dropped run |
| AnsiExamples.OneRunSliceParts | src/ansi/mod.rs:279-284 | the slice pieces of the one-run string from any offset inside its text |
| AnsiExamples.PreservingSliceOneRunFromOneExample | src/ansi/mod.rs:280-283 | slicing `"\x1b[1;35m0123456789\x1b[0m"` from 1 |
| AnsiExamples.PreservingSliceOneRunFromSevenExample | src/ansi/mod.rs:284 | slicing the same string from 7 |
| AnsiExamples.EmptyBufferExample | src/ansi/mod.rs:270-271 | the empty buffer slices to `""` and has no index |
| AnsiExamples.FirstStyleExample | src/ansi/mod.rs:248-266 | a red git line has first style red and starts with a style; `""` and `"-"` do not |
| AnsiTruncate.Repeat | src/ansi/mod.rs:66-68 | `n` copies of the fill character |
| AnsiTruncate.RepeatWidth | src/ansi/mod.rs:66-68 | `n` copies of a one-column character are `n` columns wide |
| AnsiTruncate.FillPieces | src/ansi/mod.rs:58-70 | the fill pushed at a cut is plain text, and nothing without a fill character |
| AnsiTruncate.TruncateStrImpl | src/ansi/mod.rs:33-83 | the method (early return, recursive tail, outer loop, tail append) produces the specification's pieces |
| AnsiTruncate.WalkLoop | src/ansi/mod.rs:51-79 | the outer loop over pieces produces the specification's pieces |
| AnsiTruncate.WalkGraphemesLoop | src/ansi/mod.rs:53-75 | the grapheme loop with its `break` produces the specification's pieces and final `used` |
| AnsiTruncate.PushFill | src/ansi/mod.rs:58-70 | the fill pushes produce the specification's fill |
| AnsiTruncate.TruncateStr | src/ansi/mod.rs:98-100 | `truncate_str` is the implementation with the `' '` filler, and returns `s` when it fits |
| AnsiTruncate.TruncateStrShort | src/ansi/mod.rs:106-108 | `truncate_str_short` is the implementation with no filler and empty tail; the result fits the width unless `s` already fits |
| AnsiTruncate.WalkGraphemesPlain | src/ansi/mod.rs:53-75 | the grapheme walk pushes only text, all graphemes when nothing is cut |
| AnsiTruncate.WalkKeepsEscapes | src/ansi/mod.rs:76-78 | the walk copies every escape piece verbatim and in order |
| AnsiTruncate.WalkGraphemesWidth | src/ansi/mod.rs:53-75 | without fill, `used` grows by exactly the pushed width and never past the width |
| AnsiTruncate.WalkWidth | src/ansi/mod.rs:51-79 | the same for the outer loop over all pieces |
| AnsiTruncate.TruncateFits | src/ansi/mod.rs:40-43 | a string whose stripped width fits is returned unchanged |
| AnsiTruncate.TruncateKeepsEscapes | src/ansi/mod.rs:44-81 | the result's escapes are the input's, followed by the tail's when the tail is used |
| AnsiTruncate.TruncateTailSuffix | src/ansi/mod.rs:44-81 | when `s` does not fit and the tail does, the tail is a suffix of the result |
| AnsiTruncate.TruncateWithoutFillWidth | src/ansi/mod.rs:49-79 | without fill, the result's width is within the width, or `s` fit and came back whole |
| AnsiTruncate.WalkFixedAgrees | src/ansi/mod.rs:51-79 | the corrected walk is the walk as written whenever nothing is cut |
| AnsiTruncate.WalkGraphemesPrefix | src/ansi/mod.rs:53-75 | without fill, the pushed text is a prefix of the span's text, and all of it when nothing is cut |
| AnsiTruncate.WalkFixedPrefix | src/ansi/mod.rs:102-105 | with the corrected walk, the result's text is a prefix of the input's text |
| AnsiTruncate.FillPiecesWidth | src/ansi/mod.rs:58-70 | with a one-column filler, the fill never takes `used` past the width |
| AnsiTruncate.WalkGraphemesFillWidth | src/ansi/mod.rs:53-75 | with a one-column filler, one span's walk stays within the width |
| AnsiTruncate.WalkFixedWidth | src/ansi/mod.rs:51-79 | with a one-column filler, the corrected walk stays within the width |
| AnsiTruncate.TruncateFixedWidth | src/ansi/mod.rs:85-97 | corrected truncation, with either filler, is never wider than `display_width` |
| AnsiTruncate.TruncateFixedPrefix | src/ansi/mod.rs:102-105 | corrected `truncate_str_short` yields a prefix of the stripped input |
| AnsiTruncate.TruncateFixedKeepsEscapes | src/ansi/mod.rs:76-78 | the correction changes no escape of the result |
| AnsiTruncate.WalkFixedKeepsEscapes | src/ansi/mod.rs:76-78 | the corrected walk still copies every escape verbatim |
| AnsiTruncateExamples.OneDoubleFour | src/ansi/mod.rs:321 | `1＃4` is three graphemes and four columns |
| AnsiTruncateExamples.TruncateAtDoubleWidthExample | src/ansi/mod.rs:325 | `truncate_str("1＃4", 2, "") == "1 "` |
| AnsiTruncateExamples.TruncateShortAtDoubleWidthExample | src/ansi/mod.rs:330 | `truncate_str_short("1＃4", 2) == "1"` |
| AnsiTruncateExamples.TruncateToFilledTailExample | src/ansi/mod.rs:334 | `truncate_str("1＃4", 1, "／") == " "` |
| AnsiTruncateExamples.TruncateWithTailExample | src/ansi/mod.rs:312 | `truncate_str("123", 2, "s") == "1s"` |
| AnsiTruncateExamples.CutThenResetFacts | src/ansi/mod.rs:39-43 | the tokens, stripped text and width of `"1＃\x1b[0m4"` |
| AnsiTruncateExamples.CutThenResetFirstWalk | src/ansi/mod.rs:53-72 | walking `1＃` in two columns pushes `1`, then the fill, and breaks |
| AnsiTruncateExamples.CutThenResetWalk | src/ansi/mod.rs:51-79 | after the break, the loop copies the reset and still pushes the `4` |
| AnsiTruncateExamples.TruncateShortNotPrefixExample | src/ansi/mod.rs:102-108 | as written, `truncate_str_short("1＃\x1b[0m4", 2)` has text `14`, not a prefix of `1＃4` |
| AnsiTruncateExamples.TruncateFillTooWidePieces | src/ansi/mod.rs:51-81 | the pieces `truncate_str("1＃\x1b[0m4", 2, "")` pushes as written |
| AnsiTruncateExamples.TruncateFillTooWideExample | src/ansi/mod.rs:85-100 | as written, that result is `"1 \x1b[0m4"`, three columns in a width of two |
| AnsiTruncateExamples.TruncateFixedExample | src/ansi/mod.rs:102-105 | corrected, the short truncation is `"1\x1b[0m"` |
| AnsiTruncateExamples.TruncateFixedFillExample | src/ansi/mod.rs:85-100 | corrected, the filled truncation is `"1 \x1b[0m"` |
| Rules.Position | src/rules.rs:76-78 | `position`: the first index whose name is `Some(target)`, `None` exactly when there is none |
| Rules.CompileRule | src/rules.rs:72-94 | a rule compiles exactly when its pattern does and has the path group. The name and regex are kept, the path index is the first `path`, and the line index is `None` exactly when no name is given or the name is absent (otherwise the first match) |
| Rules.CompileRules | src/rules.rs:71-96 | the table compiles entry by entry, same length and order; it fails only when some entry fails |
| Rules.TracebackRuleCompiles | src/rules.rs:76-94 | a rule whose pattern has groups `[whole, path, line]` compiles with indices 1 and `Some(2)` |
| Rules.CompiledTable | src/rules.rs:109-131 | the compiled table is FilePath, PythonTraceback, IpdbTraceback in order, each with indices 1 and `Some(2)`, and all names are non-empty |
| Rules.RunEnd | src/rules.rs:41-44 | a greedy character-class run: every character before the end is in the class, and the end is not |
| Rules.IpdbCaptures | src/rules.rs:44 | the IPDB pattern matches exactly when the line starts with `>` not followed by `(`. The path is a maximal run without `(` after optional whitespace; the line group is present exactly when `(digits)` follows the path straight away |
| Rules.IpdbPath | src/rules.rs:44 | the path group of the IPDB pattern, including the backtrack that keeps it non-empty |
| Rules.LineInParens | src/rules.rs:44 | the optional group is found exactly when `(`, a non-empty digit run and `)` follow at `i`, and it is that digit run |
| Rules.PythonCaptures | src/rules.rs:41 | the Python pattern matches after whitespace and `File "`, with the path running to the closing quote, and the line group is exactly the digit run after a following `, line ` (absent when there is none); fails exactly when either part is missing |
| Rules.PathStart | src/rules.rs:41 | `^\s*File "` matched, path start returned, `None` exactly when the prefix is not there |
| Rules.ClosingQuote | src/rules.rs:41 | the lazy `.*?"`: the first quote, with no newline before it; `None` exactly when no quote precedes the line end |
| Rules.LineAfterComma | src/rules.rs:41 | `, line \d+`: a maximal digit run after the literal, `None` exactly when it is not there |
| RulesExamples.IpdbWithLineExample | src/rules.rs:204-210 | `> /path/to/debugger.py(45)some_func()` gives path `/path/to/debugger.py` and line `45` |
| RulesExamples.IpdbWithoutLineExample | src/rules.rs:212-215 | `> /another/script.py` gives the path and no line |
| RulesExamples.IpdbBacktrackExample | src/rules.rs:44 | `> (45)`: the whitespace run gives back one character so that the path is not empty |
| RulesExamples.IpdbNoPathExample | src/rules.rs:44 | `>(45)` and `>` do not match |
| RulesExamples.PythonWithLineExample | src/rules.rs:184-190 | the frame with a line gives path `/path/to/my_module.py` and line `123` |
| RulesExamples.PythonWithoutLineExample | src/rules.rs:192-195 | the frame without a line gives the path and no line |
| RulesExamples.PythonNewlineExample | src/rules.rs:41 | no match when a newline comes before the closing quote |
| Transform.ScanDigitsValue | src/transform.rs:97 | the digit scan succeeds exactly on all-digit strings, with their decimal value |
| Transform.ParseU32 | src/transform.rs:97 | a parsed line is below 2^32 |
| Transform.ParseU32Spec | src/transform.rs:97 | `parse::<u32>` skips one leading `+`; it accepts a non-empty digit string whose value is below 2^32, and gives that value |
| Transform.DecimalString | src/transform.rs:130 | the decimal rendering of a line number: digits, no leading zero, and the value it renders |
| Transform.ParseDecimalString | src/transform.rs:130 | the line number written into a URL parses back to itself |
| Transform.ShortDigitsParse | src/transform.rs:97 | up to nine digits always parse |
| Transform.LeadingZeroParse | src/transform.rs:97 | a leading zero does not change the parse |
| Transform.ParseRejectsNonDigit | src/transform.rs:97 | any non-digit after the optional sign makes the parse fail |
| Transform.GetGroup | src/transform.rs:95 | `caps.get(i)`: a present group is the `i`-th capture |
| Transform.MatchOf | src/transform.rs:94-108 | a recorded match lies in the segment with its text, has a non-empty path, a `u32` line and the rule's name |
| Transform.MatchOfRecords | src/transform.rs:93-111 | a match is recorded exactly when whole, path and line groups are present, the line parses and the path is non-empty; its span, path and line come from those groups |
| Transform.Collected | src/transform.rs:93-111 | no more matches are recorded than the engine yields |
| Transform.CollectedFit | src/transform.rs:93-111 | every recorded match lies in the segment, has a non-empty path and the rule's name |
| Transform.Recorded | src/transform.rs:94-108 | each capture result records at most one match |
| Transform.CollectedSnoc | src/transform.rs:93-111 | recording proceeds capture by capture, in the engine's order |
| Transform.CollectedComplete | src/transform.rs:93-111 | every capture result that qualifies is recorded |
| Transform.CollectedSound | src/transform.rs:93-111 | every recorded match comes from a qualifying capture result |
| Transform.CollectedExactly | src/transform.rs:93-111 | recorded if and only if some capture result yields it |
| Transform.CollectedAppend | src/transform.rs:93 | recording distributes over concatenated capture streams |
| Transform.CollectedNeedsLineGroup | src/transform.rs:95 | a rule without a line group records nothing |
| Transform.CollectMatches | src/transform.rs:88-112 | the loop appends exactly the recorded matches to the vector it is given |
| Transform.AllMatchesSnoc | src/transform.rs:31-33 | each further rule appends its own matches |
| Transform.AllMatchesFit | src/transform.rs:31-33 | all collected matches lie in the segment and come from one of the rules |
| Transform.AllMatchesAppend | src/transform.rs:31-33 | collecting over concatenated rule lists concatenates, so matches are grouped in rule order |
| Transform.InsertPermutes | src/transform.rs:36 | one insertion step adds exactly the inserted match |
| Transform.InsertSorted | src/transform.rs:36 | insertion keeps a list sorted by start |
| Transform.SortByStartSpec | src/transform.rs:36 | the sort is sorted by start and a permutation of its input |
| Transform.SortedFits | src/transform.rs:36 | sorting keeps every match inside the segment |
| Transform.InsertWithStart | src/transform.rs:36 | insertion appends the match after every equal-start match already there |
| Transform.StableStep | src/transform.rs:36 | one insertion preserves the relative order of equal-start matches |
| Transform.SortStable | src/transform.rs:36 | `sort_by_key` is stable: the matches with any one start keep their input order |
| Transform.RuleOrderAtEqualStart | src/transform.rs:31-36 | after sorting, equal-start matches of earlier rules come before those of later rules |
| Transform.JoinPathShape | src/transform.rs:121 | `Path::join`: an absolute path replaces the base; a relative one is appended with one separator |
| Transform.ResolvePathSpec | src/transform.rs:115-123 | an absolute path is kept; otherwise it is joined to `cwd`; under an absolute `cwd` the result is absolute |
| Transform.ShouldLinkWithoutAbsolute | src/transform.rs:48-51 | the link test holds exactly when the path exists, contains `/` or starts with `.`; the absolute-path test never decides it |
| Transform.LinkTarget | src/transform.rs:128 | the canonical path when canonicalisation succeeds, else the resolved path |
| Transform.CursorHyperlinkParts | src/transform.rs:126-131 | the URL is `cursor://file/`, the target, `:`, and digits that parse back to the line |
| Transform.Osc8Parts | src/transform.rs:134-140 | the wrapper is `ESC]8;;url ESC\`, the text, then `ESC]8;; ESC\` |
| Transform.LinkInvisible | src/transform.rs:134-140 | a hyperlinked text strips to, and measures as, the bare text |
| Transform.AcceptedLinkable | src/transform.rs:41-53 | every linked match is one of the matches and passes the link test |
| Transform.AcceptedChain | src/transform.rs:41-68 | the linked matches form a chain in the segment, each starting at or after the end of the previous link |
| Transform.ChainOrdered | src/transform.rs:41-68 | the linked matches are in ascending order and pairwise non-overlapping |
| Transform.RenderAppend | src/transform.rs:20-84 | output, visible text and copied escapes are each assembled by concatenation |
| Transform.RenderWithoutLinks | src/transform.rs:71 | output without a link is its visible text |
| Transform.EmitStep | src/transform.rs:55-62 | one link emits the gap before it and its wrapped text, then continues from its end |
| Transform.EmitVisible | src/transform.rs:55-71 | the visible text of the emitted segment is the segment from `last` |
| Transform.EmitNoControls | src/transform.rs:55-71 | the emitted segment holds no escape chunk: only plain text and links |
| Transform.EmitLinks | src/transform.rs:55-62 | every linked match appears as a link with its URL and text, and every link chunk is one of them |
| Transform.EmitCons | src/transform.rs:55-62 | the rendered output of a link step is the gap, the OSC 8 wrapper, then the rest |
| Transform.PendingIsEmit | src/transform.rs:41-71 | the remaining output from loop position `i` is the emitted output of the matches linked from there |
| Transform.PendingStep | src/transform.rs:43-66 | one loop iteration: link and advance `last`, or skip and keep it |
| Transform.LinkSegment | src/transform.rs:38-71 | the match loop with its tail append produces the specification's segment output |
| Transform.CollectAll | src/transform.rs:28-33 | the rule loop collects exactly the rules' matches in rule order |
| Transform.TransformSegment | src/transform.rs:27-71 | one text segment's output is the rendered chunks of its linked matches |
| Transform.TransformChunk | src/transform.rs:19-85 | `transform` outputs the rendered chunks of every element in order |
| Transform.ElementVisible | src/transform.rs:24-81 | each element's chunks show its own bytes, and escape elements copy themselves |
| Transform.TransformVisibleParts | src/transform.rs:24-82 | the visible output is the joined element pieces, and the escapes are the input's escapes |
| Transform.TransformVisible | src/transform.rs:24-82 | deleting every OSC 8 wrapper from the output gives back the chunk |
| Transform.TransformKeepsEscapes | src/transform.rs:75-80 | every escape element's bytes appear verbatim and in original order |
| Transform.TransformWithoutLinks | src/transform.rs:71 | when nothing is linked, the output is the chunk |
| Transform.TransformWithoutRulesParts | src/transform.rs:24-82 | with no rules, the output is the joined element pieces |
| Transform.TransformWithoutRules | src/transform.rs:24-82 | with no rules, the output is the chunk |
| Transform.SegmentWithoutLinks | src/transform.rs:38-71 | a segment with no linked match is appended unchanged |
| Transform.UnlinkableDoesNotBlock | src/transform.rs:53-66 | a match failing the link test does not block a later overlapping one |
| Transform.LinkedBlocksOverlap | src/transform.rs:43-62 | a linked match blocks every later match starting inside it |
| TransformExamples.TracebackEngine | src/rules.rs:41-44 | an engine for the two anchored patterns yields at most one match, the recogniser's |
| TransformExamples.FrameCaptures | src/rules.rs:41 | `  File "/p.py", line 7` captures the whole line, `/p.py` and `7` |
| TransformExamples.FrameCollected | src/transform.rs:93-111 | that frame is collected as one match with path `/p.py` and line 7 |
| TransformExamples.FrameUrl | src/transform.rs:126-131 | its URL is `cursor://file//p.py:7` when nothing canonicalises |
| TransformExamples.FrameLinked | src/transform.rs:41-71 | alone in its segment, the frame comes out wrapped in one OSC 8 hyperlink |
| TransformExamples.IpdbWithoutLineNotCollected | src/transform.rs:94-96 | an IPDB line without a line number is matched but never collected |

## Left out

- The tokenizer (`src/ansi/iterator.rs`) is not part of this model. Its output is an argument, and `WellFormed` states what it guarantees. SGR parameter decoding into `ansi_term::Style` is left out with it, so `parse_first_style`'s concrete style comes from the given elements.
- The regex engine is a parameter (`Regex::new` as `compile`, `captures_iter` as `CapturesIter`), because it is a foreign library. The FilePath pattern (`src/rules.rs:38`, with `\b`) has no recogniser, so its tests at `src/rules.rs:133-176` are not modelled.
- `\s` and `\d` in the two recognisers are ASCII whitespace and digits; the engine's Unicode classes are not modelled.
- Unicode width and grapheme segmentation (`unicode_width`, `unicode_segmentation`) are the `Metrics` parameter, because they are table-driven libraries. String width is taken as the sum of character widths.
- The filesystem (`Path::exists`, `canonicalize`) is the `FileSystem` parameter, because it is I/O. Paths are Unix paths; `to_string_lossy` is the identity because strings are already Unicode.
- A buffer is a `string` with one position per byte offset. Multi-byte UTF-8 offsets are not modelled; the concrete examples that index bytes are ASCII.
- `AnsiTruncate`: the recursively truncated tail is measured on the pieces it is assembled from, instead of tokenizing the tail string again. For escapes the tokenizer reads back the same way, the two agree.
- `AnsiTruncate.TruncateTailSuffix`: states the suffix property only when the tail itself fits; when the tail is cut, its own truncation is the suffix.
- `TransformExamples.TracebackEngine`: knows only the two anchored traceback patterns, and yields no match for any other pattern, because it stands for the engine only in the examples.
- `Transform.MatchOf`: a group outside the haystack is treated as absent. A real engine never reports one, and `Transform.MatchOfRecords` states the exact condition under that guarantee.
- `sort_by_key` is a library call. It is modelled as a stable insertion-sort function, not as an in-place algorithm.
- `lazy_static` once-initialisation and `get_compiled_rules` are modelled as a pure value. The two panics of compilation (`expect`, `unwrap_or_else`) are `None`.
- `src/main.rs` (PTY, termios, child process, forwarding threads, streaming UTF-8 decoding) is not part of this model, because it is I/O and concurrency. The same goes for `tests/integration.rs`, which drives tmux.
- `debug_assert!` at `src/ansi/mod.rs:65` is not modelled. For a grapheme wider than two columns, the fill loop that follows it is.
- The ANSI constants at `src/ansi/mod.rs:16-21` are not used by the modelled functions.
- `src/ansi/console_tests.rs` is not part of this model.

## Findings

| source | as written | input that shows it | evidently intended | confidence | as-written member | corrected member |
|---|---|---|---|---|---|---|
| src/ansi/mod.rs:71 | The `break` leaves only the grapheme loop, so the outer loop goes on pushing graphemes of later text spans. | `truncate_str_short("1＃\x1b[0m4", 2)` gives `"1\x1b[0m4"`, whose text `14` is not a prefix of `1＃4`. | The doc comment at src/ansi/mod.rs:102-105 promises a prefix of the input: stop all text once a grapheme is cut, keeping later escapes. | not executed | AnsiTruncateExamples.TruncateShortNotPrefixExample | AnsiTruncate.TruncateFixedPrefix |
| src/ansi/mod.rs:71 | The same `break`, together with the filler pushed at src/ansi/mod.rs:60, lets later text exceed the width. | `truncate_str("1＃\x1b[0m4", 2, "")` gives `"1 \x1b[0m4"`, three columns in a width of two. | The result fits in `display_width` (src/ansi/mod.rs:85-97). | not executed | AnsiTruncateExamples.TruncateFillTooWideExample | AnsiTruncate.TruncateFixedWidth |
