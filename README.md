# clipboard2markdown, modelled in Dafny

clipboard2markdown turns HTML pasted from a word processor or a web page into
Jira/Confluence wiki markup. The result is a single line that can be embedded
in a quoted string literal. This project models the two parts of
`clipboard2markdown.js` that hold its logic, and proves properties about them.

- **The rule table `pandoc`** is modelled in `rules.dfy`, module `Rules`. It is
  an ordered list of (filter, replacement) rules: headings, text effects,
  breaks, inline code, links and list items. The first rule whose filter
  accepts an element renders it. When none does, the converter's default
  rendering applies, modelled as `None`.
  - An element is a `Node` record: its `nodeName`, its parent, the ancestors
    above the parent, its sibling flags and its `href`.
  - The list-item marker loop is a `method` with a `while` loop. It is proved
    equal to the recursive `ListPrefix`, and `ListPrefixClimbs` proves what
    that marker is for every ancestor chain.
- **The escaper `escape`** is modelled in `escaping.dfy`, module `Escaping`.
  Each of its seventeen global replacements is its own function. Each one
  follows JavaScript's global-replace semantics for its own pattern: leftmost
  match, greedy quantifiers, no overlaps, and the scan resumes after the match.
  For lines 171 to 178 a predicate states where the regex matches and with
  what length, and a lemma proves that the scanner is the global replacement
  of that regex (`GlobalReplace`).
  The character helpers they share are in `text.dfy`, module `Text`.
  - `\s` is ECMAScript WhiteSpace plus LineTerminator.
  - `[ ]` is a plain space.
  - `$` with the `m` flag matches before any line terminator or at the end.
- **`convert`** (`conversion.dfy`, module `Conversion`) escapes what the generic
  HTML-to-markup converter returns when it is called with the pandoc rules
  and `gfm: true`. That converter is a library outside this file, so it is a
  function parameter.

Behaviour of the code worth knowing when reading the model:

- **Headings.** The heading codes are `h1, h2, h3, h4, h5, h5`. An `h5`
  element is rendered by the first of the two identical `h5` rules. There is
  no `h6` rule, so an `h6` element falls to the default rendering.
- **Nested lists.** For a list nested in an `li`, the marker loop climbs to
  the `LI` element and stops there, because `LI` matches neither `/ol/i` nor
  `/ul/i`. The marker therefore has one character. Markers accumulate when
  a list-like element sits directly above a list whose parent looks like an
  `li`. The item text is indented by four spaces on every line after the
  first.
- **Escaper steps.** The escaper has seventeen steps. Lines 171 and 178
  remove runs of the space character only.
- **Leading newlines.** Line 179 removes leading whitespace, so the escaped
  form of `\n\nh1. Title\n\n\n\nHello *world*\n\n` is
  `h1. Title\n\nHello *world*`.

## Model

| member | source | states |
|---|---|---|
| Rules.FirstMatchIsFirst | clipboard2markdown.js:7-161 | the selected index is the first rule whose filter accepts the node; every earlier rule rejects it; `None` means no rule accepts it |
| Rules.FirstMatch | clipboard2markdown.js:7-161 | a selected index lies within the part of the table that was scanned |
| Rules.Render | clipboard2markdown.js:7-161 | `None` iff no rule of the table accepts the node; otherwise the markup is the replacement of a rule that accepts it and after every earlier rule rejected it |
| Rules.SelectedRule | clipboard2markdown.js:7-161 | which rule fires for each lower-cased tag name and structure; index 5 (second h5) never appears and h6 maps to no rule |
| Rules.HeadingRule | clipboard2markdown.js:10-17 | for h1..h5 the rendering is `\n\n` + tag + `. ` + content + `\n\n` |
| Rules.DuplicateHeadingNeverSelected | clipboard2markdown.js:10 | the sixth rule equals the fifth and is never the first match |
| Rules.NoRuleForH6 | clipboard2markdown.js:10-17 | no rule renders an h6 element |
| Rules.TextEffectRule | clipboard2markdown.js:20-49 | em/b, i, cite, del and u wrap the content in their markers |
| Rules.ScriptAndQuoteRule | clipboard2markdown.js:50-79 | sup, sub, var and blockquote wrap the content in their markers |
| Rules.BreakRule | clipboard2markdown.js:82-93 | br gives a blank line and hr a rule between blank lines, both ignoring the content |
| Rules.InlineCodeRule | clipboard2markdown.js:96-110 | the inline-code rule fires iff the name is CODE, KBD, SAMP or TT and the node is not the sibling-less child of a PRE; a match is backtick-wrapped and a code block gets no rule |
| Rules.LinkMarkup | clipboard2markdown.js:117-127 | `[url]` iff the content equals the url or the url is `mailto:` + content, otherwise content and url between brackets, separated by a vertical bar; always starts with `[`, ends with `]` and has the url right before `]` |
| Rules.LinkRule | clipboard2markdown.js:113-128 | an A element renders as a link iff its href is present and non-empty; otherwise it gets no rule |
| Rules.SelfLinkExample | clipboard2markdown.js:113-128 | a link whose text is its own url renders as the bracketed url |
| Rules.StripLeadingSpace | clipboard2markdown.js:134 | the result is the suffix of the content left after a run of whitespace, and does not start with whitespace |
| Rules.IndentLines | clipboard2markdown.js:134 | every newline of the result is followed by four spaces |
| Rules.UnindentIndentLines | clipboard2markdown.js:134 | removing the four added spaces gives the content back, so nothing else changes |
| Rules.ListPrefix | clipboard2markdown.js:136-156 | the marker uses only `#` and `*`; it has at most one character per element of the parent-and-ancestors chain; it is empty iff the parent is neither ol- nor ul-like; its last character is `#` iff the parent is ol-like |
| Rules.ListPrefixClimbs | clipboard2markdown.js:136-156 | the marker has one character per element of the longest stretch of the chain, starting at the parent, whose elements are all ol- or ul-like and, above the parent, all look like an `li`; the character for an element is `#` iff it is ol-like, and the outermost comes first |
| Rules.MarkersOfUnique | clipboard2markdown.js:136-156 | that description of the marker admits exactly one string for a given chain |
| Rules.ListItemPrefix | clipboard2markdown.js:136-156 | the marker loop computes exactly `ListPrefix` of the node's ancestor chain, keeping a marker of only `#` and `*` on every iteration |
| Rules.ListItemMarkup | clipboard2markdown.js:133-158 | the item is the marker, one space, then the cleaned content, which unindents to the content without its leading whitespace and has every newline followed by four spaces |
| Rules.ListItemReplacement | clipboard2markdown.js:133-158 | the list-item replacement, loop included, yields `ListItemMarkup` |
| Rules.ListItemRule | clipboard2markdown.js:131-160 | an li element renders as its list-item markup |
| Rules.NestedListSingleMarker | clipboard2markdown.js:149-152 | an item whose list sits directly inside an LI (so the item's grandparent is an LI) gets a one-character marker: `#` under an ordered list, `*` under an unordered one |
| Rules.DirectNestingAccumulates | clipboard2markdown.js:142-156 | a list-like element directly above an li-looking position adds a second marker, outermost first |
| Rules.TopLevelPrefix | clipboard2markdown.js:136-156 | an item of a top-level UL gets the one marker `*` |
| Rules.TopLevelItemMarkup | clipboard2markdown.js:133-158 | an item `one` of a top-level unordered list gives `* one` |
| Rules.TopLevelItemExample | clipboard2markdown.js:131-160 | rendering an li `one` in a top-level UL gives `* one`: `UL` matches `/ul/i` only, and `one` has no whitespace to strip or newline to indent |
| Escaping.SingleQuotes | clipboard2markdown.js:165 | no U+2018, U+2019 or U+00B4 is left; every other character comes from the input or is an apostrophe |
| Escaping.DoubleQuotes | clipboard2markdown.js:166 | no U+201C, U+201D or U+2033 is left; new characters are only `"` |
| Escaping.Hyphens | clipboard2markdown.js:167 | no U+2212, U+2022, U+00B7 or U+25AA is left; new characters are only `-` |
| Escaping.EnDashes | clipboard2markdown.js:168 | no U+2013 or U+2015 is left; new characters are only `-` |
| Escaping.EmDashes | clipboard2markdown.js:169 | no U+2014 is left; new characters are only `-` |
| Escaping.Ellipses | clipboard2markdown.js:170 | no U+2026 is left; new characters are only `.` |
| Escaping.NormalizePunctuation | clipboard2markdown.js:165-170 | the six passes in order equal one simultaneous map that sends each smart punctuation character to its ASCII spelling and keeps every other character |
| Escaping.PlainPunctuationUnchanged | clipboard2markdown.js:165-170 | text with no smart punctuation character goes through the six passes unchanged |
| Escaping.PunctuationPassesAsOneMap | clipboard2markdown.js:165-170 | the six dependent passes equal one simultaneous map sending each smart punctuation character to its ASCII spelling and keeping every other character |
| Escaping.NoSmartPunctuationLeft | clipboard2markdown.js:165-170 | after the six passes none of the fourteen characters is left |
| Escaping.ReplaceFirstMatch | clipboard2markdown.js:171-178 | for a scanner that replaces a regex globally, when the regex first matches at position `i` with length `n`, the result is the text before `i`, the replacement, then the scan of the text after the match |
| Escaping.ReplaceNoMatch | clipboard2markdown.js:171-178 | a scanner that replaces a regex globally leaves text in which the regex matches nowhere unchanged |
| Escaping.GlobalReplaceUnique | clipboard2markdown.js:171-178 | two scanners that replace the same regex by the same text agree on every input, so that description fixes the result |
| Escaping.RightSingleQuoteBecomesApostrophe | clipboard2markdown.js:165 | a U+2019 anywhere in the markup shows up as an apostrophe in the escaped line |
| Escaping.TrimSpacesBeforeNewline | clipboard2markdown.js:171 | only spaces are removed, no character is new, and no space is left right before a newline |
| Escaping.TrimSpacesBeforeNewlineReplaces | clipboard2markdown.js:171 | the step replaces every match of `[ ]+\n` (spaces, then a newline) by a newline, leftmost first, and copies everything else |
| Escaping.SpacesBeforeNewlineExample | clipboard2markdown.js:171 | only the space that ends the line goes: `a b \n` gives `a b\n` |
| Escaping.TrimSpacesKeeps | clipboard2markdown.js:171 | text with no space before a newline is unchanged |
| Escaping.TightenContinuations | clipboard2markdown.js:172 | only whitespace is removed and no character is new; text without a backslash is unchanged |
| Escaping.TightenContinuationsReplaces | clipboard2markdown.js:172 | the step replaces every match of `\s*\\\n` (whitespace, a backslash, a newline) by a backslash and a newline, and copies everything else |
| Escaping.DoubleContinuationBreak | clipboard2markdown.js:173 | only whitespace and backslashes are removed and no character is new; text without a backslash is unchanged |
| Escaping.DoubleContinuationBreakReplaces | clipboard2markdown.js:173 | the step replaces every match of `\s*\\\n\s*\\\n` (two continuations with whitespace before each) by two newlines, and copies everything else |
| Escaping.ContinuationBlankBreak | clipboard2markdown.js:174 | only whitespace and backslashes are removed and no character is new; text without a backslash is unchanged |
| Escaping.ContinuationBlankBreakReplaces | clipboard2markdown.js:174 | the step replaces every match of `\s*\\\n\n` (whitespace, a continuation, an empty line) by two newlines, and copies everything else |
| Escaping.DropHyphenLines | clipboard2markdown.js:175 | only newlines and hyphens are removed and no character is new; text without a hyphen is unchanged |
| Escaping.DropHyphenLinesReplaces | clipboard2markdown.js:175 | the step replaces every match of `\n-\n` by one newline, and copies everything else |
| Escaping.DropHyphenLinesExample | clipboard2markdown.js:175 | a lone hyphen line `\n-\n` gives one newline |
| Escaping.DropHyphenLinesTwice | clipboard2markdown.js:175 | the step is not idempotent: a second pass removes a hyphen line that the first pass brought together |
| Escaping.BlankLineContinuation | clipboard2markdown.js:176 | only whitespace and backslashes are removed and no character is new; text without a backslash is unchanged |
| Escaping.BlankLineContinuationReplaces | clipboard2markdown.js:176 | the step replaces every match of `\n\n\s*\\\n` (a blank line, whitespace, a continuation) by two newlines, and copies everything else |
| Escaping.CollapseBlankLines | clipboard2markdown.js:177 | only newlines are removed and no character is new, a leading newline is kept, and text without two newlines in a row is unchanged |
| Escaping.CollapseBlankLinesReplaces | clipboard2markdown.js:177 | the step replaces every maximal run of two or more newlines by exactly two, and copies everything else |
| Escaping.FourNewlinesCollapse | clipboard2markdown.js:177 | four newlines in a row become two |
| Escaping.CollapseLeavesNoTriple | clipboard2markdown.js:177 | no three newlines in a row are left |
| Escaping.CollapseKeepsCollapsed | clipboard2markdown.js:177 | text without three newlines in a row is a fixpoint of the step |
| Escaping.CollapseIdempotent | clipboard2markdown.js:177 | a second collapse changes nothing |
| Escaping.TrimLineEnds | clipboard2markdown.js:178 | only spaces are removed and no character is new, and no space is left at the end of a line or of the text |
| Escaping.TrimLineEndsReplaces | clipboard2markdown.js:178 | the step removes every run of spaces that is followed by a line terminator or the end, and copies everything else |
| Escaping.LineEndExample | clipboard2markdown.js:178 | only the space at the end of the line goes: `a b \n` gives `a b\n` |
| Escaping.TrimLineEndsKeeps | clipboard2markdown.js:178 | text with no space at a line end is unchanged |
| Escaping.TrimLineEndsIdempotent | clipboard2markdown.js:178 | a second pass changes nothing |
| Escaping.TrimTail | clipboard2markdown.js:179 | the result is a prefix of the text, the cut tail is all whitespace and backslashes, and the result does not end in either |
| Escaping.TrimEnds | clipboard2markdown.js:179 | the result is the text between its leading whitespace and its trailing whitespace and backslashes; it neither starts with whitespace nor ends with whitespace or a backslash |
| Escaping.TrimEndsIdempotent | clipboard2markdown.js:179 | trimming twice is trimming once |
| Escaping.Reflow | clipboard2markdown.js:171-179 | the whitespace steps together introduce no new character |
| Escaping.ReflowKeeps | clipboard2markdown.js:171-179 | every character that is not whitespace, a backslash or a hyphen survives the whitespace steps |
| Escaping.EscapeNewlines | clipboard2markdown.js:180 | no newline is left; new characters are only backslash and `n` |
| Escaping.UnescapeEscapeNewlines | clipboard2markdown.js:180 | reading `\n` back as a newline recovers the text whenever it held no backslash before an `n` |
| Escaping.NewlineEscapeCollides | clipboard2markdown.js:180 | a newline and a backslash-n escape to the same characters, so backslashes already in the text are not protected |
| Escaping.QuoteEscapeShape | clipboard2markdown.js:181 | every double quote of the translation is right after a backslash |
| Escaping.EscapeQuotes | clipboard2markdown.js:181 | every `"` is preceded by a backslash, no newline is added, and new characters are only backslashes |
| Escaping.UnescapeEscapeQuotes | clipboard2markdown.js:181 | reading `\"` back as `"` recovers the text exactly |
| Escaping.QuoteEscapeKeepsBackslash | clipboard2markdown.js:181 | a backslash already before a quote is not doubled: `a\"b` escapes to `a\\"b` |
| Escaping.Escape | clipboard2markdown.js:164-182 | the escaped line holds no smart punctuation and no newline, and every `"` in it is escaped |
| Escaping.EscapeKeeps | clipboard2markdown.js:164-182 | every character after the punctuation passes that is not whitespace, a backslash or a hyphen appears in the escaped line |
| Conversion.Convert | clipboard2markdown.js:184-187 | whatever the converter returns, the result is one line without smart punctuation and with its double quotes escaped |
| Conversion.ConvertKeeps | clipboard2markdown.js:184-187 | every ordinary character of the converter's normalised markup appears in the result |

## Left out

- `insert` (clipboard2markdown.js:189-210) moves the caret in a text field and focuses it. It is DOM and UI state, not conversion logic.
- The `DOMContentLoaded`, `keydown` and `paste` handlers, `setTimeout` and the CSS class toggling (clipboard2markdown.js:213-241) are browser event plumbing and timing.
- `console.log` (clipboard2markdown.js:185) is logging only.
- The generic HTML-to-markup converter `toMarkdown` is outside this file. Its DOM walk, whitespace handling and default rendering are not modelled. `Convert` takes it as a function parameter, and `Rules.Render` returns `None` where it would fall back to its default rendering.
- Real DOM nodes are abstracted:
  - a node is its `nodeName`, its parent, its ancestors, two sibling flags and its `href`;
  - the test `/li/i.test(parent.parentNode)` on an object's string form is the boolean `looksLikeLi`.
- Strings are sequences of Unicode scalar values, not UTF-16 code units. A character outside the Basic Multilingual Plane is one character here.
- Rules.Matches: lower-cases `nodeName` for ASCII letters only, whereas `toLowerCase` also folds other letters. Rule filters are ASCII tag names, so only non-ASCII `nodeName`s could differ.
- Text.IsWhiteSpace: follows the ECMAScript definition of `\s`, which no longer includes U+180E.
- Escaping.Escape: does not state that the whole pipeline leaves no run of three newlines before flattening. That property is proved only for the line-177 step, by `CollapseLeavesNoTriple`.
- Escaping.Escape: the worked example `\n\nh1. Title\n\n\n\nHello *world*\n\n` is not proved end to end. Evaluating seventeen scanners on a literal of that size is beyond the solver budget here. The properties of each step are proved for all inputs instead.
- Escaping.TrimSpacesBeforeNewline: its own contract states only what is removed and kept; which text it replaces, and by what, is stated by `TrimSpacesBeforeNewlineReplaces`.
- Escaping.TightenContinuations: its own contract states only what is removed and kept; which text it replaces, and by what, is stated by `TightenContinuationsReplaces`.
- Escaping.DoubleContinuationBreak: its own contract states only what is removed and kept; which text it replaces, and by what, is stated by `DoubleContinuationBreakReplaces`.
- Escaping.ContinuationBlankBreak: its own contract states only what is removed and kept; which text it replaces, and by what, is stated by `ContinuationBlankBreakReplaces`.
- Escaping.DropHyphenLines: its own contract states only what is removed and kept; which text it replaces, and by what, is stated by `DropHyphenLinesReplaces`.
- Escaping.BlankLineContinuation: its own contract states only what is removed and kept; which text it replaces, and by what, is stated by `BlankLineContinuationReplaces`.
- Escaping.CollapseBlankLines: its own contract states only what is removed and kept; which text it replaces, and by what, is stated by `CollapseBlankLinesReplaces`.
- Escaping.TrimLineEnds: its own contract states only what is removed and kept; which text it replaces, and by what, is stated by `TrimLineEndsReplaces`.
- Rules.ListPrefix: its own contract states the alphabet, the length bound and the parent's marker; the whole marker is stated by `ListPrefixClimbs`.
- Rules.FirstMatch: its own contract states only the range of the index; that it is the first accepting rule is stated by `FirstMatchIsFirst`.
- Escaping.DropHyphenLinesTwice: shows non-idempotence for one step only, not for the whole `escape` pipeline.
