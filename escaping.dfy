/** The escaper: a fixed pipeline of seventeen global replacements that
    turns the converter's markup into one line fit for a quoted string
    literal. Each step is its own function and follows JavaScript's global
    replace: the leftmost match is taken, quantifiers are greedy, matches do
    not overlap and the scan resumes right after each match. */
module Escaping {
  import opened Text

  // ------------------------------------------------ smart punctuation maps

  predicate IsSmartPunctuation(c: char) {
    || c == '\U{2018}' || c == '\U{2019}' || c == '\U{B4}'
    || c == '\U{201C}' || c == '\U{201D}' || c == '\U{2033}'
    || c == '\U{2212}' || c == '\U{2022}' || c == '\U{B7}' || c == '\U{25AA}'
    || c == '\U{2013}' || c == '\U{2015}'
    || c == '\U{2014}'
    || c == '\U{2026}'
  }

  /** The ASCII spelling of each smart punctuation character, all at once. */
  function AsciiPunctuation(c: char): string {
    if c == '\U{2018}' || c == '\U{2019}' || c == '\U{B4}' then "'"
    else if c == '\U{201C}' || c == '\U{201D}' || c == '\U{2033}' then "\""
    else if c == '\U{2212}' || c == '\U{2022}' || c == '\U{B7}' || c == '\U{25AA}' then "-"
    else if c == '\U{2013}' || c == '\U{2015}' then "--"
    else if c == '\U{2014}' then "---"
    else if c == '\U{2026}' then "..."
    else [c]
  }

  function SingleQuoteAscii(c: char): string {
    if c == '\U{2018}' || c == '\U{2019}' || c == '\U{B4}' then "'" else [c]
  }

  function DoubleQuoteAscii(c: char): string {
    if c == '\U{201C}' || c == '\U{201D}' || c == '\U{2033}' then "\"" else [c]
  }

  function HyphenAscii(c: char): string {
    if c == '\U{2212}' || c == '\U{2022}' || c == '\U{B7}' || c == '\U{25AA}' then "-" else [c]
  }

  function EnDashAscii(c: char): string {
    if c == '\U{2013}' || c == '\U{2015}' then "--" else [c]
  }

  function EmDashAscii(c: char): string {
    if c == '\U{2014}' then "---" else [c]
  }

  function EllipsisAscii(c: char): string {
    if c == '\U{2026}' then "..." else [c]
  }

  /** `/[‘’´]/g` replaced by an apostrophe. */
  function SingleQuotes(s: string): (r: string)
    ensures forall c :: c in r ==> c != '\U{2018}' && c != '\U{2019}' && c != '\U{B4}'
    ensures forall c :: c in r ==> c in s || c == '\''
  {
    TranslateSources(s, SingleQuoteAscii);
    Translate(s, SingleQuoteAscii)
  }

  /** `/[“”″]/g` replaced by a double quote. */
  function DoubleQuotes(s: string): (r: string)
    ensures forall c :: c in r ==> c != '\U{201C}' && c != '\U{201D}' && c != '\U{2033}'
    ensures forall c :: c in r ==> c in s || c == '"'
  {
    TranslateSources(s, DoubleQuoteAscii);
    Translate(s, DoubleQuoteAscii)
  }

  /** `/[−•·▪]/g` replaced by a hyphen. */
  function Hyphens(s: string): (r: string)
    ensures forall c :: c in r ==> c != '\U{2212}' && c != '\U{2022}' && c != '\U{B7}' && c != '\U{25AA}'
    ensures forall c :: c in r ==> c in s || c == '-'
  {
    TranslateSources(s, HyphenAscii);
    Translate(s, HyphenAscii)
  }

  /** `/[–―]/g` replaced by two hyphens. */
  function EnDashes(s: string): (r: string)
    ensures forall c :: c in r ==> c != '\U{2013}' && c != '\U{2015}'
    ensures forall c :: c in r ==> c in s || c == '-'
  {
    TranslateSources(s, EnDashAscii);
    Translate(s, EnDashAscii)
  }

  /** `/—/g` replaced by three hyphens. */
  function EmDashes(s: string): (r: string)
    ensures forall c :: c in r ==> c != '\U{2014}'
    ensures forall c :: c in r ==> c in s || c == '-'
  {
    TranslateSources(s, EmDashAscii);
    Translate(s, EmDashAscii)
  }

  /** `/…/g` replaced by three dots. */
  function Ellipses(s: string): (r: string)
    ensures forall c :: c in r ==> c != '\U{2026}'
    ensures forall c :: c in r ==> c in s || c == '.'
  {
    TranslateSources(s, EllipsisAscii);
    Translate(s, EllipsisAscii)
  }

  /** The six punctuation passes of lines 165-170, in order. Together they
      send every smart punctuation character to its ASCII spelling and keep
      every other character. */
  function NormalizePunctuation(s: string): (r: string)
    ensures r == Translate(s, AsciiPunctuation)
  {
    PunctuationPassesAsOneMap(s);
    Ellipses(EmDashes(EnDashes(Hyphens(DoubleQuotes(SingleQuotes(s))))))
  }

  lemma {:induction false} TranslateOne(c: char, f: char -> string)
    ensures Translate([c], f) == f(c)
  {
    assert [c][1..] == [];
  }

  /** Text without smart punctuation goes through the six passes unchanged. */
  lemma PlainPunctuationUnchanged(s: string)
    requires forall i :: 0 <= i < |s| ==> !IsSmartPunctuation(s[i])
    ensures NormalizePunctuation(s) == s
  {
    TranslateIdentity(s, AsciiPunctuation);
  }

  /** The passes distribute over concatenation, one after the other. */
  lemma {:induction false} PassesAppend(a: string, b: string)
    ensures Ellipses(EmDashes(EnDashes(Hyphens(DoubleQuotes(SingleQuotes(a + b))))))
         == Ellipses(EmDashes(EnDashes(Hyphens(DoubleQuotes(SingleQuotes(a))))))
          + Ellipses(EmDashes(EnDashes(Hyphens(DoubleQuotes(SingleQuotes(b))))))
  {
    TranslateAppend(a, b, SingleQuoteAscii);
    var a1, b1 := SingleQuotes(a), SingleQuotes(b);
    TranslateAppend(a1, b1, DoubleQuoteAscii);
    var a2, b2 := DoubleQuotes(a1), DoubleQuotes(b1);
    TranslateAppend(a2, b2, HyphenAscii);
    var a3, b3 := Hyphens(a2), Hyphens(b2);
    TranslateAppend(a3, b3, EnDashAscii);
    var a4, b4 := EnDashes(a3), EnDashes(b3);
    TranslateAppend(a4, b4, EmDashAscii);
    var a5, b5 := EmDashes(a4), EmDashes(b4);
    TranslateAppend(a5, b5, EllipsisAscii);
  }

  /** A string of one repeated ASCII mark, which the later passes keep. */
  lemma {:induction false} MarksKept(t: string, f: char -> string)
    requires forall i :: 0 <= i < |t| ==> t[i] == t[0] && f(t[0]) == [t[0]]
    ensures Translate(t, f) == t
  {
    if t != [] {
      assert t[1..] == [] || t[1..][0] == t[0];
      MarksKept(t[1..], f);
    }
  }

  /** Each character, passed through all six passes, becomes its ASCII spelling. */
  lemma {:induction false} PassesOnOneChar(c: char)
    ensures Ellipses(EmDashes(EnDashes(Hyphens(DoubleQuotes(SingleQuotes([c])))))) == AsciiPunctuation(c)
  {
    TranslateOne(c, SingleQuoteAscii);
    if c == '\U{2018}' || c == '\U{2019}' || c == '\U{B4}' {
      MarksKept("'", DoubleQuoteAscii);
      MarksKept("'", HyphenAscii);
      MarksKept("'", EnDashAscii);
      MarksKept("'", EmDashAscii);
      MarksKept("'", EllipsisAscii);
      return;
    }
    TranslateOne(c, DoubleQuoteAscii);
    if c == '\U{201C}' || c == '\U{201D}' || c == '\U{2033}' {
      MarksKept("\"", HyphenAscii);
      MarksKept("\"", EnDashAscii);
      MarksKept("\"", EmDashAscii);
      MarksKept("\"", EllipsisAscii);
      return;
    }
    TranslateOne(c, HyphenAscii);
    if c == '\U{2212}' || c == '\U{2022}' || c == '\U{B7}' || c == '\U{25AA}' {
      MarksKept("-", EnDashAscii);
      MarksKept("-", EmDashAscii);
      MarksKept("-", EllipsisAscii);
      return;
    }
    TranslateOne(c, EnDashAscii);
    if c == '\U{2013}' || c == '\U{2015}' {
      MarksKept("--", EmDashAscii);
      MarksKept("--", EllipsisAscii);
      return;
    }
    TranslateOne(c, EmDashAscii);
    if c == '\U{2014}' {
      MarksKept("---", EllipsisAscii);
      return;
    }
    TranslateOne(c, EllipsisAscii);
  }

  /** The six dependent passes agree with one simultaneous map: no pass
      touches what an earlier one produced, so each smart punctuation
      character ends up as exactly its ASCII spelling. */
  lemma {:induction false} PunctuationPassesAsOneMap(s: string)
    ensures Ellipses(EmDashes(EnDashes(Hyphens(DoubleQuotes(SingleQuotes(s)))))) == Translate(s, AsciiPunctuation)
  {
    if s != [] {
      PunctuationPassesAsOneMap(s[1..]);
      assert s == [s[0]] + s[1..];
      PassesAppend([s[0]], s[1..]);
      PassesOnOneChar(s[0]);
    }
  }

  /** After the punctuation passes no smart punctuation is left. */
  lemma {:induction false} NoSmartPunctuationLeft(s: string)
    ensures forall c :: c in NormalizePunctuation(s) ==> !IsSmartPunctuation(c)
  {
    TranslateSources(s, AsciiPunctuation);
  }

  // ------------------------------------------- whitespace and line breaks

  predicate IsNewlineOrHyphen(c: char) {
    c == '\n' || c == '-'
  }

  /** A backslash followed by a newline starts at `i`. */
  predicate ContinuationAt(s: string, i: nat) {
    i + 2 <= |s| && s[i] == '\\' && s[i + 1] == '\n'
  }

  predicate NoSpaceBeforeNewline(r: string) {
    forall i :: 0 <= i < |r| - 1 ==> !(r[i] == ' ' && r[i + 1] == '\n')
  }

  /** The replacement texts of lines 173, 174 and 176 erase like the
      continuations they replace, and bring only a newline. */
  lemma BreakForContinuation()
    ensures Erase("\n\n", IsSpaceOrBackslash) == [] == Erase("\\\n", IsSpaceOrBackslash)
    ensures Erase("\\\n\n", IsSpaceOrBackslash) == []
    ensures '\n' in "\\\n"
  {
    EraseAllDropped("\n\n", IsSpaceOrBackslash);
    EraseAllDropped("\\\n", IsSpaceOrBackslash);
    EraseAllDropped("\\\n\n", IsSpaceOrBackslash);
    assert "\\\n"[1] == '\n';
  }

  lemma NewlineForHyphenLine()
    ensures Erase("\n", IsNewlineOrHyphen) == [] == Erase("\n-\n", IsNewlineOrHyphen)
  {
    EraseAllDropped("\n", IsNewlineOrHyphen);
    EraseAllDropped("\n-\n", IsNewlineOrHyphen);
  }

  /** A run of two or more newlines and a blank line both erase to nothing. */
  lemma BlankLineForNewlines(t: string)
    requires |t| >= 2 && forall i :: 0 <= i < |t| ==> t[i] == '\n'
    ensures Erase("\n\n", IsNewline) == [] == Erase(t, IsNewline)
    ensures forall c :: c in "\n\n" ==> c in t
  {
    EraseAllDropped("\n\n", IsNewline);
    EraseAllDropped(t, IsNewline);
    assert t[0] == '\n';
  }

  // ------------------------------------- the scanners as global replacements

  /** `f` replaces every match of a regex by `lit`, as `String.prototype.replace`
      does with a `g` regex. `pat(t, n)` says that the regex matches at the
      start of `t` with length `n`, the length its own backtracking picks. At
      a match the replacement is emitted and the scan resumes after the
      match; elsewhere one character is copied and the scan moves on. */
  ghost predicate GlobalReplace(f: string -> string, pat: (string, nat) -> bool, lit: string) {
    && f([]) == []
    && (forall t, n: nat :: pat(t, n) ==> 0 < n <= |t| && f(t) == lit + f(t[n..]))
    && (forall t :: t != [] ==> (forall n: nat :: !pat(t, n)) ==> f(t) == [t[0]] + f(t[1..]))
  }

  /** Text in which the regex matches nowhere goes through unchanged. */
  lemma {:induction false} ReplaceNoMatch(f: string -> string, pat: (string, nat) -> bool, lit: string, s: string)
    requires GlobalReplace(f, pat, lit)
    requires forall k, n: nat :: 0 <= k <= |s| ==> !pat(s[k..], n)
    ensures f(s) == s
    decreases |s|
  {
    if s != [] {
      forall n: nat ensures !pat(s, n) {
        assert s[0..] == s;
      }
      forall k, n: nat | 0 <= k <= |s[1..]| ensures !pat(s[1..][k..], n) {
        assert s[1..][k..] == s[k + 1..];
      }
      ReplaceNoMatch(f, pat, lit, s[1..]);
      assert s == [s[0]] + s[1..];
    }
  }

  /** The leftmost match is replaced and everything before it is kept:
      when the regex first matches at `i`, with length `n`, the result is
      the text before `i`, the replacement, and the rest of the scan. */
  lemma {:induction false} ReplaceFirstMatch(f: string -> string, pat: (string, nat) -> bool, lit: string,
                                             s: string, i: nat, n: nat)
    requires GlobalReplace(f, pat, lit)
    requires i <= |s| && pat(s[i..], n)
    requires forall k, m: nat :: 0 <= k < i ==> !pat(s[k..], m)
    ensures i + n <= |s| && f(s) == s[..i] + (lit + f(s[i + n..]))
    decreases i
  {
    if i == 0 {
      assert s[0..] == s && s[..0] == [];
    } else {
      NoMatchBefore(pat, s, i);
      assert s[1..][i - 1..] == s[i..];
      ReplaceFirstMatch(f, pat, lit, s[1..], i - 1, n);
      assert s[1..][i - 1 + n..] == s[i + n..];
      assert s[..i] == [s[0]] + s[1..][..i - 1];
      ConsAppend(s[0], s[1..][..i - 1], lit + f(s[i + n..]));
    }
  }

  /** No match before `i` in `s`: none at its start, and none before `i - 1` in its tail. */
  lemma NoMatchBefore(pat: (string, nat) -> bool, s: string, i: nat)
    requires 0 < i <= |s|
    requires forall k, m: nat :: 0 <= k < i ==> !pat(s[k..], m)
    ensures forall m: nat :: !pat(s, m)
    ensures forall k, m: nat :: 0 <= k < i - 1 ==> !pat(s[1..][k..], m)
  {
    assert s[0..] == s;
    forall k: nat | 0 <= k < i - 1 ensures s[1..][k..] == s[k + 1..] {
    }
  }

  lemma ConsAppend(c: char, a: string, x: string)
    ensures [c] + (a + x) == ([c] + a) + x
  {
  }

  /** Two scanners that replace the same regex by the same text agree on
      every input: the description above determines the result. */
  lemma {:induction false} GlobalReplaceUnique(f: string -> string, g: string -> string,
                                               pat: (string, nat) -> bool, lit: string, s: string)
    requires GlobalReplace(f, pat, lit) && GlobalReplace(g, pat, lit)
    ensures f(s) == g(s)
    decreases |s|
  {
    if s != [] {
      if exists n: nat :: pat(s, n) {
        var n: nat :| pat(s, n);
        GlobalReplaceUnique(f, g, pat, lit, s[n..]);
      } else {
        GlobalReplaceUnique(f, g, pat, lit, s[1..]);
      }
    }
  }

  /** Line 171, `/[ ]+\n/g` replaced by a newline: runs of spaces (not tabs)
      that end a line are removed, and nothing else changes. */
  function TrimSpacesBeforeNewline(s: string): (r: string)
    ensures forall c :: c in r ==> c in s
    ensures Erase(r, IsBlank) == Erase(s, IsBlank)
    ensures NoSpaceBeforeNewline(r)
    ensures r != [] && r[0] == '\n' ==> Run(s, IsBlank) < |s| && s[Run(s, IsBlank)] == '\n'
    decreases |s|
  {
    if s == [] then []
    else
      var n := Run(s, IsBlank);
      if 0 < n < |s| && s[n] == '\n' then
        var rest := TrimSpacesBeforeNewline(s[n + 1..]);
        TrimSpacesMatch(s, n, rest);
        "\n" + rest
      else
        var rest := TrimSpacesBeforeNewline(s[1..]);
        TrimSpacesKeep(s, rest);
        [s[0]] + rest
  }

  /** One match of line 171: the spaces and the newline become the newline. */
  lemma {:induction false} TrimSpacesMatch(s: string, n: nat, rest: string)
    requires n == Run(s, IsBlank) && 0 < n < |s| && s[n] == '\n'
    requires forall c :: c in rest ==> c in s[n + 1..]
    requires Erase(rest, IsBlank) == Erase(s[n + 1..], IsBlank)
    requires NoSpaceBeforeNewline(rest)
    ensures forall c :: c in "\n" + rest ==> c in s
    ensures Erase("\n" + rest, IsBlank) == Erase(s, IsBlank)
    ensures NoSpaceBeforeNewline("\n" + rest)
  {
    assert s[n..n + 1] == "\n";
    ReplaceStep(s, n, "\n", "\n", rest, IsBlank);
    NoSpaceBeforeNewlineCons('\n', rest);
  }

  /** A character that is not a space before a newline keeps the property. */
  lemma {:induction false} NoSpaceBeforeNewlineCons(c: char, rest: string)
    requires NoSpaceBeforeNewline(rest)
    requires c == ' ' ==> rest == [] || rest[0] != '\n'
    ensures NoSpaceBeforeNewline([c] + rest)
  {
    var r := [c] + rest;
    forall i | 0 <= i < |r| - 1 ensures !(r[i] == ' ' && r[i + 1] == '\n') {
      if i > 0 {
        assert r[i] == rest[i - 1] && r[i + 1] == rest[i];
      }
    }
  }

  /** A step of line 171 that keeps the first character. */
  lemma {:induction false} TrimSpacesKeep(s: string, rest: string)
    requires s != [] && !(0 < Run(s, IsBlank) < |s| && s[Run(s, IsBlank)] == '\n')
    requires forall c :: c in rest ==> c in s[1..]
    requires Erase(rest, IsBlank) == Erase(s[1..], IsBlank)
    requires NoSpaceBeforeNewline(rest)
    requires rest != [] && rest[0] == '\n' ==>
      Run(s[1..], IsBlank) < |s[1..]| && s[1..][Run(s[1..], IsBlank)] == '\n'
    ensures forall c :: c in [s[0]] + rest ==> c in s
    ensures Erase([s[0]] + rest, IsBlank) == Erase(s, IsBlank)
    ensures NoSpaceBeforeNewline([s[0]] + rest)
    ensures s[0] == '\n' ==> Run(s, IsBlank) < |s| && s[Run(s, IsBlank)] == '\n'
  {
    KeepStep(s, rest, IsBlank);
    assert IsBlank(s[0]) ==> Run(s, IsBlank) == 1 + Run(s[1..], IsBlank);
    NoSpaceBeforeNewlineCons(s[0], rest);
  }

  /** Line 171's regex `[ ]+\n` matches at the start of `t` with length `n`. */
  predicate SpacedNewline(t: string, n: nat) {
    2 <= n <= |t| && Within(t, 0, n - 1, IsBlank) && t[n - 1] == '\n'
  }

  /** TrimSpacesBeforeNewline is the global replacement of line 171. */
  lemma TrimSpacesBeforeNewlineReplaces()
    ensures GlobalReplace(TrimSpacesBeforeNewline, SpacedNewline, "\n")
  {
    forall t, n: nat | SpacedNewline(t, n)
      ensures 0 < n <= |t| && TrimSpacesBeforeNewline(t) == "\n" + TrimSpacesBeforeNewline(t[n..])
    {
      RunExact(t, IsBlank, n - 1);
      TrimSpacesStep(t, n - 1);
    }
    forall t | t != []
      ensures (forall n: nat :: !SpacedNewline(t, n)) ==> TrimSpacesBeforeNewline(t) == [t[0]] + TrimSpacesBeforeNewline(t[1..])
    {
      var k := Run(t, IsBlank);
      if 0 < k < |t| && t[k] == '\n' {
        assert SpacedNewline(t, k + 1);
      } else {
        TrimSpacesCopy(t);
      }
    }
  }

  /** The scanner of line 171 where spaces end a line. */
  lemma TrimSpacesStep(t: string, k: nat)
    requires k == Run(t, IsBlank) && 0 < k < |t| && t[k] == '\n'
    ensures TrimSpacesBeforeNewline(t) == "\n" + TrimSpacesBeforeNewline(t[k + 1..])
  {
  }

  /** The scanner of line 171 where no spaces end a line. */
  lemma TrimSpacesCopy(t: string)
    requires t != [] && !(0 < Run(t, IsBlank) < |t| && t[Run(t, IsBlank)] == '\n')
    ensures TrimSpacesBeforeNewline(t) == [t[0]] + TrimSpacesBeforeNewline(t[1..])
  {
  }

  /** Text with no space right before a newline is left as it is by line 171. */
  lemma {:induction false} TrimSpacesKeeps(s: string)
    requires NoSpaceBeforeNewline(s)
    ensures TrimSpacesBeforeNewline(s) == s
  {
    TrimSpacesBeforeNewlineReplaces();
    forall k, m: nat | 0 <= k <= |s| ensures !SpacedNewline(s[k..], m) {
      if 2 <= m <= |s| - k {
        assert s[k..][..m - 1][m - 2] == s[k + m - 2] && s[k..][m - 1] == s[k + m - 1];
      }
    }
    ReplaceNoMatch(TrimSpacesBeforeNewline, SpacedNewline, "\n", s);
  }

  /** In `a b \n`, `[ ]+\n` first matches at 3, with length 2. */
  lemma SpacedNewlineInExample()
    ensures forall k, m: nat :: 0 <= k < 3 ==> !SpacedNewline("a b \n"[k..], m)
    ensures SpacedNewline("a b \n"[3..], 2)
  {
    var s := "a b \n";
    forall k, m: nat | 0 <= k < 3 ensures !SpacedNewline(s[k..], m) {
      assert s[k..][0] == s[k];
      if k == 1 {
        assert s[k..][1] == s[2];
      }
    }
  }

  /** Any global replacement of `[ ]+\n` keeps the space inside `a b \n`. */
  lemma SpacedNewlineExample(f: string -> string)
    requires GlobalReplace(f, SpacedNewline, "\n")
    ensures f("a b \n") == "a b\n"
  {
    SpacedNewlineInExample();
    ReplaceFirstMatch(f, SpacedNewline, "\n", "a b \n", 3, 2);
    assert "a b \n"[..3] == "a b" && "a b \n"[5..] == [];
  }

  /** Only the space that ends the line goes: `a b \n` becomes `a b\n`. */
  lemma SpacesBeforeNewlineExample()
    ensures TrimSpacesBeforeNewline("a b \n") == "a b\n"
  {
    TrimSpacesBeforeNewlineReplaces();
    SpacedNewlineExample(TrimSpacesBeforeNewline);
  }

  /** Line 172, `/\s*\\\n/g` replaced by a backslash and a newline: the
      whitespace in front of a continuation is removed. */
  function TightenContinuations(s: string): (r: string)
    ensures forall c :: c in r ==> c in s
    ensures Erase(r, IsSpace) == Erase(s, IsSpace)
    ensures '\\' !in s ==> r == s
    decreases |s|
  {
    if s == [] then []
    else
      var n := Run(s, IsSpace);
      if ContinuationAt(s, n) then
        var rest := TightenContinuations(s[n + 2..]);
        TightenMatch(s, n, rest);
        "\\\n" + rest
      else
        var rest := TightenContinuations(s[1..]);
        KeepStep(s, rest, IsSpace);
        [s[0]] + rest
  }

  /** One match of line 172: the whitespace before the continuation goes. */
  lemma {:induction false} TightenMatch(s: string, n: nat, rest: string)
    requires n == Run(s, IsSpace) && ContinuationAt(s, n)
    requires forall c :: c in rest ==> c in s[n + 2..]
    requires Erase(rest, IsSpace) == Erase(s[n + 2..], IsSpace)
    ensures forall c :: c in "\\\n" + rest ==> c in s
    ensures Erase("\\\n" + rest, IsSpace) == Erase(s, IsSpace)
    ensures '\\' in s
  {
    assert s[n..n + 2] == "\\\n";
    ReplaceStep(s, n, "\\\n", "\\\n", rest, IsSpace);
  }

  /** Line 172's regex `\s*\\\n` matches at the start of `t` with length `n`. */
  predicate SpacedContinuation(t: string, n: nat) {
    2 <= n <= |t| && Within(t, 0, n - 2, IsSpace) && ContinuationAt(t, n - 2)
  }

  /** TightenContinuations is the global replacement of line 172. */
  lemma TightenContinuationsReplaces()
    ensures GlobalReplace(TightenContinuations, SpacedContinuation, "\\\n")
  {
    forall t, n: nat | SpacedContinuation(t, n)
      ensures 0 < n <= |t| && TightenContinuations(t) == "\\\n" + TightenContinuations(t[n..])
    {
      RunExact(t, IsSpace, n - 2);
    }
    forall t | t != []
      ensures (forall n: nat :: !SpacedContinuation(t, n)) ==> TightenContinuations(t) == [t[0]] + TightenContinuations(t[1..])
    {
      var k := Run(t, IsSpace);
      if ContinuationAt(t, k) {
        assert SpacedContinuation(t, k + 2);
      }
    }
  }

  /** Where whitespace after the continuation at `n` ends. */
  function AfterContinuation(s: string, n: nat): (m: nat)
    requires ContinuationAt(s, n)
    ensures n + 2 <= m <= |s|
    ensures forall i :: n + 2 <= i < m ==> IsSpace(s[i])
    ensures m < |s| ==> !IsSpace(s[m])
  {
    var k := Run(s[n + 2..], IsSpace);
    assert forall i :: n + 2 <= i < n + 2 + k ==> s[i] == s[n + 2..][i - n - 2];
    n + 2 + k
  }

  lemma ContinuationsDropped(s: string, n: nat, m: nat)
    requires n == Run(s, IsSpace) && ContinuationAt(s, n) && m == AfterContinuation(s, n)
    ensures forall i :: 0 <= i < m ==> IsSpaceOrBackslash(s[i])
  {
  }

  /** The match of line 173: everything before the second continuation is
      whitespace or a backslash, and the continuation erases like a blank line. */
  lemma {:induction false} DoubleContinuationMatch(s: string, m: nat, rest: string)
    requires ContinuationAt(s, m)
    requires forall i :: 0 <= i < m ==> IsSpaceOrBackslash(s[i])
    requires Erase(rest, IsSpaceOrBackslash) == Erase(s[m + 2..], IsSpaceOrBackslash)
    requires forall c :: c in rest ==> c in s[m + 2..]
    ensures Erase("\n\n" + rest, IsSpaceOrBackslash) == Erase(s, IsSpaceOrBackslash)
    ensures forall c :: c in "\n\n" + rest ==> c in s
    ensures '\\' in s
  {
    BreakForContinuation();
    assert s[m..m + 2] == "\\\n";
    ReplaceStep(s, m, "\\\n", "\n\n", rest, IsSpaceOrBackslash);
  }



  /** How much of `s`'s start the scanner of line 173 replaces: whitespace,
      a continuation, whitespace and a continuation; 0 when they are not there. */
  function DoubleContinuationLength(s: string): (e: nat)
    ensures e <= |s|
    ensures e > 0 ==> && 4 <= e && ContinuationAt(s, Run(s, IsSpace)) && ContinuationAt(s, e - 2)
                      && e - 2 == AfterContinuation(s, Run(s, IsSpace))
  {
    var n := Run(s, IsSpace);
    if ContinuationAt(s, n) && ContinuationAt(s, AfterContinuation(s, n)) then AfterContinuation(s, n) + 2 else 0
  }

  /** Line 173, `/\s*\\\n\s*\\\n/g` replaced by a blank line: two
      continuations in a row become one paragraph break. */
  function DoubleContinuationBreak(s: string): (r: string)
    ensures forall c :: c in r ==> c in s
    ensures Erase(r, IsSpaceOrBackslash) == Erase(s, IsSpaceOrBackslash)
    ensures '\\' !in s ==> r == s
    decreases |s|
  {
    if s == [] then []
    else
      var e := DoubleContinuationLength(s);
      if e > 0 then
        var rest := DoubleContinuationBreak(s[e..]);
        DoubleContinuationTaken(s, e, rest);
        "\n\n" + rest
      else
        var rest := DoubleContinuationBreak(s[1..]);
        BackslashKeep(s, rest);
        [s[0]] + rest
  }

  /** A step of line 173 that replaces the match of length `e`. */
  lemma {:induction false} DoubleContinuationTaken(s: string, e: nat, rest: string)
    requires e == DoubleContinuationLength(s) && e > 0
    requires Erase(rest, IsSpaceOrBackslash) == Erase(s[e..], IsSpaceOrBackslash)
    requires forall c :: c in rest ==> c in s[e..]
    ensures Erase("\n\n" + rest, IsSpaceOrBackslash) == Erase(s, IsSpaceOrBackslash)
    ensures forall c :: c in "\n\n" + rest ==> c in s
    ensures '\\' in s
  {
    ContinuationsDropped(s, Run(s, IsSpace), e - 2);
    DoubleContinuationMatch(s, e - 2, rest);
  }

  /** A step of a backslash scanner that keeps the first character. */
  lemma {:induction false} BackslashKeep(s: string, rest: string)
    requires s != []
    requires Erase(rest, IsSpaceOrBackslash) == Erase(s[1..], IsSpaceOrBackslash)
    requires forall c :: c in rest ==> c in s[1..]
    requires '\\' !in s[1..] ==> rest == s[1..]
    ensures Erase([s[0]] + rest, IsSpaceOrBackslash) == Erase(s, IsSpaceOrBackslash)
    ensures forall c :: c in [s[0]] + rest ==> c in s
    ensures '\\' !in s ==> [s[0]] + rest == s
  {
    KeepStep(s, rest, IsSpaceOrBackslash);
    if '\\' !in s {
      assert forall c :: c in s[1..] ==> c in s;
    }
  }

  /** Line 173's regex `\s*\\\n\s*\\\n` matches at the start of `t` with
      length `n`: whitespace, a continuation, whitespace, a continuation. */
  ghost predicate DoubleContinuation(t: string, n: nat) {
    && 4 <= n <= |t|
    && ContinuationAt(t, n - 2)
    && exists m: nat :: m + 4 <= n && Within(t, 0, m, IsSpace) && ContinuationAt(t, m) && Within(t, m + 2, n - 2, IsSpace)
  }

  /** Whitespace after a continuation that the next character ends is all of it. */
  lemma AfterContinuationExact(t: string, m: nat, e: nat)
    requires ContinuationAt(t, m) && m + 2 <= e <= |t|
    requires Within(t, m + 2, e, IsSpace) && (e == |t| || !IsSpace(t[e]))
    ensures AfterContinuation(t, m) == e
  {
  }

  /** DoubleContinuationBreak is the global replacement of line 173. */
  lemma DoubleContinuationBreakReplaces()
    ensures GlobalReplace(DoubleContinuationBreak, DoubleContinuation, "\n\n")
  {
    forall t, n: nat | DoubleContinuation(t, n)
      ensures 0 < n <= |t| && DoubleContinuationBreak(t) == "\n\n" + DoubleContinuationBreak(t[n..])
    {
      DoubleContinuationReplaced(t, n);
    }
    forall t | t != []
      ensures (forall n: nat :: !DoubleContinuation(t, n)) ==> DoubleContinuationBreak(t) == [t[0]] + DoubleContinuationBreak(t[1..])
    {
      if DoubleContinuationLength(t) > 0 {
        DoubleContinuationFound(t);
      }
    }
  }

  /** Where line 173's regex matches, the scanner replaces exactly that match. */
  lemma DoubleContinuationReplaced(t: string, n: nat)
    requires DoubleContinuation(t, n)
    ensures 0 < n <= |t| && DoubleContinuationBreak(t) == "\n\n" + DoubleContinuationBreak(t[n..])
  {
    DoubleContinuationMatchLength(t, n);
    DoubleContinuationStep(t, n);
  }

  /** Where line 173's regex matches, the scanner measures the same match. */
  lemma DoubleContinuationMatchLength(t: string, n: nat)
    requires DoubleContinuation(t, n)
    ensures DoubleContinuationLength(t) == n
  {
    var m: nat :| m + 4 <= n && Within(t, 0, m, IsSpace) && ContinuationAt(t, m) && Within(t, m + 2, n - 2, IsSpace);
    DoubleContinuationLengthExact(t, m, n - 2);
  }

  lemma DoubleContinuationLengthExact(t: string, m: nat, e: nat)
    requires Within(t, 0, m, IsSpace) && ContinuationAt(t, m)
    requires m + 2 <= e && Within(t, m + 2, e, IsSpace) && ContinuationAt(t, e)
    ensures DoubleContinuationLength(t) == e + 2
  {
    RunExact(t, IsSpace, m);
    AfterContinuationExact(t, m, e);
  }

  /** The scanner of line 173 where it replaces. */
  lemma DoubleContinuationStep(t: string, e: nat)
    requires DoubleContinuationLength(t) == e && e > 0
    ensures DoubleContinuationBreak(t) == "\n\n" + DoubleContinuationBreak(t[e..])
  {
  }

  /** Where the scanner of line 173 replaces, line 173's regex matches. */
  lemma DoubleContinuationFound(t: string)
    requires DoubleContinuationLength(t) > 0
    ensures DoubleContinuation(t, DoubleContinuationLength(t))
  {
    var k := Run(t, IsSpace);
    var e := AfterContinuation(t, k);
    assert Within(t, 0, k, IsSpace) && Within(t, k + 2, e, IsSpace);
    assert DoubleContinuation(t, e + 2);
  }

  /** Line 174, `/\s*\\\n\n/g` replaced by a blank line: a continuation
      followed by an empty line becomes a paragraph break. */
  function ContinuationBlankBreak(s: string): (r: string)
    ensures forall c :: c in r ==> c in s
    ensures Erase(r, IsSpaceOrBackslash) == Erase(s, IsSpaceOrBackslash)
    ensures '\\' !in s ==> r == s
    decreases |s|
  {
    if s == [] then []
    else
      var n := Run(s, IsSpace);
      if ContinuationAt(s, n) && n + 3 <= |s| && s[n + 2] == '\n' then
        var rest := ContinuationBlankBreak(s[n + 3..]);
        ContinuationBlankMatch(s, n, rest);
        "\n\n" + rest
      else
        var rest := ContinuationBlankBreak(s[1..]);
        KeepStep(s, rest, IsSpaceOrBackslash);
        [s[0]] + rest
  }
  /** One match of line 174: a continuation followed by an empty line
      becomes a blank line. */
  lemma {:induction false} ContinuationBlankMatch(s: string, n: nat, rest: string)
    requires n == Run(s, IsSpace) && ContinuationAt(s, n) && n + 3 <= |s| && s[n + 2] == '\n'
    requires forall c :: c in rest ==> c in s[n + 3..]
    requires Erase(rest, IsSpaceOrBackslash) == Erase(s[n + 3..], IsSpaceOrBackslash)
    ensures forall c :: c in "\n\n" + rest ==> c in s
    ensures Erase("\n\n" + rest, IsSpaceOrBackslash) == Erase(s, IsSpaceOrBackslash)
    ensures '\\' in s
  {
    assert s[n] == '\\';
    BreakForContinuation();
    assert s[n..n + 3] == "\\\n\n";
    ReplaceStep(s, n, "\\\n\n", "\n\n", rest, IsSpaceOrBackslash);
  }


  /** Line 174's regex `\s*\\\n\n` matches at the start of `t` with length `n`. */
  predicate ContinuationThenBlank(t: string, n: nat) {
    3 <= n <= |t| && Within(t, 0, n - 3, IsSpace) && ContinuationAt(t, n - 3) && t[n - 1] == '\n'
  }

  /** ContinuationBlankBreak is the global replacement of line 174. */
  lemma ContinuationBlankBreakReplaces()
    ensures GlobalReplace(ContinuationBlankBreak, ContinuationThenBlank, "\n\n")
  {
    forall t, n: nat | ContinuationThenBlank(t, n)
      ensures 0 < n <= |t| && ContinuationBlankBreak(t) == "\n\n" + ContinuationBlankBreak(t[n..])
    {
      RunExact(t, IsSpace, n - 3);
    }
    forall t | t != []
      ensures (forall n: nat :: !ContinuationThenBlank(t, n)) ==> ContinuationBlankBreak(t) == [t[0]] + ContinuationBlankBreak(t[1..])
    {
      var k := Run(t, IsSpace);
      if ContinuationAt(t, k) && k + 3 <= |t| && t[k + 2] == '\n' {
        ContinuationThenBlankFound(t);
      }
    }
  }

  /** Where the scanner of line 174 replaces, line 174's regex matches. */
  lemma ContinuationThenBlankFound(t: string)
    requires var k := Run(t, IsSpace); ContinuationAt(t, k) && k + 3 <= |t| && t[k + 2] == '\n'
    ensures ContinuationThenBlank(t, Run(t, IsSpace) + 3)
  {
  }

  /** Line 175, `/\n-\n/g` replaced by a newline: a line holding a lone
      hyphen is dropped. */
  function DropHyphenLines(s: string): (r: string)
    ensures forall c :: c in r ==> c in s
    ensures Erase(r, IsNewlineOrHyphen) == Erase(s, IsNewlineOrHyphen)
    ensures '-' !in s ==> r == s
    decreases |s|
  {
    if s == [] then []
    else if |s| >= 3 && s[..3] == "\n-\n" then
      var rest := DropHyphenLines(s[3..]);
      NewlineForHyphenLine();
      ReplaceStep(s, 0, "\n-\n", "\n", rest, IsNewlineOrHyphen);
      "\n" + rest
    else
      var rest := DropHyphenLines(s[1..]);
      KeepStep(s, rest, IsNewlineOrHyphen);
      [s[0]] + rest
  }

  /** Line 175's regex `\n-\n` matches at the start of `t` with length `n`. */
  predicate HyphenLine(t: string, n: nat) {
    n == 3 && 3 <= |t| && t[..3] == "\n-\n"
  }

  /** DropHyphenLines is the global replacement of line 175. */
  lemma DropHyphenLinesReplaces()
    ensures GlobalReplace(DropHyphenLines, HyphenLine, "\n")
  {
    forall t | t != []
      ensures (forall n: nat :: !HyphenLine(t, n)) ==> DropHyphenLines(t) == [t[0]] + DropHyphenLines(t[1..])
    {
      if |t| >= 3 && t[..3] == "\n-\n" {
        assert HyphenLine(t, 3);
      }
    }
  }

  /** Any global replacement of `\n-\n` by a newline turns a lone hyphen line into one newline. */
  lemma HyphenLineExample(f: string -> string)
    requires GlobalReplace(f, HyphenLine, "\n")
    ensures f("\n-\n") == "\n"
  {
    assert HyphenLine("\n-\n"[0..], 3);
    ReplaceFirstMatch(f, HyphenLine, "\n", "\n-\n", 0, 3);
    assert "\n-\n"[3..] == [];
  }

  /** A lone hyphen line becomes one newline: `\n-\n` gives `\n`. */
  lemma DropHyphenLinesExample()
    ensures DropHyphenLines("\n-\n") == "\n"
  {
    DropHyphenLinesReplaces();
    HyphenLineExample(DropHyphenLines);
  }

  /** Line 176, `/\n\n\s*\\\n/g` replaced by a blank line: a continuation
      after a blank line is dropped. */
  function BlankLineContinuation(s: string): (r: string)
    ensures forall c :: c in r ==> c in s
    ensures Erase(r, IsSpaceOrBackslash) == Erase(s, IsSpaceOrBackslash)
    ensures '\\' !in s ==> r == s
    decreases |s|
  {
    if s == [] then []
    else
      var e := BlankLineContinuationLength(s);
      if e > 0 then
        var rest := BlankLineContinuation(s[e..]);
        BlankLineContinuationTaken(s, e, rest);
        "\n\n" + rest
      else
        var rest := BlankLineContinuation(s[1..]);
        BackslashKeep(s, rest);
        [s[0]] + rest
  }

  /** How much of `s`'s start the scanner of line 176 replaces: two newlines,
      whitespace and a continuation; 0 when they are not there. */
  function BlankLineContinuationLength(s: string): (e: nat)
    ensures e <= |s|
    ensures e > 0 ==> && 4 <= e && s[0] == '\n' && s[1] == '\n'
                      && e - 2 == 2 + Run(s[2..], IsSpace) && ContinuationAt(s, e - 2)
  {
    if |s| >= 2 && s[0] == '\n' && s[1] == '\n' && ContinuationAt(s, 2 + Run(s[2..], IsSpace))
    then 2 + Run(s[2..], IsSpace) + 2
    else 0
  }

  /** The scanner of line 176 where it replaces. */
  lemma BlankLineContinuationStep(t: string, e: nat)
    requires BlankLineContinuationLength(t) == e && e > 0
    ensures BlankLineContinuation(t) == "\n\n" + BlankLineContinuation(t[e..])
  {
  }

  /** One match of line 176: the blank line and the continuation after it
      become a blank line. */
  lemma {:induction false} BlankLineContinuationTaken(s: string, e: nat, rest: string)
    requires e == BlankLineContinuationLength(s) && e > 0
    requires Erase(rest, IsSpaceOrBackslash) == Erase(s[e..], IsSpaceOrBackslash)
    requires forall c :: c in rest ==> c in s[e..]
    ensures Erase("\n\n" + rest, IsSpaceOrBackslash) == Erase(s, IsSpaceOrBackslash)
    ensures forall c :: c in "\n\n" + rest ==> c in s
    ensures '\\' in s
  {
    var m := e - 2;
    BlankLineContinuationDropped(s, m);
    BreakForContinuation();
    assert s[m..m + 2] == "\\\n";
    ReplaceStep(s, m, "\\\n", "\n\n", rest, IsSpaceOrBackslash);
  }

  lemma {:induction false} BlankLineContinuationDropped(s: string, m: nat)
    requires |s| >= 2 && s[0] == '\n' && s[1] == '\n'
    requires m == 2 + Run(s[2..], IsSpace) && ContinuationAt(s, m)
    ensures forall i :: 0 <= i < m + 2 ==> IsSpaceOrBackslash(s[i])
  {
    forall i | 0 <= i < m + 2 ensures IsSpaceOrBackslash(s[i]) {
      if 2 <= i < m {
        assert s[i] == s[2..][i - 2];
      }
    }
  }

  /** Line 176's regex `\n\n\s*\\\n` matches at the start of `t` with length `n`. */
  predicate BlankThenContinuation(t: string, n: nat) {
    4 <= n <= |t| && t[0] == '\n' && t[1] == '\n' && Within(t, 2, n - 2, IsSpace) && ContinuationAt(t, n - 2)
  }

  /** BlankLineContinuation is the global replacement of line 176. */
  lemma BlankLineContinuationReplaces()
    ensures GlobalReplace(BlankLineContinuation, BlankThenContinuation, "\n\n")
  {
    forall t, n: nat | BlankThenContinuation(t, n)
      ensures 0 < n <= |t| && BlankLineContinuation(t) == "\n\n" + BlankLineContinuation(t[n..])
    {
      BlankThenContinuationExact(t, n);
      BlankLineContinuationStep(t, n);
    }
    forall t | t != []
      ensures (forall n: nat :: !BlankThenContinuation(t, n)) ==> BlankLineContinuation(t) == [t[0]] + BlankLineContinuation(t[1..])
    {
      if BlankLineContinuationLength(t) > 0 {
        BlankThenContinuationFound(t);
      }
    }
  }

  /** Where line 176's regex matches, its length is the one the scanner uses. */
  lemma BlankThenContinuationExact(t: string, n: nat)
    requires BlankThenContinuation(t, n)
    ensures BlankLineContinuationLength(t) == n
  {
    forall i | 0 <= i < n - 4 ensures IsSpace(t[2..][i]) {
      assert t[2..][i] == t[i + 2];
    }
    assert t[2..][n - 4] == t[n - 2];
    RunExact(t[2..], IsSpace, n - 4);
  }

  /** Where the scanner of line 176 replaces, line 176's regex matches. */
  lemma BlankThenContinuationFound(t: string)
    requires BlankLineContinuationLength(t) > 0
    ensures BlankThenContinuation(t, BlankLineContinuationLength(t))
  {
    var m := BlankLineContinuationLength(t) - 2;
    forall i | 2 <= i < m ensures IsSpace(t[i]) {
      assert t[i] == t[2..][i - 2];
    }
  }

  predicate NoTripleNewline(r: string) {
    forall i :: 0 <= i < |r| - 2 ==> !(r[i] == '\n' && r[i + 1] == '\n' && r[i + 2] == '\n')
  }

  predicate NoDoubleNewline(s: string) {
    forall i :: 0 <= i < |s| - 1 ==> !(s[i] == '\n' && s[i + 1] == '\n')
  }

  /** Line 177, a run of two or more newlines replaced by a blank line: every run of two or
      more newlines becomes exactly two. */
  function CollapseBlankLines(s: string): (r: string)
    ensures forall c :: c in r ==> c in s
    ensures Erase(r, IsNewline) == Erase(s, IsNewline)
    ensures (r != [] && r[0] == '\n') <==> (s != [] && s[0] == '\n')
    ensures NoDoubleNewline(s) ==> r == s
    decreases |s|
  {
    if s == [] then []
    else if |s| >= 2 && s[0] == '\n' && s[1] == '\n' then
      var n := Run(s, IsNewline);
      var rest := CollapseBlankLines(s[n..]);
      CollapseMatch(s, n, rest);
      "\n\n" + rest
    else
      var rest := CollapseBlankLines(s[1..]);
      CollapseKeep(s, rest);
      [s[0]] + rest
  }

  /** One match of line 177: the whole run of newlines becomes two. */
  lemma {:induction false} CollapseMatch(s: string, n: nat, rest: string)
    requires |s| >= 2 && s[0] == '\n' && s[1] == '\n' && n == Run(s, IsNewline)
    requires forall c :: c in rest ==> c in s[n..]
    requires Erase(rest, IsNewline) == Erase(s[n..], IsNewline)
    ensures forall c :: c in "\n\n" + rest ==> c in s
    ensures Erase("\n\n" + rest, IsNewline) == Erase(s, IsNewline)
  {
    assert s[1..][0] == '\n';
    BlankLineForNewlines(s[..n]);
    ReplaceStep(s, 0, s[..n], "\n\n", rest, IsNewline);
  }

  /** A step of line 177 that keeps the first character. */
  lemma {:induction false} CollapseKeep(s: string, rest: string)
    requires s != [] && !(|s| >= 2 && s[0] == '\n' && s[1] == '\n')
    requires forall c :: c in rest ==> c in s[1..]
    requires Erase(rest, IsNewline) == Erase(s[1..], IsNewline)
    requires NoDoubleNewline(s[1..]) ==> rest == s[1..]
    ensures forall c :: c in [s[0]] + rest ==> c in s
    ensures Erase([s[0]] + rest, IsNewline) == Erase(s, IsNewline)
    ensures NoDoubleNewline(s) ==> [s[0]] + rest == s
  {
    KeepStep(s, rest, IsNewline);
    if NoDoubleNewline(s) {
      forall i | 0 <= i < |s[1..]| - 1 ensures !(s[1..][i] == '\n' && s[1..][i + 1] == '\n') {
        assert s[1..][i] == s[i + 1] && s[1..][i + 1] == s[i + 2];
      }
    }
  }

  /** Line 177's regex `\n\n\n*` matches at the start of `t` with length `n`:
      the whole run of newlines there, when it has two or more. */
  predicate NewlineRun(t: string, n: nat) {
    2 <= n <= |t| && Within(t, 0, n, IsNewline) && (n == |t| || !IsNewline(t[n]))
  }

  /** CollapseBlankLines is the global replacement of line 177. */
  lemma CollapseBlankLinesReplaces()
    ensures GlobalReplace(CollapseBlankLines, NewlineRun, "\n\n")
  {
    forall t, n: nat | NewlineRun(t, n)
      ensures 0 < n <= |t| && CollapseBlankLines(t) == "\n\n" + CollapseBlankLines(t[n..])
    {
      assert t[..n][0] == t[0] && t[..n][1] == t[1];
      RunExact(t, IsNewline, n);
    }
    forall t | t != []
      ensures (forall n: nat :: !NewlineRun(t, n)) ==> CollapseBlankLines(t) == [t[0]] + CollapseBlankLines(t[1..])
    {
      if |t| >= 2 && t[0] == '\n' && t[1] == '\n' {
        var k := Run(t, IsNewline);
        assert t[1..][0] == '\n';
        assert NewlineRun(t, k);
      }
    }
  }

  /** Four newlines in a row become one blank line. */
  lemma FourNewlinesCollapse()
    ensures CollapseBlankLines("\n\n\n\n") == "\n\n"
  {
  }

  /** Spaces at `s`'s start reach the end of a line (or of `s`). */
  predicate SpacesEndLine(s: string) {
    var n := Run(s, IsBlank);
    n > 0 && (n == |s| || IsLineTerminator(s[n]))
  }

  predicate NoSpaceAtLineEnd(r: string) {
    forall i :: 0 <= i < |r| && r[i] == ' ' ==> i + 1 < |r| && !IsLineTerminator(r[i + 1])
  }

  /** Line 178, `/[ ]+$/gm` removed: spaces (not tabs) at the end of every
      line, where a line ends before any line terminator or at the end. */
  function TrimLineEnds(s: string): (r: string)
    ensures forall c :: c in r ==> c in s
    ensures Erase(r, IsBlank) == Erase(s, IsBlank)
    ensures NoSpaceAtLineEnd(r)
    ensures s != [] && !SpacesEndLine(s) ==> r != [] && r[0] == s[0]
    decreases |s|
  {
    if s == [] then []
    else if SpacesEndLine(s) then
      var n := Run(s, IsBlank);
      var rest := TrimLineEnds(s[n..]);
      ReplaceStep(s, n, [], [], rest, IsBlank);
      assert [] + rest == rest;
      rest
    else
      var rest := TrimLineEnds(s[1..]);
      TrimLineEndsKeep(s, rest);
      [s[0]] + rest
  }

  /** A step of line 178 that keeps the first character. */
  lemma {:induction false} TrimLineEndsKeep(s: string, rest: string)
    requires s != [] && !SpacesEndLine(s)
    requires forall c :: c in rest ==> c in s[1..]
    requires Erase(rest, IsBlank) == Erase(s[1..], IsBlank)
    requires NoSpaceAtLineEnd(rest)
    requires s[1..] != [] && !SpacesEndLine(s[1..]) ==> rest != [] && rest[0] == s[1..][0]
    ensures forall c :: c in [s[0]] + rest ==> c in s
    ensures Erase([s[0]] + rest, IsBlank) == Erase(s, IsBlank)
    ensures NoSpaceAtLineEnd([s[0]] + rest)
  {
    KeepStep(s, rest, IsBlank);
    var r := [s[0]] + rest;
    forall i | 0 <= i < |r| && r[i] == ' ' ensures i + 1 < |r| && !IsLineTerminator(r[i + 1]) {
      if i > 0 {
        assert r[i] == rest[i - 1];
      } else {
        var n := Run(s, IsBlank);
        assert n == 1 + Run(s[1..], IsBlank);
        assert s[1..][n - 1] == s[n];
      }
    }
  }

  /** Line 178's regex `[ ]+$` with the `m` flag matches at the start of
      `t` with length `n`: spaces up to a line terminator or the end. */
  predicate SpacesAtLineEnd(t: string, n: nat) {
    1 <= n <= |t| && Within(t, 0, n, IsBlank) && (n == |t| || IsLineTerminator(t[n]))
  }

  /** TrimLineEnds is the global replacement of line 178, by nothing. */
  lemma TrimLineEndsReplaces()
    ensures GlobalReplace(TrimLineEnds, SpacesAtLineEnd, "")
  {
    forall t, n: nat | SpacesAtLineEnd(t, n)
      ensures 0 < n <= |t| && TrimLineEnds(t) == "" + TrimLineEnds(t[n..])
    {
      RunExact(t, IsBlank, n);
    }
    forall t | t != []
      ensures (forall n: nat :: !SpacesAtLineEnd(t, n)) ==> TrimLineEnds(t) == [t[0]] + TrimLineEnds(t[1..])
    {
      if SpacesEndLine(t) {
        assert SpacesAtLineEnd(t, Run(t, IsBlank));
      }
    }
  }

  /** In `a b \n`, `[ ]+$` first matches at 3, with length 1, and nowhere in `\n`. */
  lemma SpacesAtLineEndInExample()
    ensures forall k, m: nat :: 0 <= k < 3 ==> !SpacesAtLineEnd("a b \n"[k..], m)
    ensures SpacesAtLineEnd("a b \n"[3..], 1)
    ensures forall k, m: nat :: 0 <= k <= 1 ==> !SpacesAtLineEnd("\n"[k..], m)
  {
    var s := "a b \n";
    forall k, m: nat | 0 <= k < 3 ensures !SpacesAtLineEnd(s[k..], m) {
      assert s[k..][0] == s[k];
      if k == 1 {
        assert s[k..][1] == s[2];
      }
    }
    forall k, m: nat | 0 <= k <= 1 ensures !SpacesAtLineEnd("\n"[k..], m) {
      if 1 <= m <= 1 - k {
        assert "\n"[k..][0] == '\n';
      }
    }
  }

  /** Any global replacement of `[ ]+$` keeps the space inside `a b \n`. */
  lemma SpacesAtLineEndExample(f: string -> string)
    requires GlobalReplace(f, SpacesAtLineEnd, "")
    ensures f("a b \n") == "a b\n"
  {
    SpacesAtLineEndInExample();
    ReplaceFirstMatch(f, SpacesAtLineEnd, "", "a b \n", 3, 1);
    ReplaceNoMatch(f, SpacesAtLineEnd, "", "\n");
    assert "a b \n"[..3] == "a b" && "a b \n"[4..] == "\n";
  }

  /** Only the space at the line end goes: `a b \n` becomes `a b\n`. */
  lemma LineEndExample()
    ensures TrimLineEnds("a b \n") == "a b\n"
  {
    TrimLineEndsReplaces();
    SpacesAtLineEndExample(TrimLineEnds);
  }
  /** `[\s\\]+$` removed at every position: the trailing run of whitespace
      and backslashes is cut off. */
  function TrimTail(s: string): (r: string)
    ensures |r| <= |s| && r == s[..|r|]
    ensures forall i :: |r| <= i < |s| ==> IsSpaceOrBackslash(s[i])
    ensures r == [] || !IsSpaceOrBackslash(r[|r| - 1])
  {
    if s == [] then []
    else if Run(s, IsSpaceOrBackslash) == |s| then []
    else [s[0]] + TrimTail(s[1..])
  }

  /** Line 179, `/^\s+|[\s\\]+$/g` removed: leading whitespace, and trailing
      whitespace and backslashes. What is left is the middle of `s`. */
  function TrimEnds(s: string): (r: string)
    ensures r == [] || (!IsSpace(r[0]) && !IsSpaceOrBackslash(r[|r| - 1]))
    ensures var n := Run(s, IsSpace);
      && n + |r| <= |s|
      && r == s[n..n + |r|]
      && forall i :: n + |r| <= i < |s| ==> IsSpaceOrBackslash(s[i])
  {
    var n := Run(s, IsSpace);
    var r := TrimTail(s[n..]);
    assert forall i :: n + |r| <= i < |s| ==> s[i] == s[n..][i - n];
    r
  }

  lemma {:induction false} NoTripleNewlineSuffix(s: string, k: nat)
    requires NoTripleNewline(s) && k <= |s|
    ensures NoTripleNewline(s[k..])
  {
    forall i | 0 <= i < |s[k..]| - 2
      ensures !(s[k..][i] == '\n' && s[k..][i + 1] == '\n' && s[k..][i + 2] == '\n')
    {
      assert s[k..][i] == s[k + i] && s[k..][i + 1] == s[k + i + 1] && s[k..][i + 2] == s[k + i + 2];
    }
  }

  lemma {:induction false} ExactlyTwoNewlines(s: string)
    requires NoTripleNewline(s) && |s| >= 2 && s[0] == '\n' && s[1] == '\n'
    ensures Run(s, IsNewline) == 2
  {
    assert Run(s[2..], IsNewline) == 0 by {
      if |s| > 2 {
        assert s[2..][0] == s[2];
      }
    }
    assert s[1..][1..] == s[2..];
  }

  /** Collapsing blank lines once is enough: text without three newlines in
      a row is left as it is, so a second pass changes nothing. */
  lemma {:induction false} CollapseKeepsCollapsed(s: string)
    requires NoTripleNewline(s)
    ensures CollapseBlankLines(s) == s
    decreases |s|
  {
    if s != [] {
      if |s| >= 2 && s[0] == '\n' && s[1] == '\n' {
        NoTripleNewlineSuffix(s, 2);
        CollapseKeepsCollapsed(s[2..]);
        CollapseKeepsPair(s);
      } else {
        NoTripleNewlineSuffix(s, 1);
        CollapseKeepsCollapsed(s[1..]);
        CollapseKeepsFirst(s);
      }
    }
  }

  /** A character that starts no pair of newlines is kept as it is. */
  lemma {:induction false} CollapseKeepsFirst(s: string)
    requires s != [] && !(|s| >= 2 && s[0] == '\n' && s[1] == '\n')
    requires CollapseBlankLines(s[1..]) == s[1..]
    ensures CollapseBlankLines(s) == s
  {
    assert s == [s[0]] + s[1..];
  }

  /** A pair of newlines not followed by a third is kept as it is. */
  lemma {:induction false} CollapseKeepsPair(s: string)
    requires NoTripleNewline(s) && |s| >= 2 && s[0] == '\n' && s[1] == '\n'
    requires CollapseBlankLines(s[2..]) == s[2..]
    ensures CollapseBlankLines(s) == s
  {
    ExactlyTwoNewlines(s);
    assert s == "\n\n" + s[2..];
  }

  /** Two texts free of three newlines in a row stay so when joined, unless
      a newline ends the first and another starts the second. */
  lemma {:induction false} NoTripleNewlineJoin(pre: string, post: string)
    requires NoTripleNewline(pre) && NoTripleNewline(post)
    requires pre == [] || post == [] || pre[|pre| - 1] != '\n' || post[0] != '\n'
    ensures NoTripleNewline(pre + post)
  {
    var r := pre + post;
    forall i | 0 <= i < |r| - 2 ensures !(r[i] == '\n' && r[i + 1] == '\n' && r[i + 2] == '\n') {
      if i + 2 < |pre| {
        assert r[i] == pre[i] && r[i + 1] == pre[i + 1] && r[i + 2] == pre[i + 2];
      } else if |pre| <= i {
        var j := i - |pre|;
        assert r[i] == post[j] && r[i + 1] == post[j + 1] && r[i + 2] == post[j + 2];
      } else {
        assert r[|pre| - 1] == pre[|pre| - 1] && r[|pre|] == post[0];
      }
    }
  }

  /** What line 177 leaves has no three newlines in a row. */
  lemma {:induction false} CollapseLeavesNoTriple(s: string)
    ensures NoTripleNewline(CollapseBlankLines(s))
    decreases |s|
  {
    if s != [] {
      if |s| >= 2 && s[0] == '\n' && s[1] == '\n' {
        var n := Run(s, IsNewline);
        CollapseLeavesNoTriple(s[n..]);
        NoTripleNewlineJoin("\n\n", CollapseBlankLines(s[n..]));
      } else {
        CollapseLeavesNoTriple(s[1..]);
        NoTripleNewlineJoin([s[0]], CollapseBlankLines(s[1..]));
      }
    }
  }

  lemma {:induction false} CollapseIdempotent(s: string)
    ensures CollapseBlankLines(CollapseBlankLines(s)) == CollapseBlankLines(s)
  {
    CollapseLeavesNoTriple(s);
    CollapseKeepsCollapsed(CollapseBlankLines(s));
  }

  /** Text with no spaces at a line end is left as it is by line 178. */
  lemma {:induction false} TrimLineEndsKeeps(s: string)
    requires NoSpaceAtLineEnd(s)
    ensures TrimLineEnds(s) == s
    decreases |s|
  {
    if s != [] {
      assert !SpacesEndLine(s) by {
        var n := Run(s, IsBlank);
        if n > 0 {
          assert IsBlank(s[n - 1]);
        }
      }
      assert NoSpaceAtLineEnd(s[1..]) by {
        forall i | 0 <= i < |s[1..]| && s[1..][i] == ' '
          ensures i + 1 < |s[1..]| && !IsLineTerminator(s[1..][i + 1])
        {
          assert s[i + 1] == ' ';
        }
      }
      TrimLineEndsKeeps(s[1..]);
      assert s == [s[0]] + s[1..];
    }
  }

  lemma {:induction false} TrimLineEndsIdempotent(s: string)
    ensures TrimLineEnds(TrimLineEnds(s)) == TrimLineEnds(s)
  {
    TrimLineEndsKeeps(TrimLineEnds(s));
  }

  /** A string whose last character is neither whitespace nor a backslash
      has no tail to cut. */
  lemma {:induction false} TrimTailKeeps(s: string)
    requires s == [] || !IsSpaceOrBackslash(s[|s| - 1])
    ensures TrimTail(s) == s
  {
    if s != [] {
      assert Run(s, IsSpaceOrBackslash) < |s|;
      TrimTailKeeps(s[1..]);
      assert s == [s[0]] + s[1..];
    }
  }

  /** Trimming the ends once is enough. */
  lemma {:induction false} TrimEndsIdempotent(s: string)
    ensures TrimEnds(TrimEnds(s)) == TrimEnds(s)
  {
    var r := TrimEnds(s);
    assert Run(r, IsSpace) == 0;
    TrimTailKeeps(r);
    assert r[0..] == r;
  }

  /** Line 175 is not idempotent: a second pass removes a hyphen line that
      only the first pass brought together. */
  lemma {:induction false} DropHyphenLinesTwice()
    ensures DropHyphenLines("\n-\n-\n") == "\n-\n"
    ensures DropHyphenLines("\n-\n") == "\n"
  {
    assert "\n-\n-\n"[..3] == "\n-\n";
    assert "\n-\n-\n"[3..] == "-\n";
    assert "-\n"[1..] == "\n";
    assert "\n-\n"[..3] == "\n-\n";
    assert "\n-\n"[3..] == [];
  }

  // ------------------------------------------------ string-literal escapes

  function NewlineEscape(c: char): string {
    if c == '\n' then "\\n" else [c]
  }

  function QuoteEscape(c: char): string {
    if c == '"' then "\\\"" else [c]
  }

  /** Line 180, `/\n/g` replaced by a backslash and the letter n. */
  function EscapeNewlines(s: string): (r: string)
    ensures '\n' !in r
    ensures forall c :: c in r ==> c in s || c == '\\' || c == 'n'
  {
    TranslateSources(s, NewlineEscape);
    Translate(s, NewlineEscape)
  }

  /** Every double quote of `r` is right after a backslash. */
  predicate QuotesEscaped(r: string) {
    forall i :: 0 <= i < |r| && r[i] == '"' ==> 0 < i && r[i - 1] == '\\'
  }

  lemma {:induction false} QuoteEscapeShape(s: string)
    ensures QuotesEscaped(Translate(s, QuoteEscape))
  {
    if s != [] {
      QuoteEscapeShape(s[1..]);
      var t := Translate(s[1..], QuoteEscape);
      var h := QuoteEscape(s[0]);
      assert Translate(s, QuoteEscape) == h + t;
      forall i | 0 <= i < |h + t| && (h + t)[i] == '"'
        ensures 0 < i && (h + t)[i - 1] == '\\'
      {
        if i >= |h| {
          assert (h + t)[i] == t[i - |h|];
          if i - |h| == 0 {
            assert false;
          } else {
            assert (h + t)[i - 1] == t[i - |h| - 1];
          }
        }
      }
    }
  }

  /** Line 181, `/"/g` replaced by a backslash and a double quote. */
  function EscapeQuotes(s: string): (r: string)
    ensures QuotesEscaped(r)
    ensures '\n' !in s ==> '\n' !in r
    ensures forall c :: c in r ==> c in s || c == '\\'
  {
    QuoteEscapeShape(s);
    TranslateSources(s, QuoteEscape);
    Translate(s, QuoteEscape)
  }

  /** Reads the quote pass back: a backslash before a double quote is
      dropped and every other character is kept. This undoes line 181
      alone; a reader of string literals also turns `\\` into one
      backslash, and reads text that already held a backslash before a
      quote differently (see QuoteEscapeKeepsBackslash). */
  function UnescapeQuotes(r: string): string
    decreases |r|
  {
    if r == [] then []
    else if |r| >= 2 && r[0] == '\\' && r[1] == '"' then "\"" + UnescapeQuotes(r[2..])
    else [r[0]] + UnescapeQuotes(r[1..])
  }

  /** Escaping quotes loses nothing: the original text is read back. */
  lemma {:induction false} UnescapeEscapeQuotes(s: string)
    ensures UnescapeQuotes(EscapeQuotes(s)) == s
  {
    if s != [] {
      UnescapeEscapeQuotes(s[1..]);
      var t := EscapeQuotes(s[1..]);
      assert EscapeQuotes(s) == QuoteEscape(s[0]) + t;
      if s[0] == '"' {
        assert (QuoteEscape(s[0]) + t)[2..] == t;
      } else {
        assert t == [] || t[0] != '"';
        assert (QuoteEscape(s[0]) + t)[1..] == t;
      }
      assert s == [s[0]] + s[1..];
    }
  }

  /** Reads a newline-escaped string back: a backslash and an n become a newline. */
  function UnescapeNewlines(r: string): string
    decreases |r|
  {
    if r == [] then []
    else if |r| >= 2 && r[0] == '\\' && r[1] == 'n' then "\n" + UnescapeNewlines(r[2..])
    else [r[0]] + UnescapeNewlines(r[1..])
  }

  /** `s` holds a backslash right before the letter n. */
  predicate HasBackslashN(s: string) {
    exists i :: 0 <= i < |s| - 1 && s[i] == '\\' && s[i + 1] == 'n'
  }

  /** Escaping newlines can be read back exactly when the text does not
      already hold a backslash before an n (backslashes are not escaped). */
  lemma {:induction false} UnescapeEscapeNewlines(s: string)
    requires !HasBackslashN(s)
    ensures UnescapeNewlines(EscapeNewlines(s)) == s
  {
    if s != [] {
      assert !HasBackslashN(s[1..]);
      UnescapeEscapeNewlines(s[1..]);
      var t := EscapeNewlines(s[1..]);
      assert EscapeNewlines(s) == NewlineEscape(s[0]) + t;
      if s[0] == '\n' {
        assert (NewlineEscape(s[0]) + t)[2..] == t;
      } else {
        assert (NewlineEscape(s[0]) + t)[1..] == t;
      }
      assert s == [s[0]] + s[1..];
    }
  }

  /** Two different texts that escape to the same line: a newline and a
      backslash followed by n. */
  lemma {:induction false} NewlineEscapeCollides()
    ensures EscapeNewlines("\n") == EscapeNewlines("\\n")
  {
    assert Translate("\n", NewlineEscape) == NewlineEscape('\n') + Translate([], NewlineEscape);
    assert "\\n"[1..] == "n";
    assert Translate("\\n", NewlineEscape) == NewlineEscape('\\') + Translate("n", NewlineEscape);
    assert Translate("n", NewlineEscape) == NewlineEscape('n') + Translate([], NewlineEscape);
  }

  /** Line 181 does not double backslashes: `a\"b` escapes to `a\\"b`,
      where a reader of string literals sees one backslash and then a
      quote that ends the literal. */
  lemma {:induction false} QuoteEscapeKeepsBackslash()
    ensures EscapeQuotes("a\\\"b") == "a\\\\\"b"
  {
    var s := "a\\\"b";
    assert s[1..] == "\\\"b" && s[1..][1..] == "\"b" && s[1..][1..][1..] == "b";
    assert Translate("b", QuoteEscape) == "b" by {
      assert "b"[1..] == [];
    }
    assert Translate("\"b", QuoteEscape) == "\\\"b";
    assert Translate("\\\"b", QuoteEscape) == "\\\\\"b";
  }

  // ------------------------------------------------------------- pipeline

  /** The whitespace and line-break steps of lines 171-179, in order. They
      only ever remove characters or re-emit ones already present. */
  function Reflow(p: string): (t: string)
    ensures forall c :: c in t ==> c in p
  {
    var a := TrimSpacesBeforeNewline(p);
    var b := TightenContinuations(a);
    var c := DoubleContinuationBreak(b);
    var d := ContinuationBlankBreak(c);
    var e := DropHyphenLines(d);
    var f := BlankLineContinuation(e);
    var g := CollapseBlankLines(f);
    var h := TrimLineEnds(g);
    var t := TrimEnds(h);
    assert forall x :: x in t ==> x in h;
    t
  }

  /** A character no step of lines 171-179 may remove: not whitespace, not a
      backslash, not a hyphen. */
  predicate Ordinary(c: char) {
    !IsSpace(c) && c != '\\' && c != '-'
  }

  /** Characters survive an erase-preserving step unless it may drop them. */
  lemma {:induction false} ErasePreserved(s: string, r: string, drop: char -> bool, c: char)
    requires Erase(r, drop) == Erase(s, drop)
    requires c in s && !drop(c)
    ensures c in r
  {
    EraseMembers(s, drop, c);
    EraseMembers(r, drop, c);
  }

  lemma {:induction false} ContinuationStepsKeep(p: string, x: char)
    requires x in p && Ordinary(x)
    ensures x in DropHyphenLines(ContinuationBlankBreak(DoubleContinuationBreak(TightenContinuations(TrimSpacesBeforeNewline(p)))))
  {
    var a := TrimSpacesBeforeNewline(p);
    ErasePreserved(p, a, IsBlank, x);
    var b := TightenContinuations(a);
    ErasePreserved(a, b, IsSpace, x);
    var c := DoubleContinuationBreak(b);
    ErasePreserved(b, c, IsSpaceOrBackslash, x);
    var d := ContinuationBlankBreak(c);
    ErasePreserved(c, d, IsSpaceOrBackslash, x);
    ErasePreserved(d, DropHyphenLines(d), IsNewlineOrHyphen, x);
  }

  lemma {:induction false} BlankLineStepsKeep(e: string, x: char)
    requires x in e && Ordinary(x)
    ensures x in TrimEnds(TrimLineEnds(CollapseBlankLines(BlankLineContinuation(e))))
  {
    var f := BlankLineContinuation(e);
    ErasePreserved(e, f, IsSpaceOrBackslash, x);
    var g := CollapseBlankLines(f);
    ErasePreserved(f, g, IsNewline, x);
    var h := TrimLineEnds(g);
    ErasePreserved(g, h, IsBlank, x);
    TrimEndsKeeps(h, x);
  }

  /** Line 179 cuts only whitespace and backslashes. */
  lemma {:induction false} TrimEndsKeeps(h: string, x: char)
    requires x in h && Ordinary(x)
    ensures x in TrimEnds(h)
  {
    var t := TrimEnds(h);
    var n := Run(h, IsSpace);
    var i :| 0 <= i < |h| && h[i] == x;
    assert !IsSpace(h[i]) && !IsSpaceOrBackslash(h[i]);
    assert n <= i < n + |t|;
    CharInSlice(h, n, n + |t|, i);
  }

  lemma CharInSlice(s: string, lo: nat, hi: nat, i: nat)
    requires lo <= i < hi <= |s|
    ensures s[i] in s[lo..hi]
  {
    assert s[lo..hi][i - lo] == s[i];
  }

  /** The whitespace steps only remove whitespace, backslashes and hyphens:
      every ordinary character of the text is still there afterwards. */
  lemma {:induction false} ReflowKeeps(p: string, x: char)
    requires x in p && Ordinary(x)
    ensures x in Reflow(p)
  {
    ContinuationStepsKeep(p, x);
    BlankLineStepsKeep(DropHyphenLines(ContinuationBlankBreak(DoubleContinuationBreak(TightenContinuations(TrimSpacesBeforeNewline(p))))), x);
  }

  /** The seventeen replacements of lines 165-181, in order. */
  function Escape(s: string): (r: string)
    ensures forall c :: c in r ==> !IsSmartPunctuation(c)
    ensures '\n' !in r
    ensures QuotesEscaped(r)
  {
    var p := NormalizePunctuation(s);
    NoSmartPunctuationLeft(s);
    var t := Reflow(p);
    NoSmartPunctuationEscaped(t);
    EscapeQuotes(EscapeNewlines(t))
  }

  /** The two string-literal escapes bring in only a backslash and the letter n. */
  lemma {:induction false} NoSmartPunctuationEscaped(t: string)
    requires forall c :: c in t ==> !IsSmartPunctuation(c)
    ensures forall c :: c in EscapeQuotes(EscapeNewlines(t)) ==> !IsSmartPunctuation(c)
  {
  }

  /** Nothing ordinary is lost: every ordinary character left after the
      punctuation passes appears in the escaped line. */
  lemma {:induction false} EscapeKeeps(s: string, x: char)
    requires x in NormalizePunctuation(s) && Ordinary(x)
    ensures x in Escape(s)
  {
    var t := Reflow(NormalizePunctuation(s));
    ReflowKeeps(NormalizePunctuation(s), x);
    TranslateKeeps(t, NewlineEscape, x, x);
    TranslateKeeps(EscapeNewlines(t), QuoteEscape, x, x);
  }

  /** A right single quotation mark anywhere in the markup comes out as a
      plain apostrophe. */
  lemma {:induction false} RightSingleQuoteBecomesApostrophe(s: string)
    requires '\U{2019}' in s
    ensures '\'' in Escape(s)
  {
    PunctuationPassesAsOneMap(s);
    TranslateKeeps(s, AsciiPunctuation, '\U{2019}', '\'');
    EscapeKeeps(s, '\'');
  }
}
