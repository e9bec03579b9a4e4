/** Character classes and whole-string helpers shared by the rule table
    and the escaper. Strings are sequences of Unicode scalar values. */
module Text {

  /** ECMAScript LineTerminator (ECMA-262 section 12.3): LF, CR, LS, PS. */
  predicate IsLineTerminator(c: char) {
    c == '\n' || c == '\r' || c == '\U{2028}' || c == '\U{2029}'
  }

  /** ECMAScript WhiteSpace (ECMA-262 section 12.2): TAB, VT, FF, SP, NBSP,
      ZWNBSP and the Unicode "Space_Separator" code points. */
  predicate IsWhiteSpace(c: char) {
    || c == '\t' || c == '\U{B}' || c == '\U{C}' || c == ' '
    || c == '\U{A0}' || c == '\U{FEFF}' || c == '\U{1680}'
    || ('\U{2000}' <= c <= '\U{200A}')
    || c == '\U{202F}' || c == '\U{205F}' || c == '\U{3000}'
  }

  /** The class `\s` of a JavaScript regular expression. */
  predicate IsSpace(c: char) {
    IsWhiteSpace(c) || IsLineTerminator(c)
  }

  /** The class `[ ]`: the space character alone. */
  predicate IsBlank(c: char) {
    c == ' '
  }

  predicate IsNewline(c: char) {
    c == '\n'
  }

  /** The class `[\s\\]`. */
  predicate IsSpaceOrBackslash(c: char) {
    IsSpace(c) || c == '\\'
  }

  /** Length of the longest prefix of `s` whose characters all satisfy `p`:
      what a greedy `p*` matches at the start of `s`. */
  function Run(s: string, p: char -> bool): (n: nat)
    ensures n <= |s|
    ensures forall i :: 0 <= i < n ==> p(s[i])
    ensures n < |s| ==> !p(s[n])
  {
    if s != [] && p(s[0]) then 1 + Run(s[1..], p) else 0
  }

  /** Every character of `s` from `lo` up to, not including, `hi` satisfies `p`. */
  predicate Within(s: string, lo: nat, hi: nat, p: char -> bool) {
    lo <= hi <= |s| && forall i :: lo <= i < hi ==> p(s[i])
  }

  /** A stretch of `p`-characters at the start that is followed by the end
      or by a character outside `p` is exactly the run. */
  lemma RunExact(s: string, p: char -> bool, k: nat)
    requires Within(s, 0, k, p) && (k == |s| || !p(s[k]))
    ensures Run(s, p) == k
  {
  }

  /** `s` with every character satisfying `drop` removed. */
  function Erase(s: string, drop: char -> bool): string {
    if s == [] then [] else (if drop(s[0]) then [] else [s[0]]) + Erase(s[1..], drop)
  }

  lemma {:induction false} EraseAppend(a: string, b: string, drop: char -> bool)
    ensures Erase(a + b, drop) == Erase(a, drop) + Erase(b, drop)
  {
    if a == [] {
      assert a + b == b;
    } else {
      assert (a + b)[1..] == a[1..] + b;
      EraseAppend(a[1..], b, drop);
    }
  }

  /** Erasing a prefix made only of dropped characters leaves the rest. */
  lemma {:induction false} EraseDroppedPrefix(s: string, n: nat, drop: char -> bool)
    requires n <= |s|
    requires forall i :: 0 <= i < n ==> drop(s[i])
    ensures Erase(s, drop) == Erase(s[n..], drop)
  {
    if n > 0 {
      assert s[1..][n - 1..] == s[n..];
      EraseDroppedPrefix(s[1..], n - 1, drop);
    }
  }

  lemma {:induction false} EraseCons(c: char, t: string, drop: char -> bool)
    ensures Erase([c] + t, drop) == (if drop(c) then [] else [c]) + Erase(t, drop)
  {
    assert ([c] + t)[1..] == t;
  }

  /** Erasing across a match: a dropped run, then the literal `lit`, then the rest. */
  lemma {:induction false} EraseMatch(s: string, n: nat, lit: string, drop: char -> bool)
    requires n + |lit| <= |s|
    requires forall i :: 0 <= i < n ==> drop(s[i])
    requires s[n..n + |lit|] == lit
    ensures Erase(s, drop) == Erase(lit, drop) + Erase(s[n + |lit|..], drop)
  {
    var rest := s[n + |lit|..];
    assert s[n..] == lit + rest by {
      assert s[n..] == s[n..n + |lit|] + s[n + |lit|..];
    }
    calc {
      Erase(s, drop);
      { EraseDroppedPrefix(s, n, drop); }
      Erase(s[n..], drop);
      Erase(lit + rest, drop);
      { EraseAppend(lit, rest, drop); }
      Erase(lit, drop) + Erase(rest, drop);
    }
  }

  /** A string made only of dropped characters erases to nothing. */
  lemma {:induction false} EraseAllDropped(t: string, drop: char -> bool)
    requires forall i :: 0 <= i < |t| ==> drop(t[i])
    ensures Erase(t, drop) == []
  {
    EraseDroppedPrefix(t, |t|, drop);
  }

  /** A scanner step that found a match: after a run of dropped characters
      `s[..n]`, the text `lit` was replaced by `out`, and the rest of `s`
      became `rest`. If `out` keeps what `drop` does not erase from `lit`
      and brings no new character, and so does `rest`, then so does the whole. */
  lemma {:induction false} ReplaceStep(s: string, n: nat, lit: string, out: string, rest: string, drop: char -> bool)
    requires n + |lit| <= |s|
    requires forall i :: 0 <= i < n ==> drop(s[i])
    requires s[n..n + |lit|] == lit
    requires Erase(out, drop) == Erase(lit, drop)
    requires forall c :: c in out ==> c in lit
    requires Erase(rest, drop) == Erase(s[n + |lit|..], drop)
    requires forall c :: c in rest ==> c in s[n + |lit|..]
    ensures Erase(out + rest, drop) == Erase(s, drop)
    ensures forall c :: c in out + rest ==> c in s
  {
    EraseMatch(s, n, lit, drop);
    EraseAppend(out, rest, drop);
    forall c | c in out + rest ensures c in s {
      if c in out {
        var i :| 0 <= i < |lit| && lit[i] == c;
        assert s[n + i] == c;
      } else {
        var i :| 0 <= i < |s[n + |lit|..]| && s[n + |lit|..][i] == c;
        assert s[n + |lit| + i] == c;
      }
    }
  }

  /** A scanner step that found no match: the first character is kept and
      the scan goes on with the rest. */
  lemma {:induction false} KeepStep(s: string, rest: string, drop: char -> bool)
    requires s != []
    requires Erase(rest, drop) == Erase(s[1..], drop)
    requires forall c :: c in rest ==> c in s[1..]
    ensures Erase([s[0]] + rest, drop) == Erase(s, drop)
    ensures forall c :: c in [s[0]] + rest ==> c in s
    ensures rest == s[1..] ==> [s[0]] + rest == s
  {
    EraseCons(s[0], rest, drop);
    assert s == [s[0]] + s[1..];
    EraseCons(s[0], s[1..], drop);
    forall c | c in [s[0]] + rest ensures c in s {
      if c != s[0] {
        assert c in rest;
        var i :| 0 <= i < |s[1..]| && s[1..][i] == c;
        assert s[i + 1] == c;
      }
    }
  }

  /** Erasing keeps exactly the characters it does not drop. */
  lemma {:induction false} EraseMembers(s: string, drop: char -> bool, c: char)
    ensures c in Erase(s, drop) <==> c in s && !drop(c)
  {
    if s != [] {
      EraseMembers(s[1..], drop, c);
      assert s == [s[0]] + s[1..];
    }
  }

  /** Replaces every character `c` of `s` by `f(c)`: a global replacement
      whose pattern matches exactly one character. */
  function Translate(s: string, f: char -> string): string {
    if s == [] then [] else f(s[0]) + Translate(s[1..], f)
  }

  /** Every character of a translation comes from translating some input character. */
  lemma {:induction false} TranslateSources(s: string, f: char -> string)
    ensures forall c :: c in Translate(s, f) ==> exists d :: d in s && c in f(d)
  {
    if s != [] {
      TranslateSources(s[1..], f);
    }
  }

  /** Whatever a character translates to shows up in the translation. */
  lemma {:induction false} TranslateKeeps(s: string, f: char -> string, c: char, d: char)
    requires c in s && d in f(c)
    ensures d in Translate(s, f)
  {
    if s[0] != c {
      TranslateKeeps(s[1..], f, c, d);
    }
  }

  /** Translating is a homomorphism of concatenation. */
  lemma {:induction false} TranslateAppend(a: string, b: string, f: char -> string)
    ensures Translate(a + b, f) == Translate(a, f) + Translate(b, f)
  {
    if a == [] {
      assert a + b == b;
    } else {
      assert (a + b)[1..] == a[1..] + b;
      TranslateAppend(a[1..], b, f);
    }
  }

  /** A string whose characters a translation leaves alone goes through unchanged. */
  lemma {:induction false} TranslateIdentity(s: string, f: char -> string)
    requires forall i :: 0 <= i < |s| ==> f(s[i]) == [s[i]]
    ensures Translate(s, f) == s
  {
    if s != [] {
      TranslateIdentity(s[1..], f);
    }
  }

  /** ASCII upper-case letters folded to lower case; everything else kept. */
  function LowerChar(c: char): char {
    if 'A' <= c <= 'Z' then (c as int + 32) as char else c
  }

  function Lower(s: string): (r: string)
    ensures |r| == |s|
    ensures forall i :: 0 <= i < |s| ==> r[i] == LowerChar(s[i])
  {
    if s == [] then [] else [LowerChar(s[0])] + Lower(s[1..])
  }

  /** `pat` occurs somewhere in `s`. */
  predicate ContainsInfix(s: string, pat: string)
    decreases |s|
  {
    |pat| <= |s| && (s[..|pat|] == pat || ContainsInfix(s[1..], pat))
  }
}
