/** The ordered rule table that renders one HTML element as Jira/Confluence
    wiki markup, given the markup its children already produced. The first
    rule whose filter accepts the element wins; when none does, the element
    is left to the converter's default rendering. */
module Rules {
  import opened Wrappers
  import opened Text

  /** An ancestor of the element being rendered. `looksLikeLi` abstracts the
      test `/li/i` applied to the ancestor object's string form (for example
      "[object HTMLLIElement]", but also "[object HTMLUListElement]"). */
  datatype Element = Element(name: string, looksLikeLi: bool)

  /** The element being rendered: its upper-case `nodeName`, its parent,
      the ancestors above the parent (nearest first), whether it has a
      previous or next sibling node, and its `href` attribute if any. */
  datatype Node = Node(
    name: string,
    parent: Element,
    above: seq<Element>,
    hasPreviousSibling: bool,
    hasNextSibling: bool,
    href: Option<string>)

  /** A rule's filter: a tag name, a list of tag names (both compared with
      the lower-cased `nodeName`), or one of the two structural predicates. */
  datatype Filter = Tag(tag: string) | Tags(tags: seq<string>) | InlineCode | HrefLink

  /** A rule's replacement, as a function of the children's markup. */
  datatype Replacement =
    | Heading(code: string)
    | Wrap(before: string, after: string)
    | Fixed(text: string)
    | LinkText
    | ListItem

  datatype Rule = Rule(filter: Filter, replacement: Replacement)

  /** The rule table in declaration order. The first six rules come from
      mapping the heading codes h1, h2, h3, h4, h5, h5 (h5 twice, no h6). */
  const Pandoc: seq<Rule> := [
    Rule(Tag("h1"), Heading("h1")),
    Rule(Tag("h2"), Heading("h2")),
    Rule(Tag("h3"), Heading("h3")),
    Rule(Tag("h4"), Heading("h4")),
    Rule(Tag("h5"), Heading("h5")),
    Rule(Tag("h5"), Heading("h5")),
    Rule(Tags(["em", "b"]), Wrap("*", "*")),
    Rule(Tag("i"), Wrap("_", "_")),
    Rule(Tag("cite"), Wrap("??", "??")),
    Rule(Tag("del"), Wrap("-", "-")),
    Rule(Tag("u"), Wrap("+", "+")),
    Rule(Tag("sup"), Wrap("^", "^")),
    Rule(Tag("sub"), Wrap("~", "~")),
    Rule(Tag("blockquote"), Wrap("{quote}\n", "\n{quote}")),
    Rule(Tag("var"), Wrap("`", "`")),
    Rule(Tag("br"), Fixed("\n\n")),
    Rule(Tag("hr"), Fixed("\n\n----\n\n")),
    Rule(InlineCode, Wrap("`", "`")),
    Rule(HrefLink, LinkText),
    Rule(Tag("li"), ListItem)
  ]

  predicate IsCodeElement(name: string) {
    name == "CODE" || name == "KBD" || name == "SAMP" || name == "TT"
  }

  /** A code element that is the only child of a PRE is a code block. */
  predicate IsCodeBlock(node: Node) {
    node.parent.name == "PRE" && !(node.hasPreviousSibling || node.hasNextSibling)
  }

  /** The attribute value is truthy: present and non-empty. */
  predicate HasHref(node: Node) {
    node.href.Some? && node.href.value != ""
  }

  predicate Matches(filter: Filter, node: Node) {
    match filter
    case Tag(t) => Lower(node.name) == t
    case Tags(ts) => Lower(node.name) in ts
    case InlineCode => IsCodeElement(node.name) && !IsCodeBlock(node)
    case HrefLink => node.name == "A" && HasHref(node)
  }

  /** Scans the rules from `from` on and returns the index of the first one
      whose filter accepts `node`. */
  function FirstMatch(rules: seq<Rule>, node: Node, from: nat): (k: Option<nat>)
    requires from <= |rules|
    ensures k.Some? ==> from <= k.value < |rules|
    decreases |rules| - from
  {
    if from == |rules| then None
    else if Matches(rules[from].filter, node) then Some(from)
    else FirstMatch(rules, node, from + 1)
  }

  /** The scan finds the first accepting rule: every earlier rule rejects the
      node, and `None` means every rule rejects it. */
  lemma {:induction false} FirstMatchIsFirst(rules: seq<Rule>, node: Node, from: nat)
    requires from <= |rules|
    ensures var k := FirstMatch(rules, node, from);
      && (k.Some? ==> from <= k.value < |rules| && Matches(rules[k.value].filter, node))
      && (k.Some? ==> forall j :: from <= j < k.value ==> !Matches(rules[j].filter, node))
      && (k.None? ==> forall j :: from <= j < |rules| ==> !Matches(rules[j].filter, node))
    decreases |rules| - from
  {
    if from < |rules| && !Matches(rules[from].filter, node) {
      FirstMatchIsFirst(rules, node, from + 1);
    }
  }

  // ---------------------------------------------------------------- links

  /** Link markup: the bare URL when the text is the URL itself or the
      address of a `mailto:` URL, otherwise text and URL separated by `|`. */
  function LinkMarkup(content: string, url: string): (r: string)
    ensures r == "[" + url + "]" <==> (content == url || url == "mailto:" + content)
    ensures r == "[" + content + "|" + url + "]" <==> !(content == url || url == "mailto:" + content)
    ensures |r| >= |url| + 2 && r[0] == '[' && r[|r| - 1] == ']'
    ensures r[|r| - 1 - |url|..|r| - 1] == url
  {
    if content == url then
      "[" + url + "]"
    else if url == "mailto:" + content then
      "[" + url + "]"
    else
      var r := "[" + content + "|" + url + "]";
      assert |r| == |url| + |content| + 3;
      r
  }

  // ----------------------------------------------------------- list items

  predicate IsOrderedList(name: string) {
    ContainsInfix(Lower(name), "ol")
  }

  predicate IsUnorderedList(name: string) {
    ContainsInfix(Lower(name), "ul")
  }

  /** An element whose name contains `ol` or `ul`, ignoring case. */
  predicate IsListLike(e: Element) {
    IsOrderedList(e.name) || IsUnorderedList(e.name)
  }

  function Marker(e: Element): char {
    if IsOrderedList(e.name) then '#' else '*'
  }

  /** `p` holds one marker per element of the longest stretch at the head
      of `chain` (the parent, then its ancestors) in which every element is
      list-like and every element after the first looks like an `li`;
      the parent's marker comes last. */
  predicate MarkersOf(chain: seq<Element>, p: string) {
    && |p| <= |chain|
    && (forall i :: 0 <= i < |p| ==> IsListLike(chain[i]) && p[|p| - 1 - i] == Marker(chain[i]))
    && (forall i :: 1 <= i < |p| ==> chain[i].looksLikeLi)
    && (|p| == |chain| || !IsListLike(chain[|p|]) || (|p| > 0 && !chain[|p|].looksLikeLi))
  }

  /** The list marker accumulated from `parent` upwards: one `#` (ordered)
      or `*` (unordered) per list-like element climbed, outermost first.
      The climb continues only while the next ancestor looks like an `li`. */
  function ListPrefix(parent: Element, above: seq<Element>): (p: string)
    ensures forall i :: 0 <= i < |p| ==> p[i] == '#' || p[i] == '*'
    ensures |p| <= 1 + |above|
    ensures p == [] <==> !(IsOrderedList(parent.name) || IsUnorderedList(parent.name))
    ensures p != [] ==> (p[|p| - 1] == '#' <==> IsOrderedList(parent.name))
    decreases |above|
  {
    if !(IsOrderedList(parent.name) || IsUnorderedList(parent.name)) then
      []
    else
      var mark := if IsOrderedList(parent.name) then "#" else "*";
      if |above| > 0 && above[0].looksLikeLi then ListPrefix(above[0], above[1..]) + mark
      else mark
  }

  /** The marker string is the one the climb describes: one marker per
      list-like element climbed, outermost first, and the climb stops at
      the first element that is not list-like or, above the parent, does
      not look like an `li`. */
  lemma {:induction false} ListPrefixClimbs(parent: Element, above: seq<Element>)
    ensures MarkersOf([parent] + above, ListPrefix(parent, above))
    decreases |above|
  {
    if IsListLike(parent) {
      if |above| > 0 && above[0].looksLikeLi {
        ListPrefixClimbs(above[0], above[1..]);
        assert [above[0]] + above[1..] == above;
        var q := ListPrefix(above[0], above[1..]);
        assert ListPrefix(parent, above) == q + [Marker(parent)];
        MarkersOfClimb(parent, above, q);
      } else {
        assert ListPrefix(parent, above) == [Marker(parent)];
      }
    }
  }

  /** One climb: a list-like parent below a stretch described by `q` adds
      its own marker at the end. */
  lemma {:induction false} MarkersOfClimb(parent: Element, above: seq<Element>, q: string)
    requires IsListLike(parent) && |above| > 0 && above[0].looksLikeLi
    requires MarkersOf(above, q)
    ensures MarkersOf([parent] + above, q + [Marker(parent)])
  {
    var chain := [parent] + above;
    var p := q + [Marker(parent)];
    forall i | 0 <= i < |p| ensures IsListLike(chain[i]) && p[|p| - 1 - i] == Marker(chain[i]) {
      if i > 0 {
        assert chain[i] == above[i - 1];
      }
    }
    forall i | 1 <= i < |p| ensures chain[i].looksLikeLi {
      assert chain[i] == above[i - 1];
    }
    if |p| < |chain| {
      assert chain[|p|] == above[|q|];
    }
  }

  /** The description pins the marker string down: two strings that both
      fit the same chain are equal. */
  lemma {:induction false} MarkersOfUnique(chain: seq<Element>, p: string, q: string)
    requires MarkersOf(chain, p) && MarkersOf(chain, q)
    ensures p == q
  {
    if |p| < |q| {
      assert false;
    } else if |q| < |p| {
      assert false;
    } else {
      forall j | 0 <= j < |p| ensures p[j] == q[j] {
        var i := |p| - 1 - j;
        assert p[|p| - 1 - i] == Marker(chain[i]) == q[|q| - 1 - i];
      }
    }
  }

  /** `/^\s+/` replaced once: leading whitespace removed. */
  function StripLeadingSpace(s: string): (r: string)
    ensures |r| <= |s| && r == s[|s| - |r|..]
    ensures forall i :: 0 <= i < |s| - |r| ==> IsSpace(s[i])
    ensures r == [] || !IsSpace(r[0])
  {
    s[Run(s, IsSpace)..]
  }

  function IndentNewline(c: char): string {
    if c == '\n' then "\n    " else [c]
  }

  /** Removes four spaces after every newline that has them: undoes IndentLines. */
  function Unindent(s: string): string {
    if s == [] then []
    else if |s| >= 5 && s[..5] == "\n    " then "\n" + Unindent(s[5..])
    else [s[0]] + Unindent(s[1..])
  }

  /** Every newline in `r` is followed by four spaces. */
  predicate NewlinesIndented(r: string) {
    forall i :: 0 <= i < |r| && r[i] == '\n' ==> i + 5 <= |r| && r[i + 1..i + 5] == "    "
  }

  /** `/\n/gm` replaced by a newline and four spaces. */
  function IndentLines(s: string): (r: string)
    ensures NewlinesIndented(r)
  {
    IndentLinesShape(s);
    Translate(s, IndentNewline)
  }

  lemma {:induction false} IndentLinesShape(s: string)
    ensures NewlinesIndented(Translate(s, IndentNewline))
  {
    if s != [] {
      IndentLinesShape(s[1..]);
      var head, tail := IndentNewline(s[0]), Translate(s[1..], IndentNewline);
      var r := head + tail;
      assert r == Translate(s, IndentNewline);
      forall i | 0 <= i < |r| && r[i] == '\n' ensures i + 5 <= |r| && r[i + 1..i + 5] == "    " {
        if i >= |head| {
          var k := i - |head|;
          assert tail[k] == '\n';
          assert k + 5 <= |tail| && tail[k + 1..k + 5] == "    ";
          assert r[i + 1..i + 5] == tail[k + 1..k + 5];
        } else {
          assert head == "\n    " && i == 0;
        }
      }
    }
  }

  /** Every newline gets exactly four spaces added after it, and nothing else
      changes: unindenting gives the input back. */
  lemma {:induction false} UnindentIndentLines(s: string)
    ensures Unindent(IndentLines(s)) == s
  {
    if s != [] {
      UnindentIndentLines(s[1..]);
      var tail := IndentLines(s[1..]);
      var r := IndentNewline(s[0]) + tail;
      assert IndentLines(s) == r;
      if s[0] == '\n' {
        assert r[..5] == "\n    " && r[5..] == tail;
      } else {
        assert r[0] == s[0] && r[1..] == tail;
      }
    }
  }

  /** The list-item markup: marker, one space, then the content with its
      leading whitespace removed and its continuation lines indented. */
  function ListItemMarkup(content: string, node: Node): (r: string)
    ensures var p := ListPrefix(node.parent, node.above);
      && |r| > |p| && r[..|p|] == p && r[|p|] == ' '
      && Unindent(r[|p| + 1..]) == StripLeadingSpace(content)
      && NewlinesIndented(r[|p| + 1..])
  {
    var p := ListPrefix(node.parent, node.above);
    var body := IndentLines(StripLeadingSpace(content));
    UnindentIndentLines(StripLeadingSpace(content));
    var r := p + " " + body;
    assert r[..|p|] == p && r[|p| + 1..] == body;
    r
  }

  /** One climb of the marker computation: the marker of a list-like
      parent goes after the markers collected further up. */
  lemma ListPrefixStep(parent: Element, above: seq<Element>)
    requires IsOrderedList(parent.name) || IsUnorderedList(parent.name)
    ensures ListPrefix(parent, above) ==
      (if |above| > 0 && above[0].looksLikeLi then ListPrefix(above[0], above[1..]) else [])
      + (if IsOrderedList(parent.name) then "#" else "*")
  {
  }

  /** Moving the newest marker from the part still to climb onto the
      collected prefix keeps the whole. */
  lemma PrependMark(above: string, mark: string, prefix: string)
    ensures (above + mark) + prefix == above + (mark + prefix)
  {
  }

  /** The marker computation as the source runs it: a loop that climbs the
      ancestor chain and prepends one marker per list-like element. */
  method ListItemPrefix(node: Node) returns (prefix: string)
    ensures prefix == ListPrefix(node.parent, node.above)
  {
    prefix := "";
    var parent := node.parent;
    var rest := node.above;
    var isParentOL := IsOrderedList(parent.name);
    var isParentUL := IsUnorderedList(parent.name);
    while isParentOL || isParentUL
      invariant isParentOL == IsOrderedList(parent.name) && isParentUL == IsUnorderedList(parent.name)
      invariant ListPrefix(node.parent, node.above) == ListPrefix(parent, rest) + prefix
      invariant forall i :: 0 <= i < |prefix| ==> prefix[i] == '#' || prefix[i] == '*'
      decreases |rest|
    {
      var mark := if isParentOL then "#" else "*";
      ListPrefixStep(parent, rest);
      ghost var before := prefix;
      prefix := mark + prefix;
      assert prefix[1..] == before;
      if |rest| > 0 && rest[0].looksLikeLi {
        assert ListPrefix(parent, rest) == ListPrefix(rest[0], rest[1..]) + mark;
        PrependMark(ListPrefix(rest[0], rest[1..]), mark, before);
        parent := rest[0];
        rest := rest[1..];
        isParentOL := IsOrderedList(parent.name);
        isParentUL := IsUnorderedList(parent.name);
      } else {
        assert ListPrefix(parent, rest) == mark;
        break;
      }
    }
  }

  /** The list-item replacement: content cleaned up, then the marker loop. */
  method ListItemReplacement(content: string, node: Node) returns (r: string)
    ensures r == ListItemMarkup(content, node)
  {
    var body := IndentLines(StripLeadingSpace(content));
    var prefix := ListItemPrefix(node);
    r := prefix + " " + body;
  }

  // ------------------------------------------------------------- the table

  function Apply(replacement: Replacement, content: string, node: Node): string {
    match replacement
    case Heading(code) => "\n\n" + code + ". " + content + "\n\n"
    case Wrap(before, after) => before + content + after
    case Fixed(text) => text
    case LinkText => LinkMarkup(content, node.href.GetOr(""))
    case ListItem => ListItemMarkup(content, node)
  }

  /** The markup the first matching rule produces, or None when no rule
      matches and the converter's default rendering applies. */
  function Render(node: Node, content: string): (r: Option<string>)
    ensures r.None? <==> forall k :: 0 <= k < |Pandoc| ==> !Matches(Pandoc[k].filter, node)
    ensures r.Some? ==> exists k :: && 0 <= k < |Pandoc| && Matches(Pandoc[k].filter, node)
                                   && (forall j :: 0 <= j < k ==> !Matches(Pandoc[j].filter, node))
                                   && r.value == Apply(Pandoc[k].replacement, content, node)
  {
    FirstMatchIsFirst(Pandoc, node, 0);
    match FirstMatch(Pandoc, node, 0)
    case None => None
    case Some(k) => Some(Apply(Pandoc[k].replacement, content, node))
  }

  // -------------------------------------------------- what the table does

  /** The table's heading entries: h1 to h5, then h5 again. */
  lemma PandocHeadings()
    ensures |Pandoc| == 20
    ensures Pandoc[0] == Rule(Tag("h1"), Heading("h1"))
    ensures Pandoc[1] == Rule(Tag("h2"), Heading("h2"))
    ensures Pandoc[2] == Rule(Tag("h3"), Heading("h3"))
    ensures Pandoc[3] == Rule(Tag("h4"), Heading("h4"))
    ensures Pandoc[4] == Rule(Tag("h5"), Heading("h5"))
    ensures Pandoc[5] == Rule(Tag("h5"), Heading("h5"))
  {
  }

  /** The table's text-effect entries, in source order. */
  lemma PandocTextEffects()
    ensures |Pandoc| == 20
    ensures Pandoc[6] == Rule(Tags(["em", "b"]), Wrap("*", "*"))
    ensures Pandoc[7] == Rule(Tag("i"), Wrap("_", "_"))
    ensures Pandoc[8] == Rule(Tag("cite"), Wrap("??", "??"))
    ensures Pandoc[9] == Rule(Tag("del"), Wrap("-", "-"))
    ensures Pandoc[10] == Rule(Tag("u"), Wrap("+", "+"))
    ensures Pandoc[11] == Rule(Tag("sup"), Wrap("^", "^"))
    ensures Pandoc[12] == Rule(Tag("sub"), Wrap("~", "~"))
    ensures Pandoc[13] == Rule(Tag("blockquote"), Wrap("{quote}\n", "\n{quote}"))
    ensures Pandoc[14] == Rule(Tag("var"), Wrap("`", "`"))
  {
  }

  /** The table's break, inline-code, link and list-item entries. */
  lemma PandocStructural()
    ensures |Pandoc| == 20
    ensures Pandoc[15] == Rule(Tag("br"), Fixed("\n\n"))
    ensures Pandoc[16] == Rule(Tag("hr"), Fixed("\n\n----\n\n"))
    ensures Pandoc[17] == Rule(InlineCode, Wrap("`", "`"))
    ensures Pandoc[18] == Rule(HrefLink, LinkText)
    ensures Pandoc[19] == Rule(Tag("li"), ListItem)
  {
  }


  lemma {:induction false} SelectedFrom15(node: Node)
    ensures FirstMatch(Pandoc, node, 15) ==
      var t := Lower(node.name);
      if t == "br" then Some(15)
      else if t == "hr" then Some(16)
      else if IsCodeElement(node.name) && !IsCodeBlock(node) then Some(17)
      else if node.name == "A" && HasHref(node) then Some(18)
      else if t == "li" then Some(19)
      else None
  {
    PandocStructural();
    var t := Lower(node.name);
    assert FirstMatch(Pandoc, node, 19) == if t == "li" then Some(19) else None;
    assert FirstMatch(Pandoc, node, 18) == if node.name == "A" && HasHref(node) then Some(18) else FirstMatch(Pandoc, node, 19);
    assert FirstMatch(Pandoc, node, 17) == if IsCodeElement(node.name) && !IsCodeBlock(node) then Some(17) else FirstMatch(Pandoc, node, 18);
    assert FirstMatch(Pandoc, node, 16) == if t == "hr" then Some(16) else FirstMatch(Pandoc, node, 17);
    assert FirstMatch(Pandoc, node, 15) == if t == "br" then Some(15) else FirstMatch(Pandoc, node, 16);
  }

  lemma {:induction false} SelectedFrom10(node: Node)
    ensures FirstMatch(Pandoc, node, 10) ==
      var t := Lower(node.name);
      if t == "u" then Some(10)
      else if t == "sup" then Some(11)
      else if t == "sub" then Some(12)
      else if t == "blockquote" then Some(13)
      else if t == "var" then Some(14)
      else if t == "br" then Some(15)
      else if t == "hr" then Some(16)
      else if IsCodeElement(node.name) && !IsCodeBlock(node) then Some(17)
      else if node.name == "A" && HasHref(node) then Some(18)
      else if t == "li" then Some(19)
      else None
  {
    PandocTextEffects();
    var t := Lower(node.name);
    SelectedFrom15(node);
    assert FirstMatch(Pandoc, node, 14) == if t == "var" then Some(14) else FirstMatch(Pandoc, node, 15);
    assert FirstMatch(Pandoc, node, 13) == if t == "blockquote" then Some(13) else FirstMatch(Pandoc, node, 14);
    assert FirstMatch(Pandoc, node, 12) == if t == "sub" then Some(12) else FirstMatch(Pandoc, node, 13);
    assert FirstMatch(Pandoc, node, 11) == if t == "sup" then Some(11) else FirstMatch(Pandoc, node, 12);
    assert FirstMatch(Pandoc, node, 10) == if t == "u" then Some(10) else FirstMatch(Pandoc, node, 11);
  }

  lemma {:induction false} SelectedFrom5(node: Node)
    ensures FirstMatch(Pandoc, node, 5) ==
      var t := Lower(node.name);
      if t == "h5" then Some(5)
      else if (t == "em" || t == "b") then Some(6)
      else if t == "i" then Some(7)
      else if t == "cite" then Some(8)
      else if t == "del" then Some(9)
      else if t == "u" then Some(10)
      else if t == "sup" then Some(11)
      else if t == "sub" then Some(12)
      else if t == "blockquote" then Some(13)
      else if t == "var" then Some(14)
      else if t == "br" then Some(15)
      else if t == "hr" then Some(16)
      else if IsCodeElement(node.name) && !IsCodeBlock(node) then Some(17)
      else if node.name == "A" && HasHref(node) then Some(18)
      else if t == "li" then Some(19)
      else None
  {
    PandocHeadings();
    PandocTextEffects();
    var t := Lower(node.name);
    SelectedFrom10(node);
    assert FirstMatch(Pandoc, node, 9) == if t == "del" then Some(9) else FirstMatch(Pandoc, node, 10);
    assert FirstMatch(Pandoc, node, 8) == if t == "cite" then Some(8) else FirstMatch(Pandoc, node, 9);
    assert FirstMatch(Pandoc, node, 7) == if t == "i" then Some(7) else FirstMatch(Pandoc, node, 8);
    assert FirstMatch(Pandoc, node, 6) == if (t == "em" || t == "b") then Some(6) else FirstMatch(Pandoc, node, 7);
    assert FirstMatch(Pandoc, node, 5) == if t == "h5" then Some(5) else FirstMatch(Pandoc, node, 6);
  }

  /** Which rule fires, by the element's lower-cased name and structure:
      the second h5 rule (index 5) never does, and no rule fires for h6. */
  lemma {:induction false} SelectedRule(node: Node)
    ensures FirstMatch(Pandoc, node, 0) ==
      var t := Lower(node.name);
      if t == "h1" then Some(0)
      else if t == "h2" then Some(1)
      else if t == "h3" then Some(2)
      else if t == "h4" then Some(3)
      else if t == "h5" then Some(4)
      else if (t == "em" || t == "b") then Some(6)
      else if t == "i" then Some(7)
      else if t == "cite" then Some(8)
      else if t == "del" then Some(9)
      else if t == "u" then Some(10)
      else if t == "sup" then Some(11)
      else if t == "sub" then Some(12)
      else if t == "blockquote" then Some(13)
      else if t == "var" then Some(14)
      else if t == "br" then Some(15)
      else if t == "hr" then Some(16)
      else if IsCodeElement(node.name) && !IsCodeBlock(node) then Some(17)
      else if node.name == "A" && HasHref(node) then Some(18)
      else if t == "li" then Some(19)
      else None
  {
    PandocHeadings();
    var t := Lower(node.name);
    if t == "h1" {
      assert Matches(Pandoc[0].filter, node);
    } else if t == "h2" {
      assert FirstMatch(Pandoc, node, 0) == FirstMatch(Pandoc, node, 1);
    } else if t == "h3" {
      assert FirstMatch(Pandoc, node, 0) == FirstMatch(Pandoc, node, 1) == FirstMatch(Pandoc, node, 2);
    } else if t == "h4" {
      assert FirstMatch(Pandoc, node, 0) == FirstMatch(Pandoc, node, 1) == FirstMatch(Pandoc, node, 2)
        == FirstMatch(Pandoc, node, 3);
    } else if t == "h5" {
      assert FirstMatch(Pandoc, node, 0) == FirstMatch(Pandoc, node, 1) == FirstMatch(Pandoc, node, 2)
        == FirstMatch(Pandoc, node, 3) == FirstMatch(Pandoc, node, 4);
    } else {
      SelectedFrom5(node);
      assert FirstMatch(Pandoc, node, 0) == FirstMatch(Pandoc, node, 1) == FirstMatch(Pandoc, node, 2)
        == FirstMatch(Pandoc, node, 3) == FirstMatch(Pandoc, node, 4) == FirstMatch(Pandoc, node, 5);
    }
  }

  /** Rendering once the selected rule is known. */
  lemma {:induction false} RenderSelected(node: Node, content: string, k: nat)
    requires FirstMatch(Pandoc, node, 0) == Some(k)
    ensures k < |Pandoc| && Render(node, content) == Some(Apply(Pandoc[k].replacement, content, node))
  {
  }

  /** The k-th heading rule is the first to accept its own tag. */
  lemma {:induction false} HeadingSelected(node: Node, k: nat)
    requires k < 5 && Lower(node.name) == ["h1", "h2", "h3", "h4", "h5"][k]
    ensures FirstMatch(Pandoc, node, 0) == Some(k)
    ensures Pandoc[k].replacement == Heading(Lower(node.name))
  {
    PandocHeadings();
    var t := Lower(node.name);
    if k == 0 {
    } else if k == 1 {
      assert !Matches(Pandoc[0].filter, node);
    } else if k == 2 {
      assert !Matches(Pandoc[0].filter, node) && !Matches(Pandoc[1].filter, node);
    } else if k == 3 {
      assert !Matches(Pandoc[0].filter, node) && !Matches(Pandoc[1].filter, node);
      assert !Matches(Pandoc[2].filter, node);
    } else {
      assert !Matches(Pandoc[0].filter, node) && !Matches(Pandoc[1].filter, node);
      assert !Matches(Pandoc[2].filter, node) && !Matches(Pandoc[3].filter, node);
    }
  }

  /** Headings h1 to h5 echo their tag and are wrapped in blank lines. */
  lemma {:induction false} HeadingRule(node: Node, content: string)
    requires Lower(node.name) in ["h1", "h2", "h3", "h4", "h5"]
    ensures Render(node, content) == Some("\n\n" + Lower(node.name) + ". " + content + "\n\n")
  {
    PandocHeadings();
    var t := Lower(node.name);
    var k: nat := if t == "h1" then 0 else if t == "h2" then 1 else if t == "h3" then 2 else if t == "h4" then 3 else 4;
    HeadingSelected(node, k);
    RenderSelected(node, content, k);
  }

  /** The second h5 rule duplicates the first and is never selected. */
  lemma {:induction false} DuplicateHeadingNeverSelected(node: Node)
    ensures Pandoc[5] == Pandoc[4]
    ensures FirstMatch(Pandoc, node, 0) != Some(5)
  {
    SelectedRule(node);
  }

  /** No rule renders h6: it is left to the default rendering. */
  lemma {:induction false} NoRuleForH6(node: Node, content: string)
    requires Lower(node.name) == "h6"
    ensures Render(node, content) == None
  {
    SelectedRule(node);
  }

  /** The text effects wrap the content in their markers. */
  lemma {:induction false} TextEffectRule(node: Node, content: string)
    ensures Lower(node.name) in ["em", "b"] ==> Render(node, content) == Some("*" + content + "*")
    ensures Lower(node.name) == "i" ==> Render(node, content) == Some("_" + content + "_")
    ensures Lower(node.name) == "cite" ==> Render(node, content) == Some("??" + content + "??")
    ensures Lower(node.name) == "del" ==> Render(node, content) == Some("-" + content + "-")
    ensures Lower(node.name) == "u" ==> Render(node, content) == Some("+" + content + "+")
  {
    SelectedRule(node);
    PandocTextEffects();
    var t := Lower(node.name);
    if t in ["em", "b"] {
      assert FirstMatch(Pandoc, node, 0) == Some(6);
    } else if t == "i" {
      assert FirstMatch(Pandoc, node, 0) == Some(7);
    } else if t == "cite" {
      assert FirstMatch(Pandoc, node, 0) == Some(8);
    } else if t == "del" {
      assert FirstMatch(Pandoc, node, 0) == Some(9);
    } else if t == "u" {
      assert FirstMatch(Pandoc, node, 0) == Some(10);
    }
  }

  /** Superscript, subscript, variables and block quotes wrap the content too. */
  lemma {:induction false} ScriptAndQuoteRule(node: Node, content: string)
    ensures Lower(node.name) == "sup" ==> Render(node, content) == Some("^" + content + "^")
    ensures Lower(node.name) == "sub" ==> Render(node, content) == Some("~" + content + "~")
    ensures Lower(node.name) == "var" ==> Render(node, content) == Some("`" + content + "`")
    ensures Lower(node.name) == "blockquote" ==>
      Render(node, content) == Some("{quote}\n" + content + "\n{quote}")
  {
    SelectedRule(node);
    PandocTextEffects();
    var t := Lower(node.name);
    if t == "sup" {
      assert FirstMatch(Pandoc, node, 0) == Some(11);
    } else if t == "sub" {
      assert FirstMatch(Pandoc, node, 0) == Some(12);
    } else if t == "blockquote" {
      assert FirstMatch(Pandoc, node, 0) == Some(13);
    } else if t == "var" {
      assert FirstMatch(Pandoc, node, 0) == Some(14);
    }
  }

  /** Line breaks and horizontal rules ignore their content. */
  lemma {:induction false} BreakRule(node: Node, content: string)
    ensures Lower(node.name) == "br" ==> Render(node, content) == Some("\n\n")
    ensures Lower(node.name) == "hr" ==> Render(node, content) == Some("\n\n----\n\n")
  {
    SelectedRule(node);
  }

  /** The inline-code rule fires exactly for CODE, KBD, SAMP and TT elements
      that are not the only child of a PRE; a code block gets no rule. */
  lemma {:induction false} InlineCodeRule(node: Node, content: string)
    ensures FirstMatch(Pandoc, node, 0) == Some(17) <==> IsCodeElement(node.name) && !IsCodeBlock(node)
    ensures IsCodeElement(node.name) ==>
      Render(node, content) == if IsCodeBlock(node) then None else Some("`" + content + "`")
  {
    SelectedRule(node);
    if IsCodeElement(node.name) {
      assert |Lower(node.name)| == |node.name|;
      assert Lower(node.name)[0] == LowerChar(node.name[0]);
    }
  }

  /** An A element is a link exactly when its href is present and non-empty. */
  lemma {:induction false} LinkRule(node: Node, content: string)
    requires node.name == "A"
    ensures Render(node, content) == if HasHref(node) then Some(LinkMarkup(content, node.href.value)) else None
  {
    SelectedRule(node);
    assert Lower(node.name) == "a";
  }

  /** A list item renders through its marker and cleaned-up content. */
  lemma {:induction false} ListItemRule(node: Node, content: string)
    requires Lower(node.name) == "li"
    ensures Render(node, content) == Some(ListItemMarkup(content, node))
  {
    SelectedRule(node);
  }

  /** A list nested inside an `li` still gets a one-character marker: the
      climb reaches the LI, which is neither ordered nor unordered. */
  lemma {:induction false} NestedListSingleMarker(parent: Element, above: seq<Element>)
    requires IsOrderedList(parent.name) || IsUnorderedList(parent.name)
    requires |above| > 0 && above[0].looksLikeLi && Lower(above[0].name) == "li"
    ensures ListPrefix(parent, above) == (if IsOrderedList(parent.name) then "#" else "*")
  {
    assert !ContainsInfix("i", "ol") && !ContainsInfix("i", "ul");
    assert "li"[1..] == "i";
    assert !IsOrderedList(above[0].name) && !IsUnorderedList(above[0].name);
  }

  /** A list directly inside another list-like element that looks like an
      `li` accumulates a second marker, outermost first. */
  lemma {:induction false} DirectNestingAccumulates(parent: Element, above: seq<Element>)
    requires IsOrderedList(parent.name) || IsUnorderedList(parent.name)
    requires |above| > 0 && above[0].looksLikeLi
    requires IsOrderedList(above[0].name) || IsUnorderedList(above[0].name)
    ensures |ListPrefix(parent, above)| >= 2
    ensures ListPrefix(parent, above)[|ListPrefix(parent, above)| - 2] == (if IsOrderedList(above[0].name) then '#' else '*')
  {
  }

  // ------------------------------------------------------------- examples

  lemma {:induction false} UnorderedListName()
    ensures IsUnorderedList("UL") && !IsOrderedList("UL")
  {
    assert Lower("UL")[0] == LowerChar('U') && Lower("UL")[1] == LowerChar('L');
    assert Lower("UL") == "ul";
    assert "ul"[..2] == "ul";
    assert "ul"[0] != "ol"[0];
    assert "ul"[1..] == "l";
  }

  lemma {:induction false} PlainItemText()
    ensures IndentLines(StripLeadingSpace("one")) == "one"
  {
    assert StripLeadingSpace("one") == "one";
    assert "one"[1..] == "ne" && "ne"[1..] == "e" && "e"[1..] == [];
  }

  lemma {:induction false} TopLevelItemMarkup(node: Node)
    requires node.parent.name == "UL"
    requires node.above == [] || !node.above[0].looksLikeLi
    ensures ListItemMarkup("one", node) == "* one"
  {
    TopLevelPrefix(node);
    PlainItemText();
  }

  lemma {:induction false} TopLevelPrefix(node: Node)
    requires node.parent.name == "UL"
    requires node.above == [] || !node.above[0].looksLikeLi
    ensures ListPrefix(node.parent, node.above) == "*"
  {
    UnorderedListName();
  }

  /** An item of a top-level unordered list: `<ul><li>one</li></ul>` gives `* one`. */
  lemma {:induction false} TopLevelItemExample(node: Node)
    requires node.name == "LI" && node.parent.name == "UL"
    requires node.above == [] || !node.above[0].looksLikeLi
    ensures Render(node, "one") == Some("* one")
  {
    assert Lower("LI")[0] == LowerChar('L') && Lower("LI")[1] == LowerChar('I');
    assert Lower("LI") == "li";
    ListItemRule(node, "one");
    TopLevelItemMarkup(node);
  }

  /** `<a href="http://x.com">http://x.com</a>` gives `[http://x.com]`. */
  lemma {:induction false} SelfLinkExample(node: Node)
    requires node.name == "A" && node.href == Some("http://x.com")
    ensures Render(node, "http://x.com") == Some("[" + "http://x.com" + "]")
  {
    var url := "http://x.com";
    LinkRule(node, url);
    assert HasHref(node);
    assert LinkMarkup(url, url) == "[" + url + "]";
  }
}
