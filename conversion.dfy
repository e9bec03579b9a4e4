/** `convert`: the markup produced by the generic HTML-to-markup converter,
    run with the pandoc rule table and its GitHub-flavoured fallbacks
    switched on, is passed through the escaper. The converter itself walks
    the DOM and is not part of this model, so it is a parameter. */
module Conversion {
  import opened Rules
  import opened Escaping

  /** The options object handed to the converter. */
  datatype Options = Options(converters: seq<Rule>, gfm: bool)

  /** The options `convert` passes (line 186). */
  const PandocOptions: Options := Options(Pandoc, true)

  /** Line 186: the converter's markup, escaped. Whatever the converter
      returns, the result is one line free of smart punctuation with every
      double quote escaped. */
  function Convert(toMarkdown: (string, Options) -> string, html: string): (r: string)
    ensures forall c :: c in r ==> !IsSmartPunctuation(c)
    ensures '\n' !in r
    ensures QuotesEscaped(r)
  {
    Escape(toMarkdown(html, PandocOptions))
  }

  /** Nothing ordinary the converter writes is lost by `convert`. */
  lemma {:induction false} ConvertKeeps(toMarkdown: (string, Options) -> string, html: string, x: char)
    requires x in NormalizePunctuation(toMarkdown(html, PandocOptions)) && Ordinary(x)
    ensures x in Convert(toMarkdown, html)
  {
    EscapeKeeps(toMarkdown(html, PandocOptions), x);
  }
}
