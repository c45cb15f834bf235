/** The document model the facade reads: runs of text sharing one formatting
    state, and paragraphs as ordered runs. The parser that extracts them from
    the package's XML is not part of this model; runs arrive as given. */
module Runs {
  import opened Optional

  /** A heading depth, `h1` to `h6`. */
  type HeadingLevel = x: int | 1 <= x <= 6 witness 1

  /** A text run: its text, its three formatting flags, and the heading level
      its paragraph's style assigns, if any. */
  datatype Run = Run(text: string, bold: bool, italic: bool, underline: bool,
                     heading: Option<HeadingLevel>)

  /** A paragraph is its text runs in document order; it may have none. */
  type Paragraph = seq<Run>

  /** A paragraph is rendered as a heading exactly when it has a run and its
      first run carries a heading level. */
  predicate IsHeading(p: Paragraph)
  {
    |p| > 0 && p[0].heading.Some?
  }

  /** A paragraph's own string: its runs' texts concatenated in order. */
  function ParagraphText(p: Paragraph): (s: string)
    ensures forall c :: c in s <==> exists i :: 0 <= i < |p| && c in p[i].text
  {
    if p == [] then ""
    else
      var rest := ParagraphText(p[1..]);
      assert forall i :: 0 <= i < |p[1..]| ==> p[1..][i] == p[i + 1];
      p[0].text + rest
  }

  /** Every character of every run's text is `c`-free. */
  predicate RunsAvoid(p: Paragraph, c: char)
  {
    forall i :: 0 <= i < |p| ==> c !in p[i].text
  }
}
