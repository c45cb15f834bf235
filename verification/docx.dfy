/** The document facade, `Docx::Document` (lib/docx/document.rb): the
    paragraphs the parser produced, the source package's entries, and the
    pending replacements; its text, its HTML rendering, and its save. */
module Docx {
  import opened Optional
  import opened Runs
  import Lines
  import Html
  import opened Package

  datatype Document = Document(paragraphs: seq<Paragraph>, archive: seq<Entry>,
                               replace: Replacements)

  /** A freshly opened document: nothing is staged yet. */
  function Open(paragraphs: seq<Paragraph>, archive: seq<Entry>): Document
  {
    Document(paragraphs, archive, map[])
  }

  /** Each paragraph's own string, in document order. */
  function ParagraphStrings(ps: seq<Paragraph>): (r: seq<string>)
    ensures |r| == |ps|
    ensures forall i :: 0 <= i < |ps| ==> r[i] == ParagraphText(ps[i])
  {
    if ps == [] then [] else [ParagraphText(ps[0])] + ParagraphStrings(ps[1..])
  }

  /** `to_s` / `text`: the paragraphs' strings joined by "\n". */
  function Text(d: Document): (s: string)
    ensures |s| == Lines.TotalLength(ParagraphStrings(d.paragraphs))
                   + if d.paragraphs == [] then 0 else |d.paragraphs| - 1
  {
    Lines.Join(ParagraphStrings(d.paragraphs), '\n')
  }

  /** No run text holds a line break. */
  predicate SingleLineRuns(d: Document)
  {
    forall i :: 0 <= i < |d.paragraphs| ==> RunsAvoid(d.paragraphs[i], '\n')
  }

  lemma ParagraphStringsSingleLine(d: Document)
    requires SingleLineRuns(d)
    ensures forall i :: 0 <= i < |d.paragraphs| ==> '\n' !in ParagraphStrings(d.paragraphs)[i]
  {
    forall i | 0 <= i < |d.paragraphs|
      ensures '\n' !in ParagraphStrings(d.paragraphs)[i]
    {
      assert RunsAvoid(d.paragraphs[i], '\n');
    }
  }

  /** N paragraphs without line breaks give exactly N-1 line breaks. */
  lemma TextNewlines(d: Document)
    requires SingleLineRuns(d)
    ensures Lines.Count(Text(d), '\n') == if d.paragraphs == [] then 0 else |d.paragraphs| - 1
  {
    ParagraphStringsSingleLine(d);
    Lines.JoinSeparatorCount(ParagraphStrings(d.paragraphs), '\n');
  }

  /** The text is the paragraphs' strings and nothing else: splitting it at
      the line breaks gives them back, one per paragraph, in order. */
  lemma TextSplitsIntoParagraphs(d: Document)
    requires SingleLineRuns(d) && |d.paragraphs| > 0
    ensures Lines.Split(Text(d), '\n') == ParagraphStrings(d.paragraphs)
  {
    ParagraphStringsSingleLine(d);
    Lines.SplitOfJoin(ParagraphStrings(d.paragraphs), '\n');
  }

  /** The text ends with the last paragraph's string: no trailing line break
      is added. */
  lemma TextEndsWithLastParagraph(d: Document)
    requires |d.paragraphs| > 0
    ensures var t := Text(d);
            var last := ParagraphText(d.paragraphs[|d.paragraphs| - 1]);
            |last| <= |t| && t[|t| - |last|..] == last
  {
    Lines.JoinEnds(ParagraphStrings(d.paragraphs), '\n');
  }

  /** `to_html`: the doctype, then the `html` element holding `head` with the
      title and `body` with one element per paragraph, all written flush. */
  function ToHtml(d: Document, options: Html.HtmlOptions): (s: string)
    ensures s == Html.DoctypeDecl(options.doctype.GetOr(Html.Html5))
                 + "<html>" + "<head>" + "<title>" + options.title.GetOr("") + "</title>" + "</head>"
                 + "<body>" + Html.BodyHtml(d.paragraphs) + "</body>" + "</html>"
  {
    Html.PageLayout(d.paragraphs, options);
    Html.Page(d.paragraphs, options)
  }

  /** N paragraphs without runs: the text is N-1 line breaks and nothing
      else, and the body is N empty `p` elements. */
  lemma EmptyParagraphsDocument(d: Document, options: Html.HtmlOptions)
    requires forall i :: 0 <= i < |d.paragraphs| ==> d.paragraphs[i] == []
    ensures Lines.Count(Text(d), '\n') == |Text(d)|
    ensures |Text(d)| == if d.paragraphs == [] then 0 else |d.paragraphs| - 1
    ensures ToHtml(d, options)
         == Html.DoctypeDecl(options.doctype.GetOr(Html.Html5))
            + "<html>" + "<head>" + "<title>" + options.title.GetOr("") + "</title>" + "</head>"
            + "<body>" + Html.Repeat("<p></p>", |d.paragraphs|) + "</body>" + "</html>"
  {
    assert SingleLineRuns(d);
    TextNewlines(d);
    EmptyTextIsBreaks(ParagraphStrings(d.paragraphs));
    Html.PageLayout(d.paragraphs, options);
    Html.BodyOfEmptyParagraphs(d.paragraphs);
  }

  lemma {:induction false} EmptyTextIsBreaks(parts: seq<string>)
    requires forall i :: 0 <= i < |parts| ==> parts[i] == ""
    ensures Lines.Count(Lines.Join(parts, '\n'), '\n') == |Lines.Join(parts, '\n')|
  {
    if |parts| > 1 {
      EmptyTextIsBreaks(parts[1..]);
      var rest := Lines.Join(parts[1..], '\n');
      assert Lines.Join(parts, '\n') == ['\n'] + rest;
      assert (['\n'] + rest)[1..] == rest;
    }
  }

  /** `update`: the serialised main-part tree is staged, unconditionally. */
  function Update(d: Document, serialized: Bytes): (u: Document)
    ensures u.paragraphs == d.paragraphs && u.archive == d.archive
    ensures MainPart in u.replace && u.replace[MainPart] == serialized
    ensures forall n :: n != MainPart ==> (n in u.replace <==> n in d.replace)
    ensures forall n :: n != MainPart && n in d.replace ==> u.replace[n] == d.replace[n]
  {
    d.(replace := Stage(d.replace, serialized))
  }

  /** `save`: update, then stream every source entry into the new package.
      The main part's XML serialisation is outside the model and arrives as
      `serialized`. Returns the document with its new pending replacement and
      the entries of the new package. */
  method Save(d: Document, serialized: Bytes) returns (saved: Document, out: seq<Entry>)
    ensures saved == Update(d, serialized)
    ensures StreamedFrom(out, d.archive, saved.replace)
    ensures Names(out) == Names(d.archive)
    ensures forall i :: 0 <= i < |out| && out[i].name == MainPart ==> out[i].data == serialized
    ensures forall i :: 0 <= i < |out| && out[i].name != MainPart && out[i].name !in d.replace ==>
              out[i] == d.archive[i]
  {
    saved := Update(d, serialized);
    out := Stream(d.archive, saved.replace);
    StreamSpecIsStreamedFrom(out, d.archive, saved.replace);
    StreamKeepsNames(out, d.archive, saved.replace);
  }

  /** Saving a freshly opened document rewrites the main part and nothing
      else: every other entry, read by name, is byte-identical to the source,
      and the main part, if the source has one, reads as the serialised
      bytes. */
  lemma SaveFreshTouchesOnlyMainPart(paragraphs: seq<Paragraph>, archive: seq<Entry>,
                                     serialized: Bytes, out: seq<Entry>, name: string)
    requires StreamedFrom(out, archive, Update(Open(paragraphs, archive), serialized).replace)
    ensures name != MainPart ==> Lookup(out, name) == Lookup(archive, name)
    ensures name == MainPart && Lookup(archive, name).Some? ==> Lookup(out, name) == Some(serialized)
  {
    StreamLookup(out, archive, Update(Open(paragraphs, archive), serialized).replace, name);
  }

  /** A second save without intervening edits stages the same bytes and so
      writes the same package as the first. */
  lemma SaveAgainSamePackage(d: Document, serialized: Bytes, first: seq<Entry>, second: seq<Entry>)
    requires StreamedFrom(first, d.archive, Update(d, serialized).replace)
    requires StreamedFrom(second, d.archive, Update(Update(d, serialized), serialized).replace)
    ensures first == second
  {
    StageIdempotent(d.replace, serialized);
    assert forall i :: 0 <= i < |first| ==> first[i] == second[i];
  }
}
