/** The rendering half of the document facade: `inline_content_for`
    (lib/docx/document.rb:105-112), the per-paragraph choice between a heading
    and a `p` element (lines 81-87), and the page shell of `to_html`
    (lines 74-90). Every element is written flush, `<tag>content</tag>`, with
    no whitespace between tags and no escaping of text. */
module Html {
  import opened Optional
  import opened Markup
  import opened Runs
  import Concat

  /** The single attribute of the underline wrapper. */
  const UnderlineStyle: seq<Attr> := [("style", "text-decoration: underline;")]

  /** A run's inline markup: its raw text, wrapped in `em` when italic, that
      in `strong` when bold, and that in an underline `span` when underlined. */
  function InlineContent(r: Run): (s: string)
    ensures !r.italic && !r.bold && !r.underline ==> s == r.text
    ensures |s| == |r.text| + (if r.italic then 9 else 0) + (if r.bold then 17 else 0)
                            + (if r.underline then 49 else 0)
  {
    var i := if r.italic then Wrap(r.text, "em", []) else r.text;
    var b := if r.bold then Wrap(i, "strong", []) else i;
    if r.underline then Wrap(b, "span", UnderlineStyle) else b
  }

  /** Strips one `tag` wrapper if `s` has it, reporting whether it did. */
  function Peel(s: string, tag: string, attrs: seq<Attr>): (bool, string)
  {
    match Unwrap(s, tag, attrs)
    case Some(inner) => (true, inner)
    case None => (false, s)
  }

  /** Reads inline markup back into a (non-heading) run, peeling the wrappers
      from the outside in: underline, then bold, then italic. */
  function ParseInline(s: string): Run
  {
    var (underline, b) := Peel(s, "span", UnderlineStyle);
    var (bold, i) := Peel(b, "strong", []);
    var (italic, text) := Peel(i, "em", []);
    Run(text, bold, italic, underline, None)
  }

  /** Text that cannot be mistaken for markup: it does not begin with `<`. */
  predicate PlainStart(t: string)
  {
    t == [] || t[0] != '<'
  }

  /** Inline markup loses nothing: text, bold, italic and underline are all
      recovered from it when the text does not itself begin with `<`. */
  lemma ParseInlineOfInlineContent(r: Run)
    requires PlainStart(r.text)
    ensures ParseInline(InlineContent(r)) == r.(heading := None)
  {
    var i := if r.italic then Wrap(r.text, "em", []) else r.text;
    var b := if r.bold then Wrap(i, "strong", []) else i;
    UnwrapOfWrap(r.text, "em", []);
    UnwrapOfWrap(i, "strong", []);
    UnwrapOfWrap(b, "span", UnderlineStyle);
    // what is not an `em` element
    if !r.italic {
      UnwrapNeedsOpenBracket(r.text, "em", []);
    }
    // what is not a `strong` element
    if !r.bold {
      if r.italic {
        UnwrapOtherTag(r.text, "em", [], "strong", [], 0);
      } else {
        UnwrapNeedsOpenBracket(r.text, "strong", []);
      }
    }
    // what is not an underline `span`
    if !r.underline {
      if r.bold {
        UnwrapOtherTag(i, "strong", [], "span", UnderlineStyle, 1);
      } else if r.italic {
        UnwrapOtherTag(r.text, "em", [], "span", UnderlineStyle, 0);
      } else {
        UnwrapNeedsOpenBracket(r.text, "span", UnderlineStyle);
      }
    }
  }

  /** Because text is inserted unescaped, a plain run whose text is itself
      markup renders exactly like a formatted run: the two are
      indistinguishable in the output. */
  lemma UnescapedTextIsAmbiguous()
    ensures InlineContent(Run("<em>x</em>", false, false, false, None))
         == InlineContent(Run("x", false, true, false, None))
  {
  }

  /** The underline wrapper's opening tag, spelled out. */
  const SpanOpen := "<span style=\"" + "text-decoration: underline;" + "\">"

  // The wrappers' tags as literals, one small lemma each so that the proofs
  // using them stay small.

  lemma EmTags()
    ensures OpenTag("em", []) == "<em>" && CloseTag("em") == "</em>"
  {
  }

  lemma StrongTags()
    ensures OpenTag("strong", []) == "<strong>" && CloseTag("strong") == "</strong>"
  {
  }

  lemma SpanTags()
    ensures OpenTag("span", UnderlineStyle) == SpanOpen && CloseTag("span") == "</span>"
  {
  }

  /** The fixed nesting order with every flag set: underline outermost, then
      bold, then italic innermost. */
  lemma AllFlagsNesting(t: string)
    ensures InlineContent(Run(t, true, true, true, None))
         == SpanOpen + "<strong>" + "<em>" + t + "</em>" + "</strong>" + "</span>"
  {
    var i := Wrap(t, "em", []);
    var b := Wrap(i, "strong", []);
    EmTags();
    StrongTags();
    SpanTags();
    WrapPieces(t, "em", []);
    WrapPieces(i, "strong", []);
    WrapPieces(b, "span", UnderlineStyle);
    Concat.ThreeWrappersRegroup(SpanOpen, "<strong>", "<em>", t, "</em>", "</strong>", "</span>");
  }

  /** Bold and italic together always nest `em` inside `strong`, never the
      other way round. */
  lemma BoldItalicNesting(t: string)
    ensures InlineContent(Run(t, true, true, false, None)) == "<strong>" + "<em>" + t + "</em>" + "</strong>"
  {
    var i := Wrap(t, "em", []);
    EmTags();
    StrongTags();
    WrapPieces(t, "em", []);
    WrapPieces(i, "strong", []);
  }

  /** The runs' inline markup, concatenated in run order; for runs without
      formatting it is exactly the paragraph's text. */
  function InlineJoin(p: Paragraph): (s: string)
    ensures (forall i :: 0 <= i < |p| ==> !p[i].bold && !p[i].italic && !p[i].underline) ==>
              s == ParagraphText(p)
  {
    if p == [] then "" else InlineContent(p[0]) + InlineJoin(p[1..])
  }

  /** Inline markup of consecutive run sequences concatenates. */
  lemma {:induction false} InlineJoinAppend(p: Paragraph, q: Paragraph)
    ensures InlineJoin(p + q) == InlineJoin(p) + InlineJoin(q)
  {
    if p == [] {
      assert p + q == q;
    } else {
      assert (p + q)[1..] == p[1..] + q;
      InlineJoinAppend(p[1..], q);
    }
  }

  /** `h1` .. `h6`. */
  function HeadingTag(level: HeadingLevel): (tag: string)
    ensures |tag| == 2 && tag[0] == 'h' && '1' <= tag[1] <= '6'
    ensures tag[1] as int - '0' as int == level
  {
    ['h', ('0' as int + level) as char]
  }

  /** One paragraph's element: a heading holding only the first run's raw
      text when the paragraph is a heading, otherwise a `p` holding the
      inline markup of all its runs. */
  function ParagraphHtml(p: Paragraph): (s: string)
    ensures |s| >= 7 && s[0] == '<' && s[|s| - 1] == '>'
    ensures IsHeading(p) ==> |s| == |p[0].text| + 9
    ensures !IsHeading(p) ==> |s| == |InlineJoin(p)| + 7
  {
    if IsHeading(p) then Wrap(p[0].text, HeadingTag(p[0].heading.value), [])
    else Wrap(InlineJoin(p), "p", [])
  }

  /** A heading paragraph is exactly an `hL` element around its first run's
      text; any other paragraph is exactly a `p` element around its runs'
      inline markup. */
  lemma ParagraphElement(p: Paragraph)
    ensures IsHeading(p) ==> Unwrap(ParagraphHtml(p), HeadingTag(p[0].heading.value), []) == Some(p[0].text)
    ensures !IsHeading(p) ==> Unwrap(ParagraphHtml(p), "p", []) == Some(InlineJoin(p))
  {
    if IsHeading(p) {
      UnwrapOfWrap(p[0].text, HeadingTag(p[0].heading.value), []);
    } else {
      UnwrapOfWrap(InlineJoin(p), "p", []);
    }
  }

  /** A heading paragraph's element depends only on its first run's text and
      level: later runs and the first run's formatting flags are discarded. */
  lemma HeadingUsesFirstRunOnly(p: Paragraph, q: Paragraph)
    requires IsHeading(p) && IsHeading(q)
    requires p[0].text == q[0].text && p[0].heading == q[0].heading
    ensures ParagraphHtml(p) == ParagraphHtml(q)
  {
  }

  /** A heading paragraph renders as `<hL>text</hL>`. */
  lemma HeadingElement(p: Paragraph)
    requires IsHeading(p)
    ensures var tag := HeadingTag(p[0].heading.value);
            ParagraphHtml(p) == "<" + tag + ">" + p[0].text + "</" + tag + ">"
  {
  }

  /** A paragraph without runs renders as an empty `p`. */
  lemma EmptyParagraph()
    ensures ParagraphHtml([]) == "<p></p>"
  {
  }

  /** The body's content: one element per paragraph, in paragraph order. */
  function BodyHtml(ps: seq<Paragraph>): (s: string)
    ensures |s| >= 7 * |ps|
  {
    if ps == [] then "" else ParagraphHtml(ps[0]) + BodyHtml(ps[1..])
  }

  lemma {:induction false} BodyHtmlAppend(ps: seq<Paragraph>, qs: seq<Paragraph>)
    ensures BodyHtml(ps + qs) == BodyHtml(ps) + BodyHtml(qs)
  {
    if ps == [] {
      assert ps + qs == qs;
    } else {
      assert (ps + qs)[1..] == ps[1..] + qs;
      BodyHtmlAppend(ps[1..], qs);
    }
  }

  /** `s` written `n` times. */
  function Repeat(s: string, n: nat): string
  {
    if n == 0 then "" else s + Repeat(s, n - 1)
  }

  /** N paragraphs without runs give N empty `p` elements. */
  lemma {:induction false} BodyOfEmptyParagraphs(ps: seq<Paragraph>)
    requires forall i :: 0 <= i < |ps| ==> ps[i] == []
    ensures BodyHtml(ps) == Repeat("<p></p>", |ps|)
  {
    if ps != [] {
      EmptyParagraph();
      BodyOfEmptyParagraphs(ps[1..]);
    }
  }

  /** The doctype token: HTML5 (the default, token 5), or another token given
      by the declaration the writer emits for it. */
  datatype Doctype = Html5 | Declared(declaration: string)

  function DoctypeDecl(d: Doctype): string
  {
    match d
    case Html5 => "<!DOCTYPE html>"
    case Declared(text) => text
  }

  /** The options `to_html` reads; every other key is ignored. */
  datatype HtmlOptions = HtmlOptions(doctype: Option<Doctype>, title: Option<string>)

  const NoOptions := HtmlOptions(None, None)

  /** The page: doctype, then `html` holding `head` with the `title`, then
      `body` with the paragraphs' elements. */
  function Page(ps: seq<Paragraph>, options: HtmlOptions): (s: string)
    ensures var decl := DoctypeDecl(options.doctype.GetOr(Html5));
            |s| == |decl| + |options.title.GetOr("")| + |BodyHtml(ps)| + 54 && s[..|decl|] == decl
  {
    var head := Wrap(Wrap(options.title.GetOr(""), "title", []), "head", []);
    var body := Wrap(BodyHtml(ps), "body", []);
    DoctypeDecl(options.doctype.GetOr(Html5)) + Wrap(head + body, "html", [])
  }

  // The page elements as literals, one small lemma each.

  lemma TitleElement(t: string)
    ensures Wrap(t, "title", []) == "<title>" + t + "</title>"
  {
  }

  lemma HeadElement(t: string)
    ensures Wrap(t, "head", []) == "<head>" + t + "</head>"
  {
  }

  lemma BodyElement(t: string)
    ensures Wrap(t, "body", []) == "<body>" + t + "</body>"
  {
  }

  lemma HtmlElement(t: string)
    ensures Wrap(t, "html", []) == "<html>" + t + "</html>"
  {
  }

  lemma PElement(t: string)
    ensures Wrap(t, "p", []) == "<p>" + t + "</p>"
  {
  }

  /** The page is serialised flush: the doctype, then
      `<html><head><title>TITLE</title></head><body>`, the paragraphs'
      elements, and `</body></html>`, with the title defaulting to "" and the
      doctype to HTML5. */
  lemma PageLayout(ps: seq<Paragraph>, options: HtmlOptions)
    ensures Page(ps, options)
         == DoctypeDecl(options.doctype.GetOr(Html5))
            + "<html>" + "<head>" + "<title>" + options.title.GetOr("") + "</title>" + "</head>"
            + "<body>" + BodyHtml(ps) + "</body>" + "</html>"
  {
    var title := options.title.GetOr("");
    var b := BodyHtml(ps);
    var t := Wrap(title, "title", []);
    var head := Wrap(t, "head", []);
    var body := Wrap(b, "body", []);
    TitleElement(title);
    HeadElement(t);
    BodyElement(b);
    HtmlElement(head + body);
    Concat.PageShellRegroup(DoctypeDecl(options.doctype.GetOr(Html5)), "<html>", "<head>", "<title>", title,
                 "</title>", "</head>", "<body>", b, "</body>", "</html>");
  }

  /** With no options the doctype is HTML5 and the title is empty. */
  lemma PageDefaults(ps: seq<Paragraph>)
    ensures Page(ps, NoOptions)
         == "<!DOCTYPE html>" + "<html>" + "<head>" + "<title>" + "</title>" + "</head>"
            + "<body>" + BodyHtml(ps) + "</body>" + "</html>"
  {
    PageLayout(ps, NoOptions);
  }

  function PlainRun(t: string): Run
  {
    Run(t, false, false, false, None)
  }

  /** Two plain paragraphs "hello" and "world" with the title "basic". */
  lemma BasicConversion()
    ensures Page([[PlainRun("hello")], [PlainRun("world")]], HtmlOptions(None, Some("basic")))
         == "<!DOCTYPE html>" + "<html>" + "<head>" + "<title>" + "basic" + "</title>" + "</head>"
            + "<body>" + "<p>" + "hello" + "</p>" + "<p>" + "world" + "</p>" + "</body>" + "</html>"
  {
    var ps := [[PlainRun("hello")], [PlainRun("world")]];
    PageLayout(ps, HtmlOptions(None, Some("basic")));
    assert InlineJoin(ps[0]) == "hello";
    assert InlineJoin(ps[1]) == "world";
    PElement("hello");
    PElement("world");
    assert BodyHtml(ps[1..]) == ParagraphHtml(ps[1]) + BodyHtml([]);
    assert BodyHtml(ps) == ParagraphHtml(ps[0]) + BodyHtml(ps[1..]);
    Concat.BasicPageRegroup("<!DOCTYPE html>" + "<html>" + "<head>" + "<title>" + "basic" + "</title>" + "</head>" + "<body>",
            "<p>", "hello", "</p>", "<p>", "world", "</p>", "</body>", "</html>");
  }

  /** The mixed paragraph: plain text, a run with all three flags, plain text. */
  lemma MixedParagraph(before: string, t: string, after: string)
    ensures ParagraphHtml([PlainRun(before), Run(t, true, true, true, None), PlainRun(after)])
         == "<p>" + before + SpanOpen + "<strong>" + "<em>" + t + "</em>" + "</strong>" + "</span>"
            + after + "</p>"
  {
    var p := [PlainRun(before), Run(t, true, true, true, None), PlainRun(after)];
    var all := InlineContent(p[1]);
    AllFlagsNesting(t);
    assert InlineJoin(p[2..]) == after;
    assert InlineJoin(p[1..]) == all + after;
    assert InlineJoin(p) == before + (all + after);
    PElement(InlineJoin(p));
    Concat.MixedParagraphRegroup("<p>", before, SpanOpen, "<strong>", "<em>", t, "</em>", "</strong>", "</span>",
                after, "</p>");
  }

  lemma BodyHtmlCons(p: Paragraph, ps: seq<Paragraph>)
    ensures BodyHtml([p] + ps) == ParagraphHtml(p) + BodyHtml(ps)
  {
    assert ([p] + ps)[1..] == ps;
  }

  lemma HeadingTagsSpelled()
    ensures "<" + HeadingTag(1) + ">" == "<h1>" && "</" + HeadingTag(1) + ">" == "</h1>"
    ensures "<" + HeadingTag(2) + ">" == "<h2>" && "</" + HeadingTag(2) + ">" == "</h2>"
    ensures "<" + HeadingTag(3) + ">" == "<h3>" && "</" + HeadingTag(3) + ">" == "</h3>"
    ensures "<" + HeadingTag(4) + ">" == "<h4>" && "</" + HeadingTag(4) + ">" == "</h4>"
    ensures "<" + HeadingTag(5) + ">" == "<h5>" && "</" + HeadingTag(5) + ">" == "</h5>"
    ensures "<" + HeadingTag(6) + ">" == "<h6>" && "</" + HeadingTag(6) + ">" == "</h6>"
  {
  }

  function HeadingRun(t: string, level: HeadingLevel): Run
  {
    Run(t, false, false, false, Some(level))
  }

  lemma BodyOfSix(p1: Paragraph, p2: Paragraph, p3: Paragraph, p4: Paragraph, p5: Paragraph, p6: Paragraph)
    ensures BodyHtml([p1, p2, p3, p4, p5, p6])
         == ParagraphHtml(p1) + (ParagraphHtml(p2) + (ParagraphHtml(p3) + (ParagraphHtml(p4)
              + (ParagraphHtml(p5) + (ParagraphHtml(p6) + [])))))
  {
    assert [p1, p2, p3, p4, p5, p6] == [p1] + ([p2] + ([p3] + ([p4] + ([p5] + ([p6] + [])))));
    BodyHtmlCons(p6, []);
    BodyHtmlCons(p5, [p6] + []);
    BodyHtmlCons(p4, [p5] + ([p6] + []));
    BodyHtmlCons(p3, [p4] + ([p5] + ([p6] + [])));
    BodyHtmlCons(p2, [p3] + ([p4] + ([p5] + ([p6] + []))));
    BodyHtmlCons(p1, [p2] + ([p3] + ([p4] + ([p5] + ([p6] + [])))));
  }

  lemma SixHeadingElements(t1: string, t2: string, t3: string, t4: string, t5: string, t6: string)
    ensures ParagraphHtml([HeadingRun(t1, 1)]) == "<h1>" + t1 + "</h1>"
    ensures ParagraphHtml([HeadingRun(t2, 2)]) == "<h2>" + t2 + "</h2>"
    ensures ParagraphHtml([HeadingRun(t3, 3)]) == "<h3>" + t3 + "</h3>"
    ensures ParagraphHtml([HeadingRun(t4, 4)]) == "<h4>" + t4 + "</h4>"
    ensures ParagraphHtml([HeadingRun(t5, 5)]) == "<h5>" + t5 + "</h5>"
    ensures ParagraphHtml([HeadingRun(t6, 6)]) == "<h6>" + t6 + "</h6>"
  {
    HeadingTagsSpelled();
    HeadingElement([HeadingRun(t1, 1)]);
    HeadingElement([HeadingRun(t2, 2)]);
    HeadingElement([HeadingRun(t3, 3)]);
    HeadingElement([HeadingRun(t4, 4)]);
    HeadingElement([HeadingRun(t5, 5)]);
    HeadingElement([HeadingRun(t6, 6)]);
  }

  /** Six one-run heading paragraphs at levels 1 to 6 become `h1` .. `h6`, in
      order, each holding its literal text. */
  lemma HeadingLevels(t1: string, t2: string, t3: string, t4: string, t5: string, t6: string)
    ensures BodyHtml([[HeadingRun(t1, 1)], [HeadingRun(t2, 2)], [HeadingRun(t3, 3)],
                      [HeadingRun(t4, 4)], [HeadingRun(t5, 5)], [HeadingRun(t6, 6)]])
         == "<h1>" + t1 + "</h1>" + "<h2>" + t2 + "</h2>" + "<h3>" + t3 + "</h3>"
            + "<h4>" + t4 + "</h4>" + "<h5>" + t5 + "</h5>" + "<h6>" + t6 + "</h6>"
  {
    BodyOfSix([HeadingRun(t1, 1)], [HeadingRun(t2, 2)], [HeadingRun(t3, 3)],
              [HeadingRun(t4, 4)], [HeadingRun(t5, 5)], [HeadingRun(t6, 6)]);
    SixHeadingElements(t1, t2, t3, t4, t5, t6);
    Concat.SixElementsRegroup("<h1>", t1, "</h1>", "<h2>", t2, "</h2>", "<h3>", t3, "</h3>",
              "<h4>", t4, "</h4>", "<h5>", t5, "</h5>", "<h6>", t6, "</h6>");
  }
}
