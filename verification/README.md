# Docx document facade — a Dafny model

This project models the pure logic of `Docx::Document`, the facade of the
`docx` Ruby gem over a Word package (a zip archive of XML parts). The facade
does three things, and the model covers each:

- **Text extraction** (`to_s`, aliased `text`): the paragraphs' strings
  joined by a single `"\n"` (module `Lines`, lifted to documents in `Docx`).
- **HTML rendering** (`to_html`, `inline_content_for`, `wrap`): a page shell
  `<!DOCTYPE html><html><head><title>…</title></head><body>…</body></html>`
  written flush, one element per paragraph. A paragraph whose first run
  carries a heading level becomes `h1`..`h6` holding only that run's text.
  Every other paragraph becomes a `p` holding each run's inline markup, with
  `em` innermost, `strong` around it and the underline `span` outermost
  (modules `Markup` and `Html`).
- **Selective resave** (`update`, and the entry-copy loop of `save`):
  `word/document.xml` is staged with the freshly serialised tree. Then every
  source entry is written out in order: the staged bytes if a replacement
  exists, the original bytes otherwise (modules `Package` and `Docx`).

Data model: a `Run` holds text, the bold, italic and underline flags, and an
optional heading level in 1..6. A `Paragraph` is a `seq<Run>`. An archive is
a `seq<Entry>` of names and bytes. The pending replacements are a
`map<string, Bytes>`. A `Document` holds the paragraphs, the archive and the
replacements.

Inputs the model takes as parameters:

- The XML serialisation of the main part (`doc.serialize`) is the `serialized`
  bytes passed to `Save`.
- The paragraphs are given as a value; the parser that extracts them is not
  part of this model.
- A doctype token other than the default is given by the declaration text the
  HTML writer emits for it (`Html.Doctype.Declared`).

Two behaviours of the code are worth stating outright:

- Text is inserted into the HTML **unescaped**: run text and heading text
  (lib/docx/document.rb:83, 106, 119) and the title (line 78). The
  repository's own expectation `<p><em>Italic</em></p>`
  (spec/docx/html_spec.rb:30) shows that the markup built by `wrap` reaches
  the output intact. Lemma `Html.UnescapedTextIsAmbiguous` shows the
  consequence: a plain run whose text is `<em>x</em>` renders exactly like an
  italic run `x`.
- `update` stages `word/document.xml` even when the archive has no such entry
  (lib/docx/document.rb:102). That key is never written, because the output
  holds only the source entries (`Package.StreamKeepsNames`).

## Model

| member | source | states |
|---|---|---|
| Markup.Wrap | lib/docx/document.rb:114-120 | Without attributes the element is `<tag>text</tag>`. Its length is the text's plus the tag name twice, plus the attribute text, plus 5. |
| Markup.UnwrapOfWrap | lib/docx/document.rb:114-120 | The element's content is exactly the text given: unwrapping it with the same tag and attributes returns that text. |
| Markup.WrapOfUnwrap | lib/docx/document.rb:114-120 | Conversely, any string that unwraps as a tag element is the wrap of its content, so wrap and unwrap are inverse. |
| Markup.AttrTextAppend | lib/docx/document.rb:116-118 | Attributes are emitted in the order given: the attribute text of a concatenation is the concatenation of the texts. |
| Markup.UnwrapOtherTag | lib/docx/document.rb:114-120 | An element is never read as an element of a tag whose name differs from its own at some shared position. |
| Markup.UnwrapNeedsOpenBracket | lib/docx/document.rb:115 | Every element begins with `<`, so a string that does not begin with `<` is no element. |
| Html.InlineContent | lib/docx/document.rb:105-112 | A run with no flags yields its raw text. Each flag adds exactly one wrapper: 9 characters for italic, 17 for bold, 49 for underline. |
| Html.ParseInlineOfInlineContent | lib/docx/document.rb:105-112 | The inline markup loses nothing: peeling span, then strong, then em recovers the text and all three flags, when the text does not itself begin with `<`. |
| Html.AllFlagsNesting | lib/docx/document.rb:105-112 | With all three flags the markup is exactly `<span style="text-decoration: underline;"><strong><em>T</em></strong></span>`. |
| Html.BoldItalicNesting | lib/docx/document.rb:107-108 | Bold and italic together give `<strong><em>T</em></strong>`, never the other nesting. |
| Html.UnescapedTextIsAmbiguous | lib/docx/document.rb:106 | The raw text is not escaped, so a plain run with text `<em>x</em>` renders the same as an italic run `x`. |
| Html.InlineJoin | lib/docx/document.rb:85 | A `p` element's content is the runs' inline markup in run order; for runs without formatting it is exactly the paragraph's text. |
| Html.InlineJoinAppend | lib/docx/document.rb:85 | A `p` element's content is the in-order concatenation of the runs' markup, so consecutive runs concatenate. |
| Html.HeadingTag | lib/docx/document.rb:83 | The heading element is named `h` followed by the digit of its level 1..6. |
| Html.ParagraphHtml | lib/docx/document.rb:81-87 | Each paragraph becomes one element, starting with `<` and ending with `>`. A heading's element is its first run's text plus 9 characters; a `p` element is its inline markup plus 7. |
| Html.ParagraphElement | lib/docx/document.rb:82-86 | A paragraph with a first run that is a heading is exactly an `hL` element around that run's text. Any other paragraph, including an empty one, is exactly a `p` element around its runs' inline markup. |
| Html.HeadingUsesFirstRunOnly | lib/docx/document.rb:82-83 | A heading paragraph's element depends only on its first run's text and level. Later runs and the first run's flags are discarded. |
| Html.HeadingElement | lib/docx/document.rb:82-83 | A heading paragraph renders as `<hL>text</hL>` with the first run's raw text. |
| Html.EmptyParagraph | lib/docx/document.rb:85 | A paragraph with no runs renders as `<p></p>`. |
| Html.BodyHtml | lib/docx/document.rb:80-88 | The body holds at least one element per paragraph: at least 7 characters for each. |
| Html.BodyHtmlAppend | lib/docx/document.rb:80-88 | The body holds one element per paragraph in paragraph order: the body of consecutive paragraph lists concatenates. |
| Html.BodyOfEmptyParagraphs | lib/docx/document.rb:80-88 | N paragraphs without runs give N empty `p` elements. |
| Html.Page | lib/docx/document.rb:74-90 | The page begins with the doctype declaration. Apart from the doctype, the title and the body's elements it adds exactly 54 characters of tags. |
| Docx.ToHtml | lib/docx/document.rb:74-90 | `to_html` is the doctype, `<html><head><title>`, the title (default ""), `</title></head><body>`, the paragraphs' elements, and `</body></html>`, written flush. |
| Html.PageLayout | lib/docx/document.rb:74-90 | The page is the doctype, then `<html><head><title>`, the title, `</title></head><body>`, the paragraphs' elements, and `</body></html>`, with no whitespace. The title defaults to "" and the doctype to HTML5. |
| Html.PageDefaults | lib/docx/document.rb:76-78 | Without options the page starts `<!DOCTYPE html><html><head><title></title></head><body>`. |
| Html.BasicConversion | spec/docx/html_spec.rb:5-19 | Two plain paragraphs "hello" and "world" with title "basic" give exactly the page the repository's basic conversion test expects. |
| Html.MixedParagraph | spec/docx/html_spec.rb:34-38 | Plain text, a fully formatted run and plain text form one `p` with the formatted run nested span > strong > em in the middle. |
| Html.HeadingLevels | spec/docx/html_spec.rb:39-44 | Six one-run heading paragraphs at levels 1 to 6 give `<h1>`..`<h6>` in order, each holding its literal text. |
| Lines.Join | lib/docx/document.rb:52 | The join adds nothing but the N-1 separators: its length is the parts' total length plus N-1, and 0 for no parts. |
| Lines.JoinOfSplit | lib/docx/document.rb:52 | Joining the newline-free pieces of any string gives the string back. |
| Lines.SplitOfJoin | lib/docx/document.rb:52 | Splitting a join of separator-free parts at the separator gives back exactly the parts, so the join adds only separators. |
| Lines.JoinSeparatorCount | lib/docx/document.rb:52 | N separator-free parts are joined with exactly N-1 separators (none for no parts). |
| Lines.JoinEnds | lib/docx/document.rb:52 | The join begins with the first part and ends with the last part, with no separator after it. |
| Runs.ParagraphText | lib/docx/document.rb:52 | A paragraph's string holds exactly the characters of its runs' texts. |
| Docx.ParagraphStrings | lib/docx/document.rb:52 | `paragraphs.map(&:to_s)`: one string per paragraph, in order, each the paragraph's text. |
| Docx.Text | lib/docx/document.rb:51-53 | `to_s` is as long as the paragraphs' strings together plus one newline between each pair of neighbours. |
| Docx.TextNewlines | lib/docx/document.rb:51-53 | A document of N paragraphs without line breaks has exactly N-1 `"\n"` in its text. |
| Docx.TextSplitsIntoParagraphs | lib/docx/document.rb:51-53 | The text splits at `"\n"` into exactly the paragraphs' strings, in order. |
| Docx.TextEndsWithLastParagraph | lib/docx/document.rb:92 | `text` ends with the last paragraph's string, with no trailing newline. |
| Docx.EmptyParagraphsDocument | lib/docx/document.rb:51-89 | For N paragraphs without runs, the text is N-1 newlines and nothing else, and the body is N `<p></p>`. |
| Package.Stage | lib/docx/document.rb:101-103 | `word/document.xml` is staged with the serialised bytes. Every other name stays staged or unstaged exactly as before, with the same bytes. |
| Package.StageIdempotent | lib/docx/document.rb:101-103 | Staging the same bytes twice is staging them once. |
| Docx.Update | lib/docx/document.rb:101-103 | `update` changes only the pending replacements: the main part is staged with the serialised bytes unconditionally, and no other key changes, neither its presence nor its bytes. |
| Package.Written | lib/docx/document.rb:62-68 | One written entry keeps its source name. Its bytes are the staged replacement when `@replace` has the name, and it is the source entry unchanged otherwise. |
| Package.Stream | lib/docx/document.rb:61-69 | The copy loop emits one entry per source entry, in order, under the same name. Its bytes are the staged replacement if there is one and the source bytes verbatim otherwise. |
| Package.StreamKeepsNames | lib/docx/document.rb:61-62 | The new package has the same entry names in the same order as the source. |
| Package.StreamLookup | lib/docx/document.rb:64-68 | Reading the new package by name gives the staged bytes for a replaced name and the source bytes for every other name. A name the source lacks stays absent. |
| Docx.Save | lib/docx/document.rb:58-72 | `save` stages the main part, then writes the source's names in order. Entries named `word/document.xml` carry the serialised bytes, and every entry neither staged before nor the main part is byte-identical to the source. |
| Docx.SaveFreshTouchesOnlyMainPart | lib/docx/document.rb:58-70 | Saving a freshly opened document leaves every entry other than the main part byte-identical to the source, read by name. The main part reads as the serialised bytes. |
| Docx.SaveAgainSamePackage | lib/docx/document.rb:58-70 | A second save without edits writes the same package as the first. |

## Left out

- Zip I/O is not modelled: opening the package, `Zip::ZipOutputStream.open`, `put_next_entry`, `zip.close` and `File.expand_path` are library and filesystem effects. The archive is an in-memory entry list, and the failure cases of opening or writing files are absent with them.
- Package.Stream: the source copies an entry by reading it by name (`zip.read(entry.name)`). The archive library keeps one entry per name, so the model writes the entry's own bytes.
- The XML serialisation of the main part (`doc.serialize :save_with => 0`) is a foreign library call. Its result is the opaque `serialized` parameter of `Docx.Save`.
- Runs.ParagraphText: `Paragraph#to_s` belongs to the paragraph class, which is not part of this model. The model takes a paragraph's string to be the in-order concatenation of its runs' texts.
- The parser is not part of this model: how paragraphs and runs are read from the XML, and the heading-style string behind `heading[-1]`. Runs are given as input with a heading level in 1..6.
- HTML writer internals are not modelled beyond the flush `<tag>content</tag>` shape. That covers the table from doctype tokens other than 5 to their declarations, and any escaping the writer might do: the model inserts all text raw.
- Html.ParseInlineOfInlineContent: holds only for run text that does not begin with `<`, because the source does not escape text (see `Html.UnescapedTextIsAmbiguous`).
- `delegate` forwarding of `paragraphs`, `bookmarks`, `tables`, `doc`, `xml` and `zip` is not modelled; it is Ruby plumbing. The block form of `open`, which closes the archive automatically, is left out as resource handling.
- `each_paragraph` is not modelled as an iterator. Rendering and text visit the paragraphs in sequence order, which is what it yields.
- Unrecognised `to_html` options are ignored; `Html.HtmlOptions` has fields only for `doctype` and `title`.
