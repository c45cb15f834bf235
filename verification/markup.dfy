/** The markup primitive of the document facade: `wrap(text, tag, attrs)`
    (lib/docx/document.rb:114-120), which is also the flush `<tag>content</tag>`
    shape the HTML writer gives every element, and its inverse `Unwrap`. */
module Markup {
  import opened Optional

  /** One attribute as handed to `wrap`: a key and a value. */
  type Attr = (string, string)

  /** ` k="v"` for each attribute, in the order given. */
  function AttrText(attrs: seq<Attr>): string
  {
    if attrs == [] then ""
    else " " + attrs[0].0 + "=\"" + attrs[0].1 + "\"" + AttrText(attrs[1..])
  }

  function OpenTag(tag: string, attrs: seq<Attr>): string
  {
    "<" + tag + AttrText(attrs) + ">"
  }

  function CloseTag(tag: string): string
  {
    "</" + tag + ">"
  }

  /** `text` enclosed in a `tag` element carrying `attrs`; the text is inserted
      as is, without escaping. */
  function Wrap(text: string, tag: string, attrs: seq<Attr>): (r: string)
    ensures attrs == [] ==> r == "<" + tag + ">" + text + "</" + tag + ">"
    ensures |r| == |text| + 2 * |tag| + |AttrText(attrs)| + 5
  {
    OpenTag(tag, attrs) + text + CloseTag(tag)
  }

  /** The content of `s` when `s` is a `tag` element with exactly `attrs`, and
      None when it does not open and close that way. */
  function Unwrap(s: string, tag: string, attrs: seq<Attr>): (r: Option<string>)
  {
    var o := OpenTag(tag, attrs);
    var c := CloseTag(tag);
    if |o| + |c| <= |s| && s[..|o|] == o && s[|s| - |c|..] == c
    then Some(s[|o|..|s| - |c|])
    else None
  }

  /** The element as its three pieces: opening tag, content, closing tag. */
  lemma WrapPieces(text: string, tag: string, attrs: seq<Attr>)
    ensures Wrap(text, tag, attrs) == OpenTag(tag, attrs) + text + CloseTag(tag)
  {
  }

  /** Unwrapping a wrapped text gives the text back. */
  lemma UnwrapOfWrap(text: string, tag: string, attrs: seq<Attr>)
    ensures Unwrap(Wrap(text, tag, attrs), tag, attrs) == Some(text)
  {
    var o := OpenTag(tag, attrs);
    var c := CloseTag(tag);
    var r := o + text + c;
    assert r[..|o|] == o;
    assert r[|r| - |c|..] == c;
    assert r[|o|..|r| - |c|] == text;
  }

  /** Wrapping the unwrapped content gives back the element: `Unwrap` succeeds
      only on what `Wrap` produces. */
  lemma WrapOfUnwrap(s: string, tag: string, attrs: seq<Attr>)
    requires Unwrap(s, tag, attrs).Some?
    ensures Wrap(Unwrap(s, tag, attrs).value, tag, attrs) == s
  {
    var o := OpenTag(tag, attrs);
    var c := CloseTag(tag);
    assert s == s[..|o|] + s[|o|..|s| - |c|] + s[|s| - |c|..];
  }

  /** Attributes are emitted in order: the text of a concatenation of
      attribute lists is the concatenation of their texts. */
  lemma {:induction false} AttrTextAppend(a: seq<Attr>, b: seq<Attr>)
    ensures AttrText(a + b) == AttrText(a) + AttrText(b)
  {
    if a == [] {
      assert a + b == b;
    } else {
      assert (a + b)[1..] == a[1..] + b;
      AttrTextAppend(a[1..], b);
    }
  }

  /** An element whose tag differs from `other` at some position inside both
      names is never taken for an `other` element. */
  lemma UnwrapOtherTag(text: string, tag: string, attrs: seq<Attr>,
                       other: string, otherAttrs: seq<Attr>, i: nat)
    requires i < |tag| && i < |other| && tag[i] != other[i]
    ensures Unwrap(Wrap(text, tag, attrs), other, otherAttrs) == None
  {
    var s := Wrap(text, tag, attrs);
    assert s[1 + i] == tag[i];
  }

  /** A string that does not begin with `<` is no element at all. */
  lemma UnwrapNeedsOpenBracket(s: string, tag: string, attrs: seq<Attr>)
    requires s == [] || s[0] != '<'
    ensures Unwrap(s, tag, attrs) == None
  {
  }
}
