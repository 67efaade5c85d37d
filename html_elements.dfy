/** The named elements of src/html_elements.py: Head, Body, Div, P, A and H1
    are Elements with a fixed tag name; Html builds a document from a head and
    a body, with defaults for either, and writes the doctype before itself. */
module HtmlElements {
  import opened Strings
  import opened OrderedDict
  import opened Elements
  import Render

  // ---------------------------------------------------------------------------
  // Fixed-name elements

  /** Head(*content, **attribute) */
  method NewHead(content: seq<Content>, attribute: Dict<Attribute>) returns (e: Element)
    requires DistinctKeys(attribute)
    ensures fresh(e) && e.Valid()
    ensures e.Value() == ElementValue("head", content, attribute, false)
  {
    e := new Element("head", content, attribute);
  }

  /** Body(*content, **attribute) */
  method NewBody(content: seq<Content>, attribute: Dict<Attribute>) returns (e: Element)
    requires DistinctKeys(attribute)
    ensures fresh(e) && e.Valid()
    ensures e.Value() == ElementValue("body", content, attribute, false)
  {
    e := new Element("body", content, attribute);
  }

  /** Div(*content, **attribute) */
  method NewDiv(content: seq<Content>, attribute: Dict<Attribute>) returns (e: Element)
    requires DistinctKeys(attribute)
    ensures fresh(e) && e.Valid()
    ensures e.Value() == ElementValue("div", content, attribute, false)
  {
    e := new Element("div", content, attribute);
  }

  /** P(*content, **attribute) */
  method NewP(content: seq<Content>, attribute: Dict<Attribute>) returns (e: Element)
    requires DistinctKeys(attribute)
    ensures fresh(e) && e.Valid()
    ensures e.Value() == ElementValue("p", content, attribute, false)
  {
    e := new Element("p", content, attribute);
  }

  /** A(*content, **attribute) */
  method NewA(content: seq<Content>, attribute: Dict<Attribute>) returns (e: Element)
    requires DistinctKeys(attribute)
    ensures fresh(e) && e.Valid()
    ensures e.Value() == ElementValue("a", content, attribute, false)
  {
    e := new Element("a", content, attribute);
  }

  /** H1(*content, **attribute) */
  method NewH1(content: seq<Content>, attribute: Dict<Attribute>) returns (e: Element)
    requires DistinctKeys(attribute)
    ensures fresh(e) && e.Valid()
    ensures e.Value() == ElementValue("h1", content, attribute, false)
  {
    e := new Element("h1", content, attribute);
  }

  // ---------------------------------------------------------------------------
  // Html

  /** The head an Html gets: the one given, or an empty Head(). */
  function HeadOrDefault(head: Option<ElementValue>): (r: ElementValue)
    ensures head.Some? ==> r == head.value
    ensures head.None? ==> r.name == "head" && r.content == [] && r.attribute == [] && !r.document
  {
    if head.Some? then head.value else ElementValue("head", [], [], false)
  }

  /** The body an Html gets: the one given, or Body(*content). */
  function BodyOrDefault(body: Option<ElementValue>, content: seq<Content>): (r: ElementValue)
    ensures body.Some? ==> r == body.value
    ensures body.None? ==> r.name == "body" && r.content == content && r.attribute == [] && !r.document
  {
    if body.Some? then body.value else ElementValue("body", content, [], false)
  }

  /** The state of Html(head, body, *content, **attribute) right after
      construction. */
  function HtmlValue(head: Option<ElementValue>, body: Option<ElementValue>, content: seq<Content>,
                     attribute: Dict<Attribute>): (r: ElementValue)
    ensures r.name == "html" && r.document && r.attribute == attribute
    ensures |r.content| == 2 && r.content[0].CElement? && r.content[1].CElement?
  {
    ElementValue("html", [CElement(HeadOrDefault(head)), CElement(BodyOrDefault(body, content))], attribute, true)
  }

  /** Html(head, body, *content, **attribute): a missing head or body is
      made fresh, and the html element holds the two of them. */
  method NewHtml(head: Element?, body: Element?, content: seq<Content>, attribute: Dict<Attribute>)
    returns (e: Element)
    requires DistinctKeys(attribute)
    ensures fresh(e) && e.Valid()
    ensures e.Value() == HtmlValue(if head == null then None else Some(head.Value()),
                                   if body == null then None else Some(body.Value()), content, attribute)
  {
    var h := head;
    if h == null {
      h := NewHead([], []);
    }
    var b := body;
    if b == null {
      b := NewBody(content, []);
    }
    e := new Element.Document(h.Value(), b.Value(), attribute);
  }

  /** An Html element has exactly two children, its head and then its body,
      and the attributes it was given. The extra content goes into the
      default body, and is dropped when a body is given. */
  lemma HtmlChildren(head: Option<ElementValue>, body: Option<ElementValue>, content: seq<Content>,
                     attribute: Dict<Attribute>, other: seq<Content>)
    ensures var r := HtmlValue(head, body, content, attribute);
      && r.name == "html" && r.attribute == attribute && |r.content| == 2
      && r.content[0].CElement? && r.content[0].e.name == (if head.Some? then head.value.name else "head")
      && r.content[1].CElement? && r.content[1].e.name == (if body.Some? then body.value.name else "body")
      && (head.None? ==> r.content[0].e.content == [] && r.content[0].e.attribute == [])
      && (body.None? ==> r.content[1].e.content == content && r.content[1].e.attribute == [])
    ensures HtmlValue(head, body, content, attribute).content ==
      [CElement(HeadOrDefault(head)), CElement(BodyOrDefault(body, content))]
    ensures head.Some? ==> HtmlValue(head, body, content, attribute).content[0] == CElement(head.value)
    ensures body.Some? ==> HtmlValue(head, body, content, attribute).content[1] == CElement(body.value)
    ensures body.Some? ==> HtmlValue(head, body, other, attribute) == HtmlValue(head, body, content, attribute)
  {
  }

  /** str(Html(...)) is the doctype, then the ordinary rendering of the html
      element: its open tag, the head, the body and the closing tag. */
  lemma HtmlRendering(head: Option<ElementValue>, body: Option<ElementValue>, content: seq<Content>,
                      attribute: Dict<Attribute>)
    ensures var r := HtmlValue(head, body, content, attribute);
      Str(r) == "<!DOCTYPE html>" + (OpeningTag(r) + (Str(HeadOrDefault(head)) + Str(BodyOrDefault(body, content))) + "</" + "html" + ">")
  {
    var r := HtmlValue(head, body, content, attribute);
    NonEmptyClosed(r);
    TwoItems(CElement(HeadOrDefault(head)), CElement(BodyOrDefault(body, content)));
  }

  /** The output of str(Html(...)) begins with the doctype and the html open
      tag. */
  lemma HtmlStartsWithDoctype(head: Option<ElementValue>, body: Option<ElementValue>, content: seq<Content>,
                              attribute: Dict<Attribute>)
    ensures StartsWith(Str(HtmlValue(head, body, content, attribute)), "<!DOCTYPE html><html")
  {
    var r := HtmlValue(head, body, content, attribute);
    var start := "<!DOCTYPE html>" + ("<" + r.name);
    var rest := FormatAttributes(attribute) + ">" + ContentsText(r.content) + "</" + r.name + ">";
    DocumentSplit(r, rest);
    PrefixOfConcat(start, rest);
    Render.DoctypeHtmlText();
  }

  /** Proof step: the rendered document split after `<html`. */
  lemma DocumentSplit(r: ElementValue, rest: string)
    requires r.document && r.content != []
    requires rest == FormatAttributes(r.attribute) + ">" + ContentsText(r.content) + "</" + r.name + ">"
    ensures Str(r) == "<!DOCTYPE html>" + ("<" + r.name) + rest
  {
  }

  /** Proof step: a string starts every concatenation it begins. */
  lemma PrefixOfConcat(a: string, b: string)
    ensures StartsWith(a + b, a)
  {
    assert (a + b)[..|a|] == a;
  }

  /** Html() with nothing given: an empty head and an empty body, neither of
      which gets a closing tag. */
  lemma DefaultHtml()
    ensures Str(HtmlValue(None, None, [], [])) == "<!DOCTYPE html>" + "<html>" + "<head>" + "<body>" + "</html>"
  {
    var r := HtmlValue(None, None, [], []);
    var h, b := HeadOrDefault(None), BodyOrDefault(None, []);
    HtmlRendering(None, None, [], []);
    EmptyUnclosed(h);
    EmptyUnclosed(b);
    TagTexts();
    var d, o, hs, bs, c := "<!DOCTYPE html>", OpeningTag(r), Str(h), Str(b), "</" + "html" + ">";
    assert Str(r) == d + ((o + (hs + bs)) + c);
    RegroupDocument(d, o, hs, bs, c);
  }

  /** Proof step: the literal tags of the default document. */
  lemma TagTexts()
    ensures "<" + "html" + "" + ">" == "<html>"
    ensures "<" + "head" + ">" == "<head>"
    ensures "<" + "body" + ">" == "<body>"
    ensures "</" + "html" + ">" == "</html>"
  {
  }

  /** Proof step: rebracketing the five pieces of the default document. */
  lemma RegroupDocument(d: string, o: string, h: string, b: string, c: string)
    ensures d + ((o + (h + b)) + c) == d + o + h + b + c
  {
    AppendAssociative(o, h, b);
    AppendAssociative(d, o + h + b, c);
    AppendAssociative(d, o + h, b);
    AppendAssociative(d, o, h);
  }
}
