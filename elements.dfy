/** The builder-style Element of src/element.py: an object holding a tag name,
    a tuple of content items and a dict of attributes. Calling it appends
    content and merges attributes in place; str() writes the element without
    any escaping and leaves the closing tag out when there is no content. */
module Elements {
  import opened Strings
  import opened OrderedDict
  import Render

  // ---------------------------------------------------------------------------
  // Data model

  /** An attribute value: str, int or bool. */
  datatype Attribute = AStr(s: string) | AInt(i: int) | ABool(b: bool)

  /** A content item: an attribute-like scalar or a nested element. */
  datatype Content = CStr(s: string) | CInt(i: int) | CBool(b: bool) | CElement(e: ElementValue)

  /** The state of an Element object at one moment; document marks the Html
      subclass, whose __str__ adds the doctype. */
  datatype ElementValue = ElementValue(name: string, content: seq<Content>, attribute: Dict<Attribute>, document: bool)

  // ---------------------------------------------------------------------------
  // __str__ and format_attribute

  /** key.rstrip("_").replace("_", "-") */
  function FormatKey(key: string): (k: string)
    ensures '_' !in k
    ensures |k| <= |key|
  {
    ReplaceChar(RStrip(key, '_'), '_', "-")
  }

  /** Trailing underscores go, every other underscore becomes a hyphen, and
      nothing else changes. */
  lemma FormatKeySpec(key: string)
    ensures var k := FormatKey(key);
      && (forall i :: 0 <= i < |k| ==> k[i] == if key[i] == '_' then '-' else key[i])
      && (forall i :: |k| <= i < |key| ==> key[i] == '_')
      && (k == [] || key[|k| - 1] != '_')
  {
    var stripped := RStrip(key, '_');
    assert forall i :: 0 <= i < |stripped| ==> stripped[i] == key[i];
  }

  /** The same normalisation as _normalize_attr of src/main.py, except for the
      two aliases of `class` and the error for an empty or non-ASCII name. */
  lemma FormatKeyMatchesNormalizeAttr(key: string)
    requires !Render.IsClassAlias(key)
    ensures Render.NormalizeAttr(key).Ok? ==> Render.NormalizeAttr(key) == Ok(FormatKey(key))
    ensures Render.NormalizeAttr(key).Err? <==> FormatKey(key) == [] || !IsAscii(FormatKey(key))
  {
  }

  /** format_attribute: True gives the bare key, False gives nothing, and any
      other value is written as key="value" without escaping. */
  function FormatAttribute(key: string, value: Attribute): (r: string)
    ensures r == "" <==> value == ABool(false)
    ensures r != "" ==> r[0] == ' '
  {
    match value
    case ABool(b) => if b then " " + FormatKey(key) else ""
    case AStr(s) => " " + FormatKey(key) + "=\"" + s + "\""
    case AInt(i) => " " + FormatKey(key) + "=\"" + IntToDecimal(i) + "\""
  }

  lemma FormatAttributeCases(key: string, value: Attribute)
    ensures value == ABool(true) ==> FormatAttribute(key, value) == " " + FormatKey(key)
    ensures value == ABool(false) <==> FormatAttribute(key, value) == ""
    ensures !value.ABool? ==> exists text ::
      && FormatAttribute(key, value) == " " + FormatKey(key) + "=\"" + text + "\""
      && (value.AStr? ==> text == value.s)
      && (value.AInt? ==> text == IntToDecimal(value.i))
  {
    match value
    case AStr(s) =>
      assert FormatAttribute(key, value) == " " + FormatKey(key) + "=\"" + s + "\"";
    case AInt(i) =>
      assert FormatAttribute(key, value) == " " + FormatKey(key) + "=\"" + IntToDecimal(i) + "\"";
    case ABool(b) =>
      if b {
        assert |FormatAttribute(key, value)| > 0;
      }
  }

  /** "".join(format_attribute(key, value) for key, value in self.attribute.items()) */
  function FormatAttributes(attrs: Dict<Attribute>): (r: string)
    ensures r == "" || r[0] == ' '
  {
    if attrs == [] then "" else FormatAttribute(attrs[0].0, attrs[0].1) + FormatAttributes(attrs[1..])
  }

  lemma {:induction false} FormatAttributesAppend(a: Dict<Attribute>, b: Dict<Attribute>)
    ensures FormatAttributes(a + b) == FormatAttributes(a) + FormatAttributes(b)
  {
    if a == [] {
      assert a + b == b;
    } else {
      assert (a + b)[0] == a[0] && (a + b)[1..] == a[1..] + b;
      FormatAttributesAppend(a[1..], b);
    }
  }

  /** str(item) for one content item: text unescaped, integers in decimal,
      booleans as True/False, nested elements through their own __str__. */
  function ContentText(c: Content): string
    decreases c
  {
    match c
    case CStr(s) => s
    case CInt(i) => IntToDecimal(i)
    case CBool(b) => BoolText(b)
    case CElement(e) => Str(e)
  }

  /** "".join(str(item) for item in self.content) */
  function ContentsText(cs: seq<Content>): string
    decreases cs
  {
    if cs == [] then "" else ContentText(cs[0]) + ContentsText(cs[1..])
  }

  lemma {:induction false} ContentsTextAppend(a: seq<Content>, b: seq<Content>)
    ensures ContentsText(a + b) == ContentsText(a) + ContentsText(b)
  {
    if a == [] {
      assert a + b == b;
    } else {
      assert (a + b)[0] == a[0] && (a + b)[1..] == a[1..] + b;
      ContentsTextAppend(a[1..], b);
    }
  }

  /** The opening tag: `<name`, the attributes, `>`. */
  function OpeningTag(e: ElementValue): (r: string)
    ensures StartsWith(r, "<" + e.name) && r[|r| - 1] == '>'
  {
    "<" + e.name + FormatAttributes(e.attribute) + ">"
  }

  /** The closing tag, written only when there is content. */
  function ClosingTag(e: ElementValue): (r: string)
    ensures r == "" <==> e.content == []
  {
    if e.content != [] then "</" + e.name + ">" else ""
  }

  /** Element.__str__ */
  function ElementStr(e: ElementValue): (r: string)
    ensures StartsWith(r, OpeningTag(e))
    decreases e, 0
  {
    OpeningTag(e) + ContentsText(e.content) + ClosingTag(e)
  }

  /** str(e): Html.__str__ writes the doctype before Element.__str__. */
  function Str(e: ElementValue): (r: string)
    ensures e.document ==> StartsWith(r, "<!DOCTYPE html>")
    ensures !e.document ==> r == ElementStr(e)
    decreases e, 1
  {
    if e.document then "<!DOCTYPE html>" + ElementStr(e) else ElementStr(e)
  }

  /** An element without content has no closing tag: it is its opening tag
      alone. */
  lemma EmptyUnclosed(e: ElementValue)
    requires e.content == []
    ensures ElementStr(e) == OpeningTag(e)
    ensures e.attribute == [] ==> ElementStr(e) == "<" + e.name + ">"
  {
    assert OpeningTag(e) + "" + "" == OpeningTag(e);
  }

  /** An element with content ends with its closing tag, after the text of
      every item in order. */
  lemma NonEmptyClosed(e: ElementValue)
    requires e.content != []
    ensures ElementStr(e) == OpeningTag(e) + ContentsText(e.content) + "</" + e.name + ">"
    ensures EndsWith(ElementStr(e), "</" + e.name + ">")
  {
    var close := "</" + e.name + ">";
    var s := ElementStr(e);
    assert s[|s| - |close|..] == close;
  }

  // ---------------------------------------------------------------------------
  // The mutable object

  class Element {
    const name: string
    var content: seq<Content>
    var attribute: Dict<Attribute>
    const document: bool

    /** Keyword arguments never repeat a name, so the dict has distinct keys. */
    ghost predicate Valid()
      reads this
    {
      DistinctKeys(attribute)
    }

    /** Element(name, *content, **attribute) */
    constructor (name: string, content: seq<Content>, attribute: Dict<Attribute>)
      requires DistinctKeys(attribute)
      ensures Valid()
      ensures this.name == name && this.content == content && this.attribute == attribute && !document
    {
      this.name := name;
      this.content := content;
      this.attribute := attribute;
      this.document := false;
    }

    /** The Html subclass: an element named html whose children are its head
        and its body. */
    constructor Document(head: ElementValue, body: ElementValue, attribute: Dict<Attribute>)
      requires DistinctKeys(attribute)
      ensures Valid()
      ensures name == "html" && content == [CElement(head), CElement(body)] && this.attribute == attribute && document
    {
      this.name := "html";
      this.content := [CElement(head), CElement(body)];
      this.attribute := attribute;
      this.document := true;
    }

    /** The object's state as a value. */
    function Value(): ElementValue
      reads this
    {
      ElementValue(name, content, attribute, document)
    }

    /** str(self) */
    function ToString(): string
      reads this
    {
      Str(Value())
    }

    /** __call__: the new items go after the existing content, the new
        attributes are merged into the dict by dict.update, and the same
        object is returned. */
    method Call(content: seq<Content>, attribute: Dict<Attribute>) returns (r: Element)
      requires Valid() && DistinctKeys(attribute)
      modifies this
      ensures r == this && Valid()
      ensures this.content == old(this.content) + content
      ensures this.attribute == Update(old(this.attribute), attribute)
    {
      if content != [] {
        this.content := this.content + content;
      } else {
        assert this.content + content == this.content;
      }
      if attribute != [] {
        this.attribute := Update(this.attribute, attribute);
      }
      return this;
    }
  }

  // ---------------------------------------------------------------------------
  // What a call does to the rendering

  /** The value a call leaves behind. */
  function Called(e: ElementValue, content: seq<Content>, attribute: Dict<Attribute>): ElementValue {
    e.(content := e.content + content, attribute := Update(e.attribute, attribute))
  }

  /** Called with new content, an element renders its old items and then the
      new ones, in order. */
  lemma CallAppendsContent(e: ElementValue, content: seq<Content>)
    ensures ContentsText(Called(e, content, []).content) == ContentsText(e.content) + ContentsText(content)
    ensures Called(e, content, []).attribute == e.attribute
  {
    ContentsTextAppend(e.content, content);
  }

  /** Called with attribute names it does not have yet, an element renders
      its old attributes and then the new ones, in order. */
  lemma CallAppendsAttributes(e: ElementValue, attribute: Dict<Attribute>)
    requires DistinctKeys(e.attribute + attribute)
    ensures OpeningTag(Called(e, [], attribute)) ==
      "<" + e.name + FormatAttributes(e.attribute) + FormatAttributes(attribute) + ">"
  {
    UpdateFresh(e.attribute, attribute);
    FormatAttributesAppend(e.attribute, attribute);
  }

  /** Names that are already present keep their place: merging only names
      the dict already has leaves the order of the keys unchanged. */
  lemma {:induction false} UpdateKeepsOrder(d: Dict<Attribute>, e: Dict<Attribute>)
    requires forall i :: 0 <= i < |e| ==> e[i].0 in Keys(d)
    ensures Keys(Update(d, e)) == Keys(d)
    decreases |e|
  {
    if e != [] {
      var d' := Put(d, e[0].0, e[0].1);
      forall i | 0 <= i < |e[1..]| ensures e[1..][i].0 in Keys(d') {
        assert e[1..][i] == e[i + 1];
      }
      UpdateKeepsOrder(d', e[1..]);
    }
  }

  /** Last write wins: after the call, every name passed holds the value
      passed, and every other name keeps its value. */
  lemma CallLastWriteWins(e: ElementValue, attribute: Dict<Attribute>, k: string)
    requires DistinctKeys(e.attribute) && DistinctKeys(attribute)
    ensures Get(Called(e, [], attribute).attribute, k) ==
      if k in Keys(attribute) then Get(attribute, k) else Get(e.attribute, k)
  {
    UpdateGet(e.attribute, attribute, k);
  }

  // ---------------------------------------------------------------------------
  // The scenarios of tests/test_element.py, for any names and texts

  /** A key with no underscore is written as it is. */
  lemma FormatKeyPlain(key: string)
    requires '_' !in key
    ensures FormatKey(key) == key
  {
    assert key == [] || key[|key| - 1] != '_';
    assert RStrip(key, '_') == key;
  }

  /** Trailing underscores are dropped: `type_` is written as `type`. */
  lemma KeyTrailing(base: string)
    requires '_' !in base
    ensures FormatKey(base + "_") == base
  {
    var k := base + "_";
    assert k[..|base|] == base;
    assert RStrip(k, '_') == RStrip(base, '_');
    FormatKeyPlain(base);
  }

  /** An inner underscore becomes a hyphen: `data_value` is written as
      `data-value`, and the rest of the key is formatted the same way, so
      `custom_data_value` is written as `custom-data-value`. */
  lemma KeyJoined(a: string, b: string)
    requires '_' !in a && b != [] && b[|b| - 1] != '_'
    ensures FormatKey(a + "_" + b) == a + "-" + FormatKey(b)
    ensures '_' !in b ==> FormatKey(a + "_" + b) == a + "-" + b
  {
    var k := a + "_" + b;
    assert k[|k| - 1] == b[|b| - 1];
    assert RStrip(k, '_') == k;
    assert RStrip(b, '_') == b;
    ReplaceCharAppend(a + "_", b, '_', "-");
    ReplaceCharAppend(a, "_", '_', "-");
    assert ReplaceChar("_", '_', "-") == "-";
    assert ReplaceChar(a, '_', "-") == a;
    if '_' !in b {
      FormatKeyPlain(b);
    }
  }

  /** Two inner underscores, as in `custom_data_value`, both become hyphens. */
  lemma KeyTwoJoins(a: string, b: string, c: string)
    requires '_' !in a && '_' !in b && '_' !in c && c != []
    ensures FormatKey(a + "_" + (b + "_" + c)) == a + "-" + (b + "-" + c)
  {
    var bc := b + "_" + c;
    assert bc[|bc| - 1] == c[|c| - 1];
    KeyJoined(b, c);
    KeyJoined(a, bc);
  }

  /** One attribute alone, rendered. */
  lemma FormatSingle(key: string, value: Attribute)
    ensures FormatAttributes([(key, value)]) == FormatAttribute(key, value)
  {
    assert [(key, value)][1..] == [];
    assert FormatAttribute(key, value) + "" == FormatAttribute(key, value);
  }

  /** One string attribute whose key has no underscore. */
  lemma OnePlainAttribute(key: string, value: string)
    requires '_' !in key
    ensures FormatAttributes([(key, AStr(value))]) == " " + key + "=\"" + value + "\""
  {
    FormatKeyPlain(key);
    FormatSingle(key, AStr(value));
  }

  lemma TwoAttributes(a: (string, Attribute), b: (string, Attribute))
    ensures FormatAttributes([a, b]) == FormatAttributes([a]) + FormatAttributes([b])
  {
    FormatAttributesAppend([a], [b]);
    assert [a] + [b] == [a, b];
  }

  /** One content item alone, rendered. */
  lemma ContentsSingle(c: Content)
    ensures ContentsText([c]) == ContentText(c)
  {
    assert [c][1..] == [];
    assert ContentText(c) + "" == ContentText(c);
  }

  lemma TwoItems(a: Content, b: Content)
    ensures ContentsText([a, b]) == ContentText(a) + ContentText(b)
  {
    ContentsTextAppend([a], [b]);
    assert [a] + [b] == [a, b];
    ContentsSingle(a);
    ContentsSingle(b);
  }

  /** An element holding one text item. */
  lemma StrOneText(e: ElementValue, text: string)
    requires e.content == [CStr(text)] && !e.document
    ensures Str(e) == "<" + e.name + FormatAttributes(e.attribute) + ">" + text + "</" + e.name + ">"
  {
    ContentsSingle(CStr(text));
    NonEmptyClosed(e);
  }

  /** Element(name)(key=value)(text), as in Element("div")(style="test")("test"):
      the attribute set by the first call, the text by the second. */
  method AttributesThenContent(name: string, key: string, value: string, text: string) returns (s: string)
    requires '_' !in key
    ensures s == "<" + name + (" " + key + "=\"" + value + "\"") + ">" + text + "</" + name + ">"
  {
    var e := new Element(name, [], []);
    e := e.Call([], [(key, AStr(value))]);
    e := e.Call([CStr(text)], []);
    s := e.ToString();
    UpdateFresh([], [(key, AStr(value))]);
    assert [] + [(key, AStr(value))] == [(key, AStr(value))];
    assert e.content == [CStr(text)];
    StrOneText(e.Value(), text);
    OnePlainAttribute(key, value);
  }

  /** Element(name), as in Element("br"): no content, so no closing tag. */
  method EmptyElement(name: string) returns (s: string)
    ensures s == "<" + name + ">"
  {
    var e := new Element(name, [], []);
    s := e.ToString();
    EmptyUnclosed(e.Value());
  }

  /** Element(outer)(Element(inner)(t1), Element(inner)(t2)), as in a div
      holding two paragraphs: each child is written whole, in order, inside the
      parent. */
  method NestedElements(outer: string, inner: string, t1: string, t2: string) returns (s: string)
    ensures s == "<" + outer + ">" + (("<" + inner + ">" + t1 + "</" + inner + ">")
      + ("<" + inner + ">" + t2 + "</" + inner + ">")) + "</" + outer + ">"
  {
    var p1 := new Element(inner, [], []);
    p1 := p1.Call([CStr(t1)], []);
    var p2 := new Element(inner, [], []);
    p2 := p2.Call([CStr(t2)], []);
    var d := new Element(outer, [], []);
    d := d.Call([CElement(p1.Value()), CElement(p2.Value())], []);
    s := d.ToString();
    assert [] + [CStr(t1)] == [CStr(t1)];
    assert [] + [CStr(t2)] == [CStr(t2)];
    NestedValue(d.Value(), outer, inner, t1, t2);
  }

  lemma NestedValue(d: ElementValue, outer: string, inner: string, t1: string, t2: string)
    requires d == ElementValue(outer, [CElement(ElementValue(inner, [CStr(t1)], [], false)),
                                       CElement(ElementValue(inner, [CStr(t2)], [], false))], [], false)
    ensures Str(d) == "<" + outer + ">" + (("<" + inner + ">" + t1 + "</" + inner + ">")
      + ("<" + inner + ">" + t2 + "</" + inner + ">")) + "</" + outer + ">"
  {
    var p1, p2 := d.content[0].e, d.content[1].e;
    assert "<" + inner + "" == "<" + inner && "<" + outer + "" == "<" + outer;
    StrOneText(p1, t1);
    StrOneText(p2, t2);
    assert Str(p1) == "<" + inner + ">" + t1 + "</" + inner + ">";
    assert Str(p2) == "<" + inner + ">" + t2 + "</" + inner + ">";
    TwoItems(d.content[0], d.content[1]);
    NonEmptyClosed(d);
    assert OpeningTag(d) == "<" + outer + ">";
  }

  /** Element(name)(base_=v1, key=v2), as in
      Element("input")(type_="text", placeholder="Enter text"): the trailing
      underscore is dropped, and without content there is no closing tag. */
  method TrailingUnderscoreNoContent(name: string, base: string, v1: string, key: string, v2: string)
    returns (s: string)
    requires '_' !in base && '_' !in key
    ensures s == "<" + name + ((" " + base + "=\"" + v1 + "\"") + (" " + key + "=\"" + v2 + "\"")) + ">"
  {
    var e := new Element(name, [], []);
    e := e.Call([], [(base + "_", AStr(v1)), (key, AStr(v2))]);
    s := e.ToString();
    TwoNewAttributes(base, v1, key, v2);
    EmptyUnclosed(e.Value());
  }

  lemma TwoNewAttributes(base: string, v1: string, key: string, v2: string)
    requires '_' !in base && '_' !in key
    ensures var attrs := [(base + "_", AStr(v1)), (key, AStr(v2))];
      && Update([], attrs) == attrs
      && FormatAttributes(attrs) == (" " + base + "=\"" + v1 + "\"") + (" " + key + "=\"" + v2 + "\"")
  {
    var k1 := base + "_";
    var attrs := [(k1, AStr(v1)), (key, AStr(v2))];
    assert k1[|k1| - 1] == '_';
    assert k1 != key;
    UpdateFresh([], attrs);
    assert [] + attrs == attrs;
    TwoAttributes(attrs[0], attrs[1]);
    KeyTrailing(base);
    FormatSingle(k1, AStr(v1));
    OnePlainAttribute(key, v2);
  }

  /** The attributes of Element("button")(type_="button", disabled=True,
      custom_data_value="123"), for any names and values: the trailing
      underscore dropped, True written as the bare name, inner underscores
      turned into hyphens, in the order given. */
  lemma MixedAttributes(base: string, v1: string, flag: string, a: string, b: string, v3: string)
    requires '_' !in base && '_' !in flag && '_' !in a && b != [] && b[|b| - 1] != '_'
    ensures FormatAttributes([(base + "_", AStr(v1)), (flag, ABool(true)), (a + "_" + b, AStr(v3))]) ==
      (" " + base + "=\"" + v1 + "\"") + ((" " + flag) + (" " + (a + "-" + FormatKey(b)) + "=\"" + v3 + "\""))
  {
    var x, y, z := (base + "_", AStr(v1)), (flag, ABool(true)), (a + "_" + b, AStr(v3));
    FormatAttributesAppend([x], [y, z]);
    assert [x] + [y, z] == [x, y, z];
    TwoAttributes(y, z);
    FormatSingle(x.0, x.1);
    FormatSingle(y.0, y.1);
    FormatSingle(z.0, z.1);
    KeyTrailing(base);
    FormatKeyPlain(flag);
    KeyJoined(a, b);
  }
}
