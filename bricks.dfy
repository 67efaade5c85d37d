/** The curried string builder of src/bricks.py: element(name) gives a
    function of contents and keyword attributes; with contents it returns the
    finished HTML string at once, without any it returns a function still
    waiting for them. Nothing is escaped and the tag is always closed. */
module Bricks {
  import opened Strings
  import opened OrderedDict
  import Elements

  // ---------------------------------------------------------------------------
  // Data model

  /** An attribute value: str, int, bool or None. */
  datatype Value = VStr(s: string) | VInt(i: int) | VBool(b: bool) | VNone

  /** What named_element returns: the rendered string, or render_element
      still waiting for the contents. */
  datatype Curried = Done(html: string) | Awaiting(render: seq<string> -> string)

  // ---------------------------------------------------------------------------
  // render_element

  /** f"{value}": the value as str() writes it. */
  function ValueText(v: Value): string {
    match v
    case VStr(s) => s
    case VInt(i) => IntToDecimal(i)
    case VBool(b) => BoolText(b)
    case VNone => "None"
  }

  /** key.replace("_", "-"), with no stripping. */
  function Key(key: string): (r: string)
    ensures |r| == |key| && '_' !in r
  {
    ReplaceChar(key, '_', "-")
  }

  /** f'{key}="{value}"' */
  function Pair(key: string, value: Value): (r: string)
    ensures StartsWith(r, Key(key) + "=\"") && r[|r| - 1] == '"'
  {
    Key(key) + "=\"" + ValueText(value) + "\""
  }

  /** The list comprehension over attributes.items(). */
  function Pairs(attrs: Dict<Value>): (r: seq<string>)
    ensures |r| == |attrs|
  {
    seq(|attrs|, i requires 0 <= i < |attrs| => Pair(attrs[i].0, attrs[i].1))
  }

  /** tag_open */
  function TagOpen(name: string, attrs: Dict<Value>): (r: string)
    ensures StartsWith(r, "<" + name) && r[|r| - 1] == '>'
  {
    if attrs != [] then "<" + name + " " + Join(" ", Pairs(attrs)) + ">"
    else "<" + name + ">"
  }

  /** render_element(contents) */
  function RenderElement(name: string, attrs: Dict<Value>, contents: seq<string>): (r: string)
    ensures StartsWith(r, TagOpen(name, attrs)) && EndsWith(r, "</" + name + ">")
  {
    TagOpen(name, attrs) + Concat(contents) + "</" + name + ">"
  }

  /** named_element(*contents, **attributes) */
  function NamedElement(name: string, contents: seq<string>, attrs: Dict<Value>): (r: Curried)
    ensures r.Done? <==> contents != []
  {
    if contents != [] then Done(RenderElement(name, attrs, contents))
    else Awaiting(cs => RenderElement(name, attrs, cs))
  }

  /** element(name) */
  function Element(name: string): (seq<string>, Dict<Value>) -> Curried {
    (contents, attrs) => NamedElement(name, contents, attrs)
  }

  // ---------------------------------------------------------------------------
  // Properties

  /** With contents, element(name)(...) is the finished string; without, it
      is a function that renders whatever contents it is given later, with the
      attributes of the first call. */
  lemma CurriedElement(name: string, contents: seq<string>, attrs: Dict<Value>)
    ensures Element(name)(contents, attrs).Done? <==> contents != []
    ensures Element(name)(contents, attrs).Done? ==>
      Element(name)(contents, attrs).html == RenderElement(name, attrs, contents)
    ensures Element(name)(contents, attrs).Awaiting? ==>
      forall cs :: Element(name)(contents, attrs).render(cs) == RenderElement(name, attrs, cs)
  {
  }

  /** The output is the open tag, then the contents with no separator, then
      the closing tag: it is always closed, even with no contents. */
  lemma AlwaysClosed(name: string, attrs: Dict<Value>, contents: seq<string>)
    ensures var r, open, close := RenderElement(name, attrs, contents), TagOpen(name, attrs), "</" + name + ">";
      && |r| == |open| + |Concat(contents)| + |close|
      && r[..|open|] == open
      && r[|open|..|r| - |close|] == Concat(contents)
      && r[|r| - |close|..] == close
      && EndsWith(r, close)
  {
    var open, body, close := TagOpen(name, attrs), Concat(contents), "</" + name + ">";
    assert RenderElement(name, attrs, contents) == open + body + close;
    ThreeParts(open, body, close);
  }

  /** Each pair preceded by one space: the reference form of the attribute
      list in the open tag. */
  function Spaced(attrs: Dict<Value>): string {
    if attrs == [] then "" else " " + Pair(attrs[0].0, attrs[0].1) + Spaced(attrs[1..])
  }

  lemma {:induction false} JoinedIsSpaced(attrs: Dict<Value>)
    requires attrs != []
    ensures " " + Join(" ", Pairs(attrs)) == Spaced(attrs)
    decreases |attrs|
  {
    var p := Pairs(attrs);
    if |attrs| == 1 {
      assert attrs[1..] == [];
      assert Spaced(attrs) == " " + p[0] + "";
    } else {
      var j := Join(" ", p[1..]);
      assert p[1..] == Pairs(attrs[1..]);
      JoinedIsSpaced(attrs[1..]);
      assert Spaced(attrs) == (" " + p[0]) + (" " + j);
      assert Join(" ", p) == (p[0] + " ") + j;
      RegroupSpaced(" ", p[0], " ", j);
    }
  }

  /** Proof step: rebracketing one more space-separated pair. */
  lemma RegroupSpaced(a: string, b: string, c: string, d: string)
    ensures a + ((b + c) + d) == (a + b) + (c + d)
  {
  }

  /** Without attributes the open tag is exactly <name>; with attributes it is
      <name, then every key="value" pair in insertion order, each after one
      space, then >. */
  lemma TagOpenCases(name: string, attrs: Dict<Value>)
    ensures attrs == [] ==> TagOpen(name, attrs) == "<" + name + ">"
    ensures attrs != [] ==> TagOpen(name, attrs) == "<" + name + Spaced(attrs) + ">"
  {
    if attrs != [] {
      JoinedIsSpaced(attrs);
      AppendAssociative("<" + name, " ", Join(" ", Pairs(attrs)));
    }
  }

  /** Keys only have each underscore replaced by a hyphen: nothing is
      stripped, so `type_` becomes `type-`. */
  lemma KeySpec(key: string)
    ensures |Key(key)| == |key|
    ensures forall i :: 0 <= i < |key| ==> Key(key)[i] == if key[i] == '_' then '-' else key[i]
    ensures '_' !in Key(key)
  {
  }

  /** Unlike Element.__str__, a trailing underscore is kept (as a hyphen). */
  lemma TrailingUnderscoreKept(key: string)
    requires key != [] && key[|key| - 1] == '_'
    ensures Key(key)[|key| - 1] == '-'
    ensures Key(key) != Elements.FormatKey(key)
  {
    KeySpec(key);
    var stripped := RStrip(key, '_');
    assert stripped != key;
    assert |ReplaceChar(stripped, '_', "-")| == |stripped| < |key|;
  }

  /** Values are written with str() and never escaped. */
  lemma PairVerbatim(key: string, value: Value)
    ensures value.VStr? ==> Pair(key, value) == Key(key) + "=\"" + value.s + "\""
    ensures value == VNone ==> Pair(key, value) == Key(key) + "=\"None\""
    ensures value.VBool? ==> Pair(key, value) == Key(key) + "=\"" + BoolText(value.b) + "\""
    ensures value.VInt? ==> Pair(key, value) == Key(key) + "=\"" + IntToDecimal(value.i) + "\""
  {
    if value == VNone {
      AppendAssociative(Key(key), "=\"", "None");
      AppendAssociative(Key(key), "=\"None", "\"");
    }
  }

  // ---------------------------------------------------------------------------
  // Agreement with Element.__str__

  /** Element's attribute values as bricks values. */
  function FromAttributes(ea: Dict<Elements.Attribute>): (r: Dict<Value>)
    ensures |r| == |ea|
  {
    seq(|ea|, i requires 0 <= i < |ea| => (ea[i].0, FromValue(ea[i].1)))
  }

  function FromValue(a: Elements.Attribute): Value {
    match a
    case AStr(s) => VStr(s)
    case AInt(n) => VInt(n)
    case ABool(b) => VBool(b)
  }

  /** Text contents as Element content items. */
  function FromTexts(cs: seq<string>): (r: seq<Elements.Content>)
    ensures |r| == |cs|
  {
    seq(|cs|, i requires 0 <= i < |cs| => Elements.CStr(cs[i]))
  }

  /** The attributes on which both renderers agree: no bool value, no key
      ending in an underscore. */
  predicate Comparable(ea: Dict<Elements.Attribute>) {
    forall i :: 0 <= i < |ea| ==> !ea[i].1.ABool? && (ea[i].0 == [] || ea[i].0[|ea[i].0| - 1] != '_')
  }

  lemma {:induction false} ContentsOfTexts(cs: seq<string>)
    ensures Elements.ContentsText(FromTexts(cs)) == Concat(cs)
  {
    if cs != [] {
      assert FromTexts(cs)[1..] == FromTexts(cs[1..]);
      ContentsOfTexts(cs[1..]);
    }
  }

  lemma {:induction false} SpacedIsFormatted(ea: Dict<Elements.Attribute>)
    requires Comparable(ea)
    ensures Spaced(FromAttributes(ea)) == Elements.FormatAttributes(ea)
  {
    if ea != [] {
      assert FromAttributes(ea)[0] == (ea[0].0, FromValue(ea[0].1));
      assert FromAttributes(ea)[1..] == FromAttributes(ea[1..]);
      assert Comparable(ea[1..]) by {
        forall i | 0 <= i < |ea[1..]| ensures ea[1..][i] == ea[i + 1] { }
      }
      SpacedIsFormatted(ea[1..]);
      PairIsFormatted(ea[0].0, ea[0].1);
    }
  }

  lemma PairIsFormatted(key: string, a: Elements.Attribute)
    requires !a.ABool? && (key == [] || key[|key| - 1] != '_')
    ensures " " + Pair(key, FromValue(a)) == Elements.FormatAttribute(key, a)
  {
    assert RStrip(key, '_') == key;
    var k, t := Key(key), ValueText(FromValue(a));
    assert k == Elements.FormatKey(key);
    assert " " + ((k + "=\"") + t + "\"") == " " + k + "=\"" + t + "\"";
  }

  /** With text contents, bricks renders an Element the same way as
      Element.__str__ does, as long as no attribute is a bool and no key ends in
      an underscore. */
  lemma AgreesWithElement(name: string, ea: Dict<Elements.Attribute>, cs: seq<string>)
    requires Comparable(ea) && cs != []
    ensures RenderElement(name, FromAttributes(ea), cs) ==
      Elements.Str(Elements.ElementValue(name, FromTexts(cs), ea, false))
  {
    var e := Elements.ElementValue(name, FromTexts(cs), ea, false);
    SameOpenTag(name, ea);
    ContentsOfTexts(cs);
    Elements.NonEmptyClosed(e);
  }

  /** Without contents, bricks still writes the closing tag that
      Element.__str__ leaves out. */
  lemma EmptyDisagrees(name: string, ea: Dict<Elements.Attribute>)
    requires Comparable(ea)
    ensures RenderElement(name, FromAttributes(ea), []) ==
      Elements.Str(Elements.ElementValue(name, [], ea, false)) + "</" + name + ">"
  {
    var e := Elements.ElementValue(name, [], ea, false);
    SameOpenTag(name, ea);
    Elements.EmptyUnclosed(e);
    assert RenderElement(name, FromAttributes(ea), []) == TagOpen(name, FromAttributes(ea)) + "" + "</" + name + ">";
  }

  lemma SameOpenTag(name: string, ea: Dict<Elements.Attribute>)
    requires Comparable(ea)
    ensures TagOpen(name, FromAttributes(ea)) == Elements.OpeningTag(Elements.ElementValue(name, [], ea, false))
  {
    TagOpenCases(name, FromAttributes(ea));
    SpacedIsFormatted(ea);
  }
}
