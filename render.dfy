/** The rendering engine of src/main.py: a node tree of tags, text, integers,
    raw HTML, fragments and nested sequences, serialised depth-first and left
    to right by appending pieces to one shared string builder.

    RenderNode is the specification of what the builder receives; Tokens and
    Emit give an independent, flat reading of the same output; the methods at
    the end append to a Builder object step by step, as the source does, and
    are proved to append exactly what RenderNode describes. */
module Render {
  import opened Strings
  import opened OrderedDict

  // ---------------------------------------------------------------------------
  // Data model

  /** An item of a sequence-valued attribute: str, int or None. */
  datatype Scalar = SStr(s: string) | SInt(i: int) | SNone

  /** The attribute values the renderer distinguishes. */
  datatype AttributeValue =
    | AStr(s: string)
    | AInt(i: int)
    | ABool(b: bool)
    | AItems(items: seq<Scalar>)
    | ANone
    | ABytes(data: seq<bv8>)

  datatype Error =
    | InvalidTagName(name: string)          // ValueError from Tag.__init__
    | InvalidAttributeName(attr: string)    // ValueError from _normalize_attr
    | UnsupportedAttributeType(data: seq<bv8>)  // TypeError for a bytes value

  /** A tag with its normalised attributes; doctype marks the HTML subclass. */
  datatype Tag = Tag(name: string, attrs: Dict<AttributeValue>, doctype: bool)

  /** Everything render accepts: None, str, int, a called tag (_Tag), raw,
      frag, and any other iterable of renderables. */
  datatype Node =
    | Empty
    | Text(s: string)
    | Number(i: int)
    | Element(tag: Tag, children: seq<Node>)
    | Raw(html: string)
    | Fragment(children: seq<Node>)
    | Group(items: seq<Node>)

  type Rendered = Result<string, Error>

  /** Appending two pieces of output in order; the first error stops everything. */
  function Then(a: Rendered, b: Rendered): Rendered {
    if a.Err? then a else if b.Err? then b else Ok(a.value + b.value)
  }

  lemma ThenAssociative(a: Rendered, b: Rendered, c: Rendered)
    ensures Then(Then(a, b), c) == Then(a, Then(b, c))
  {
    if a.Ok? && b.Ok? && c.Ok? {
      assert (a.value + b.value) + c.value == a.value + (b.value + c.value);
    }
  }

  lemma ThenUnit(a: Rendered)
    ensures Then(a, Ok("")) == a && Then(Ok(""), a) == a
  {
    if a.Ok? {
      assert a.value + "" == a.value && "" + a.value == a.value;
    }
  }

  // ---------------------------------------------------------------------------
  // Tag construction and attribute-name normalisation

  /** `name and name.isascii() and name.isalnum()` */
  predicate ValidTagName(name: string) {
    name != [] && IsAscii(name) && forall i :: 0 <= i < |name| ==> IsAsciiAlnum(name[i])
  }

  predicate IsClassAlias(attr: string) {
    attr == "klass" || attr == "class_name"
  }

  /** _normalize_attr: the two aliases of `class`; otherwise trailing
      underscores dropped and the remaining ones turned into hyphens; the
      result must be non-empty and ASCII. */
  function NormalizeAttr(attr: string): (r: Result<string, Error>)
    ensures r.Ok? ==> WellFormedName(r.value)
    ensures r.Err? ==> r.error.InvalidAttributeName?
  {
    if IsClassAlias(attr) then Ok("class")
    else
      var a := ReplaceChar(RStrip(attr, '_'), '_', "-");
      if a != [] && IsAscii(a) then Ok(a) else Err(InvalidAttributeName(a))
  }

  /** The aliases give `class`; any other name fails exactly when it is not
      ASCII or consists of underscores only; a result is a non-empty ASCII
      name without underscores: the name up to its last non-underscore
      character, with each underscore turned into a hyphen. */
  lemma NormalizeAttrSpec(attr: string)
    ensures var r := NormalizeAttr(attr);
      && (IsClassAlias(attr) ==> r == Ok("class"))
      && (r.Err? <==> !IsClassAlias(attr) && (!IsAscii(attr) || forall i :: 0 <= i < |attr| ==> attr[i] == '_'))
      && (r.Ok? ==> r.value != [] && IsAscii(r.value) && '_' !in r.value)
      && (r.Ok? && !IsClassAlias(attr) ==>
        && |r.value| <= |attr|
        && attr[|r.value| - 1] != '_'
        && (forall i :: 0 <= i < |r.value| ==> r.value[i] == if attr[i] == '_' then '-' else attr[i])
        && (forall i :: |r.value| <= i < |attr| ==> attr[i] == '_'))
  {
    if !IsClassAlias(attr) {
      var stripped := RStrip(attr, '_');
      var a := ReplaceChar(stripped, '_', "-");
      assert IsAscii(a) <==> IsAscii(attr) by {
        assert forall i :: 0 <= i < |a| ==> (IsAsciiChar(a[i]) <==> IsAsciiChar(attr[i]));
      }
      assert a == [] <==> forall i :: 0 <= i < |attr| ==> attr[i] == '_';
    }
  }

  /** A normalised name normalises to itself, with one exception: `klass_`
      normalises to `klass`, which is itself an alias of `class`. */
  lemma NormalizeAttrIdempotent(attr: string)
    requires NormalizeAttr(attr).Ok?
    ensures var k := NormalizeAttr(attr).value;
      NormalizeAttr(k) == if k == "klass" then Ok("class") else Ok(k)
  {
    var k := NormalizeAttr(attr).value;
    NormalizeAttrSpec(attr);
    if k != "klass" {
      assert k != "class_name" by {
        assert "class_name"[5] == '_';
      }
      assert RStrip(k, '_') == k;
      assert ReplaceChar(k, '_', "-") == k;
    }
  }

  /** The dict comprehension of Tag.__init__: each keyword normalised in
      order and assigned into the dict; the first invalid name raises. */
  function NormalizeAttrs(acc: Dict<AttributeValue>, kvs: seq<(string, AttributeValue)>): (r: Result<Dict<AttributeValue>, Error>)
    ensures r.Ok? && DistinctKeys(acc) ==> DistinctKeys(r.value)
    ensures r.Ok? ==> Keys(acc) <= Keys(r.value)
    decreases |kvs|
  {
    if kvs == [] then Ok(acc)
    else
      match NormalizeAttr(kvs[0].0)
      case Err(e) => Err(e)
      case Ok(k) => NormalizeAttrs(Put(acc, k, kvs[0].1), kvs[1..])
  }

  /** The comprehension succeeds exactly when every keyword is a valid
      name, and otherwise raises the error of the first invalid one. */
  lemma {:induction false} NormalizeAttrsErrors(acc: Dict<AttributeValue>, kvs: seq<(string, AttributeValue)>)
    ensures NormalizeAttrs(acc, kvs).Ok? <==> forall i :: 0 <= i < |kvs| ==> NormalizeAttr(kvs[i].0).Ok?
    ensures NormalizeAttrs(acc, kvs).Err? ==> exists i ::
      && 0 <= i < |kvs|
      && NormalizeAttr(kvs[i].0) == Err(NormalizeAttrs(acc, kvs).error)
      && forall j :: 0 <= j < i ==> NormalizeAttr(kvs[j].0).Ok?
    decreases |kvs|
  {
    if kvs != [] && NormalizeAttr(kvs[0].0).Ok? {
      var k := NormalizeAttr(kvs[0].0).value;
      var rest := kvs[1..];
      NormalizeAttrsErrors(Put(acc, k, kvs[0].1), rest);
      forall i | 0 <= i < |rest| ensures rest[i] == kvs[i + 1] { }
      if NormalizeAttrs(acc, kvs).Err? {
        var i :| 0 <= i < |rest| && NormalizeAttr(rest[i].0) == Err(NormalizeAttrs(acc, kvs).error)
          && forall j :: 0 <= j < i ==> NormalizeAttr(rest[j].0).Ok?;
        assert forall j :: 0 <= j < i + 1 ==> NormalizeAttr(kvs[j].0).Ok? by {
          forall j | 0 <= j < i + 1 ensures NormalizeAttr(kvs[j].0).Ok? {
            if j > 0 {
              assert kvs[j] == rest[j - 1];
            }
          }
        }
      }
    }
  }

  predicate ValidNames(kvs: seq<(string, AttributeValue)>) {
    forall i :: 0 <= i < |kvs| ==> NormalizeAttr(kvs[i].0).Ok?
  }

  /** The keywords with their names normalised, in the same order. */
  function Renamed(kvs: seq<(string, AttributeValue)>): (r: Dict<AttributeValue>)
    requires ValidNames(kvs)
    ensures |r| == |kvs|
    ensures forall i :: 0 <= i < |kvs| ==> r[i] == (NormalizeAttr(kvs[i].0).value, kvs[i].1)
  {
    seq(|kvs|, i requires 0 <= i < |kvs| => (NormalizeAttr(kvs[i].0).value, kvs[i].1))
  }

  /** The comprehension is dict.update with the renamed keywords: names are
      assigned in keyword order, a repeated name keeps its first position and
      takes its last value. */
  lemma {:induction false} NormalizeAttrsIsUpdate(acc: Dict<AttributeValue>, kvs: seq<(string, AttributeValue)>)
    requires ValidNames(kvs)
    ensures NormalizeAttrs(acc, kvs) == Ok(Update(acc, Renamed(kvs)))
    decreases |kvs|
  {
    if kvs != [] {
      var k0 := NormalizeAttr(kvs[0].0).value;
      assert ValidNames(kvs[1..]) by {
        forall i | 0 <= i < |kvs[1..]| ensures NormalizeAttr(kvs[1..][i].0).Ok? {
          assert kvs[1..][i] == kvs[i + 1];
        }
      }
      NormalizeAttrsIsUpdate(Put(acc, k0, kvs[0].1), kvs[1..]);
      assert Renamed(kvs)[1..] == Renamed(kvs[1..]);
    } else {
      assert Renamed(kvs) == [];
    }
  }

  /** Last write wins: when several keywords normalise to the same name
      (say `klass` and `class_name`), the value of the last one is kept. */
  lemma NormalizeAttrsLastWins(kvs: seq<(string, AttributeValue)>, i: nat)
    requires ValidNames(kvs) && i < |kvs|
    requires forall j :: i < j < |kvs| ==> NormalizeAttr(kvs[j].0) != NormalizeAttr(kvs[i].0)
    ensures NormalizeAttrs([], kvs).Ok?
    ensures Get(NormalizeAttrs([], kvs).value, NormalizeAttr(kvs[i].0).value) == Some(kvs[i].1)
  {
    NormalizeAttrsIsUpdate([], kvs);
    UpdateLastWins([], Renamed(kvs), i);
  }

  /** Tag.__init__: the name is checked first, then every attribute name. */
  function NewTag(name: string, attrs: seq<(string, AttributeValue)>): (r: Result<Tag, Error>)
    ensures !ValidTagName(name) ==> r == Err(InvalidTagName(name))
    ensures r.Ok? <==> ValidTagName(name) && forall i :: 0 <= i < |attrs| ==> NormalizeAttr(attrs[i].0).Ok?
    ensures r.Ok? ==> r.value.name == name && !r.value.doctype && DistinctKeys(r.value.attrs)
    ensures r.Ok? ==> forall k :: k in Keys(r.value.attrs) ==> k != [] && IsAscii(k) && '_' !in k
    ensures r.Ok? ==> r.value.attrs == Update([], Renamed(attrs))
    ensures ValidTagName(name) && r.Err? ==> NormalizeAttrs([], attrs).Err? && r.error == NormalizeAttrs([], attrs).error
  {
    if !ValidTagName(name) then Err(InvalidTagName(name))
    else
      NormalizeAttrsErrors([], attrs);
      match NormalizeAttrs([], attrs)
      case Err(e) => Err(e)
      case Ok(d) =>
        NormalizedKeys([], attrs);
        NormalizeAttrsIsUpdate([], attrs);
        Ok(Tag(name, d, false))
  }

  predicate WellFormedName(k: string) {
    k != [] && IsAscii(k) && '_' !in k
  }

  /** Every key the comprehension stores is a non-empty ASCII name without underscores. */
  lemma {:induction false} NormalizedKeys(acc: Dict<AttributeValue>, kvs: seq<(string, AttributeValue)>)
    requires forall k :: k in Keys(acc) ==> WellFormedName(k)
    requires NormalizeAttrs(acc, kvs).Ok?
    ensures forall k :: k in Keys(NormalizeAttrs(acc, kvs).value) ==> WellFormedName(k)
    decreases |kvs|
  {
    if kvs != [] {
      var k0 := NormalizeAttr(kvs[0].0).value;
      NormalizeAttrSpec(kvs[0].0);
      NormalizedKeys(Put(acc, k0, kvs[0].1), kvs[1..]);
    }
  }

  /** HTML.__init__: the tag `html`, whose rendering is preceded by the doctype. */
  function NewHtml(attrs: seq<(string, AttributeValue)>): (r: Result<Tag, Error>)
    ensures r.Ok? <==> forall i :: 0 <= i < |attrs| ==> NormalizeAttr(attrs[i].0).Ok?
    ensures r.Ok? ==> r.value.name == "html" && r.value.doctype && DistinctKeys(r.value.attrs)
    ensures r.Ok? ==> forall k :: k in Keys(r.value.attrs) ==> WellFormedName(k)
    ensures r.Ok? ==> r.value.attrs == Update([], Renamed(attrs))
    ensures r.Err? ==> NormalizeAttrs([], attrs).Err? && r.error == NormalizeAttrs([], attrs).error
  {
    assert ValidTagName("html");
    match NewTag("html", attrs)
    case Err(e) => Err(e)
    case Ok(t) => Ok(t.(doctype := true))
  }

  // ---------------------------------------------------------------------------
  // Attribute values

  /** str(item) for an item of a sequence value. */
  function ScalarText(x: Scalar): string {
    match x
    case SStr(s) => s
    case SInt(i) => IntToDecimal(i)
    case SNone => "None"
  }

  /** The match in Tag.render_into: None when the attribute is left out,
      otherwise the text of the value (empty for True). */
  function AttributeText(v: AttributeValue): (r: Result<Option<string>, Error>)
    ensures r.Err? <==> v.ABytes?
    ensures r == Ok(None) <==> v == ABool(false) || v == ANone || v == AItems([])
  {
    match v
    case ABool(b) => if b then Ok(Some("")) else Ok(None)
    case ANone => Ok(None)
    case AItems(xs) =>
      if xs == [] then Ok(None)
      else Ok(Some(Join(" ", seq(|xs|, i requires 0 <= i < |xs| => ScalarText(xs[i])))))
    case AStr(s) => Ok(Some(s))
    case ABytes(data) => Err(UnsupportedAttributeType(data))
    case AInt(i) => Ok(Some(IntToDecimal(i)))
  }

  /** What one attribute contributes to the open tag. */
  function RenderAttribute(name: string, v: AttributeValue): (r: Rendered)
    ensures r.Err? <==> v.ABytes?
    ensures r.Ok? && r.value != "" ==> r.value[0] == ' '
  {
    match AttributeText(v)
    case Err(e) => Err(e)
    case Ok(None) => Ok("")
    case Ok(Some(s)) =>
      if s == "" then Ok(" " + name)
      else Ok(" " + name + "=\"" + EscapeAttributeValue(s) + "\"")
  }

  /** Only bytes fail; False, None and an empty sequence leave the attribute
      out; True and the empty string give the bare name; an integer is written
      in decimal, unchanged by escaping; anything written starts with a space
      and the name. */
  lemma RenderAttributeCases(name: string, v: AttributeValue)
    ensures RenderAttribute(name, v).Err? <==> v.ABytes?
    ensures v == ABool(false) || v == ANone || v == AItems([]) ==> RenderAttribute(name, v) == Ok("")
    ensures v == ABool(true) || v == AStr("") ==> RenderAttribute(name, v) == Ok(" " + name)
    ensures v.AInt? ==> RenderAttribute(name, v) == Ok(" " + name + "=\"" + IntToDecimal(v.i) + "\"")
    ensures RenderAttribute(name, v).Ok? && RenderAttribute(name, v).value != "" ==>
      StartsWith(RenderAttribute(name, v).value, " " + name)
  {
    var r := RenderAttribute(name, v);
    if v.AInt? {
      EscapeDecimal(v.i);
    }
    if r.Ok? && r.value != "" {
      assert r.value[..|name| + 1] == " " + name;
    }
  }

  /** A rendered value sits between two double quotes with no double quote,
      `<` or `>` in between, and decodes back to the value's text: no value
      can close the attribute early or open a tag. */
  lemma AttributeQuoted(name: string, v: AttributeValue, s: string)
    requires AttributeText(v) == Ok(Some(s)) && s != ""
    ensures var q := EscapeAttributeValue(s);
      && RenderAttribute(name, v) == Ok(" " + name + "=\"" + q + "\"")
      && '"' !in q && '<' !in q && '>' !in q
      && Unescape(q) == s
  {
    EscapeAttributeValueRoundTrip(s);
  }

  /** A sequence value renders as its items' texts joined by single spaces. */
  lemma ItemsJoined(name: string, xs: seq<Scalar>)
    requires xs != []
    ensures var joined := Join(" ", seq(|xs|, i requires 0 <= i < |xs| => ScalarText(xs[i])));
      RenderAttribute(name, AItems(xs)) ==
        if joined == "" then Ok(" " + name)
        else Ok(" " + name + "=\"" + EscapeAttributeValue(joined) + "\"")
  {
  }

  /** The attributes of one tag, in insertion order. */
  function RenderAttributes(attrs: Dict<AttributeValue>): (r: Rendered)
    ensures r.Err? <==> exists i :: 0 <= i < |attrs| && attrs[i].1.ABytes?
    ensures r.Err? ==> r.error.UnsupportedAttributeType?
    ensures r.Ok? && r.value != "" ==> r.value[0] == ' '
  {
    if attrs == [] then Ok("")
    else Then(RenderAttribute(attrs[0].0, attrs[0].1), RenderAttributes(attrs[1..]))
  }

  lemma {:induction false} RenderAttributesAppend(a: Dict<AttributeValue>, b: Dict<AttributeValue>)
    ensures RenderAttributes(a + b) == Then(RenderAttributes(a), RenderAttributes(b))
  {
    if a == [] {
      assert a + b == b;
      ThenUnit(RenderAttributes(b));
    } else {
      assert (a + b)[0] == a[0] && (a + b)[1..] == a[1..] + b;
      RenderAttributesAppend(a[1..], b);
      ThenAssociative(RenderAttribute(a[0].0, a[0].1), RenderAttributes(a[1..]), RenderAttributes(b));
    }
  }

  /** Tag.render_into (and HTML.render_into when doctype is set). */
  function OpenTag(t: Tag): (r: Rendered)
    ensures r.Err? <==> exists i :: 0 <= i < |t.attrs| && t.attrs[i].1.ABytes?
    ensures r.Ok? ==> StartsWith(r.value, (if t.doctype then "<!DOCTYPE html>" else "") + ("<" + t.name))
    ensures r.Ok? ==> r.value[|r.value| - 1] == '>'
  {
    Then(Ok((if t.doctype then "<!DOCTYPE html>" else "") + ("<" + t.name)),
         Then(RenderAttributes(t.attrs), Ok(">")))
  }

  // ---------------------------------------------------------------------------
  // The renderer, as a specification

  function RenderNode(n: Node): (r: Rendered)
    ensures r.Err? ==> r.error.UnsupportedAttributeType?
    decreases n
  {
    match n
    case Empty => Ok("")
    case Text(s) => Ok(EscapeText(s))
    case Number(i) => Ok(IntToDecimal(i))
    case Element(t, cs) => Then(OpenTag(t), Then(RenderAll(cs), Ok("</" + t.name + ">")))
    case Raw(html) => Ok(html)
    case Fragment(cs) => RenderAll(cs)
    case Group(items) => RenderAll(items)
  }

  function RenderAll(ns: seq<Node>): (r: Rendered)
    ensures r.Err? ==> r.error.UnsupportedAttributeType?
    decreases ns
  {
    if ns == [] then Ok("") else Then(RenderNode(ns[0]), RenderAll(ns[1..]))
  }

  lemma {:induction false} RenderAllAppend(a: seq<Node>, b: seq<Node>)
    ensures RenderAll(a + b) == Then(RenderAll(a), RenderAll(b))
  {
    if a == [] {
      assert a + b == b;
      ThenUnit(RenderAll(b));
    } else {
      assert (a + b)[0] == a[0] && (a + b)[1..] == a[1..] + b;
      RenderAllAppend(a[1..], b);
      ThenAssociative(RenderNode(a[0]), RenderAll(a[1..]), RenderAll(b));
    }
  }

  // ---------------------------------------------------------------------------
  // An independent reading: the depth-first token stream

  /** One piece of output, in the order the traversal produces them. */
  datatype Token =
    | OpenTok(tag: Tag)
    | CloseTok(name: string)
    | TextTok(s: string)
    | NumberTok(i: int)
    | RawTok(html: string)

  /** The tree flattened: fragments and sequences vanish, elements become an
      opening and a closing token around their children's tokens. */
  function Tokens(n: Node): seq<Token>
    decreases n
  {
    match n
    case Empty => []
    case Text(s) => [TextTok(s)]
    case Number(i) => [NumberTok(i)]
    case Element(t, cs) => [OpenTok(t)] + TokensAll(cs) + [CloseTok(t.name)]
    case Raw(html) => [RawTok(html)]
    case Fragment(cs) => TokensAll(cs)
    case Group(items) => TokensAll(items)
  }

  function TokensAll(ns: seq<Node>): seq<Token>
    decreases ns
  {
    if ns == [] then [] else Tokens(ns[0]) + TokensAll(ns[1..])
  }

  lemma {:induction false} TokensAllAppend(a: seq<Node>, b: seq<Node>)
    ensures TokensAll(a + b) == TokensAll(a) + TokensAll(b)
  {
    if a == [] {
      assert a + b == b;
    } else {
      assert (a + b)[0] == a[0] && (a + b)[1..] == a[1..] + b;
      TokensAllAppend(a[1..], b);
    }
  }

  function TokenText(t: Token): Rendered {
    match t
    case OpenTok(tag) => OpenTag(tag)
    case CloseTok(name) => Ok("</" + name + ">")
    case TextTok(s) => Ok(EscapeText(s))
    case NumberTok(i) => Ok(IntToDecimal(i))
    case RawTok(html) => Ok(html)
  }

  /** Each token's text, concatenated left to right. */
  function Emit(ts: seq<Token>): Rendered {
    if ts == [] then Ok("") else Then(TokenText(ts[0]), Emit(ts[1..]))
  }

  lemma {:induction false} EmitAppend(a: seq<Token>, b: seq<Token>)
    ensures Emit(a + b) == Then(Emit(a), Emit(b))
  {
    if a == [] {
      assert a + b == b;
      ThenUnit(Emit(b));
    } else {
      assert (a + b)[0] == a[0] && (a + b)[1..] == a[1..] + b;
      EmitAppend(a[1..], b);
      ThenAssociative(TokenText(a[0]), Emit(a[1..]), Emit(b));
    }
  }

  /** The recursive renderer writes exactly the texts of the depth-first
      token stream, in order, and stops at the first error. */
  lemma {:induction false} RenderMatchesTokens(n: Node)
    ensures RenderNode(n) == Emit(Tokens(n))
    decreases n
  {
    match n
    case Element(t, cs) =>
      RenderAllMatchesTokens(cs);
      EmitAppend([OpenTok(t)] + TokensAll(cs), [CloseTok(t.name)]);
      EmitAppend([OpenTok(t)], TokensAll(cs));
      EmitSingle(OpenTok(t));
      EmitSingle(CloseTok(t.name));
      ThenAssociative(OpenTag(t), RenderAll(cs), Ok("</" + t.name + ">"));
    case Fragment(cs) => RenderAllMatchesTokens(cs);
    case Group(items) => RenderAllMatchesTokens(items);
    case Empty =>
    case Text(s) => EmitSingle(TextTok(s));
    case Number(i) => EmitSingle(NumberTok(i));
    case Raw(html) => EmitSingle(RawTok(html));
  }

  lemma EmitSingle(t: Token)
    ensures Emit([t]) == TokenText(t)
  {
    ThenUnit(TokenText(t));
  }

  lemma {:induction false} RenderAllMatchesTokens(ns: seq<Node>)
    ensures RenderAll(ns) == Emit(TokensAll(ns))
    decreases ns
  {
    if ns != [] {
      RenderMatchesTokens(ns[0]);
      RenderAllMatchesTokens(ns[1..]);
      EmitAppend(Tokens(ns[0]), TokensAll(ns[1..]));
    }
  }

  /** A one-item sequence renders as its item. */
  lemma RenderAllSingle(n: Node)
    ensures RenderAll([n]) == RenderNode(n)
  {
    ThenUnit(RenderNode(n));
  }

  /** Nested sequences flatten: a plain sequence inside a sequence renders
      the same as its items spliced in place. */
  lemma GroupFlattening(xs: seq<Node>, ys: seq<Node>, zs: seq<Node>)
    ensures RenderNode(Group(xs + [Group(ys)] + zs)) == RenderNode(Group(xs + ys + zs))
  {
    RenderAllAppend(xs + [Group(ys)], zs);
    RenderAllAppend(xs, [Group(ys)]);
    RenderAllSingle(Group(ys));
    RenderAllAppend(xs + ys, zs);
    RenderAllAppend(xs, ys);
  }

  /** A fragment inside a fragment renders the same as its children spliced
      in place. */
  lemma FragmentFlattening(xs: seq<Node>, ys: seq<Node>, zs: seq<Node>)
    ensures RenderNode(Fragment(xs + [Fragment(ys)] + zs)) == RenderNode(Fragment(xs + ys + zs))
  {
    RenderAllAppend(xs + [Fragment(ys)], zs);
    RenderAllAppend(xs, [Fragment(ys)]);
    RenderAllSingle(Fragment(ys));
    RenderAllAppend(xs + ys, zs);
    RenderAllAppend(xs, ys);
  }

  /** `Fragment(Fragment(a, b), c)` renders as `Fragment(a, b, c)`. */
  lemma FragmentOfFragment(a: Node, b: Node, c: Node)
    ensures RenderNode(Fragment([Fragment([a, b]), c])) == RenderNode(Fragment([a, b, c]))
  {
    FragmentFlattening([], [a, b], [c]);
    assert [] + [Fragment([a, b])] + [c] == [Fragment([a, b]), c];
    assert [] + [a, b] + [c] == [a, b, c];
  }

  /** Text is escaped: it holds no `<` or `>`, and decodes back to itself. */
  lemma TextEscaped(s: string)
    ensures RenderNode(Text(s)).Ok?
    ensures '<' !in RenderNode(Text(s)).value && '>' !in RenderNode(Text(s)).value
    ensures Unescape(RenderNode(Text(s)).value) == s
  {
    EscapeTextRoundTrip(s);
  }

  /** An element is always closed: its output is the open tag, its children
      in order, and `</name>`, whatever the number of children. */
  lemma ElementClosed(t: Tag, cs: seq<Node>)
    requires RenderNode(Element(t, cs)).Ok?
    ensures OpenTag(t).Ok? && RenderAll(cs).Ok?
    ensures RenderNode(Element(t, cs)).value == OpenTag(t).value + RenderAll(cs).value + "</" + t.name + ">"
  {
    var o, a, c := OpenTag(t), RenderAll(cs), "</" + t.name + ">";
    assert RenderNode(Element(t, cs)) == Then(o, Then(a, Ok(c)));
    AppendAssociative(o.value, a.value, c);
  }

  /** The open tag of a doctype tag starts with `<!DOCTYPE html>`. */
  lemma DoctypeFirst(attrs: seq<(string, AttributeValue)>, cs: seq<Node>)
    requires NewHtml(attrs).Ok?
    requires RenderNode(Element(NewHtml(attrs).value, cs)).Ok?
    ensures StartsWith(RenderNode(Element(NewHtml(attrs).value, cs)).value, "<!DOCTYPE html><html")
  {
    DoctypeTagFirst(NewHtml(attrs).value, cs);
  }

  /** Proof step: any `html` tag with the doctype flag renders doctype first. */
  lemma DoctypeTagFirst(t: Tag, cs: seq<Node>)
    requires t.doctype && t.name == "html"
    requires RenderNode(Element(t, cs)).Ok?
    ensures StartsWith(RenderNode(Element(t, cs)).value, "<!DOCTYPE html><html")
  {
    ElementClosed(t, cs);
    var o, a := OpenTag(t).value, RenderAll(cs).value;
    DoctypeHtmlText();
    StartsWithAppend(o, a, "<!DOCTYPE html><html");
    StartsWithAppend(o + a, "</" + t.name + ">", "<!DOCTYPE html><html");
  }

  /** Proof step: the doctype followed by the start of the html tag. */
  lemma DoctypeHtmlText()
    ensures "<!DOCTYPE html>" + ("<" + "html") == "<!DOCTYPE html><html"
  {
  }

  // ---------------------------------------------------------------------------
  // The two loops read left to right, as the methods below run them

  /** The first i attributes, in the order the loop writes them. */
  function RenderAttributesUpTo(attrs: Dict<AttributeValue>, i: nat): Rendered
    requires i <= |attrs|
  {
    if i == 0 then Ok("") else Then(RenderAttributesUpTo(attrs, i - 1), RenderAttribute(attrs[i - 1].0, attrs[i - 1].1))
  }

  lemma {:induction false} RenderAttributesUpToPrefix(attrs: Dict<AttributeValue>, i: nat)
    requires i <= |attrs|
    ensures RenderAttributesUpTo(attrs, i) == RenderAttributes(attrs[..i])
  {
    if i > 0 {
      var prefix, last := attrs[..i - 1], attrs[i - 1];
      RenderAttributesUpToPrefix(attrs, i - 1);
      SliceLast(attrs, i);
      RenderAttributesAppend(prefix, [last]);
      RenderAttributesSingle(last);
    }
  }

  /** Proof step: extending a prefix slice by one element. */
  lemma SliceLast<T>(s: seq<T>, i: nat)
    requires 0 < i <= |s|
    ensures s[..i] == s[..i - 1] + [s[i - 1]]
  {
  }

  lemma RenderAttributesSingle(a: (string, AttributeValue))
    ensures RenderAttributes([a]) == RenderAttribute(a.0, a.1)
  {
    assert [a][1..] == [];
    ThenUnit(RenderAttribute(a.0, a.1));
  }

  /** Once an attribute fails, the rest of the loop is never reached. */
  lemma {:induction false} RenderAttributesUpToStop(attrs: Dict<AttributeValue>, i: nat)
    requires i <= |attrs| && RenderAttributesUpTo(attrs, i).Err?
    ensures RenderAttributesUpTo(attrs, |attrs|) == RenderAttributesUpTo(attrs, i)
    decreases |attrs| - i
  {
    if i < |attrs| {
      RenderAttributesUpToStop(attrs, i + 1);
    }
  }

  /** The first i children, in the order the loop renders them. */
  function RenderAllUpTo(ns: seq<Node>, i: nat): Rendered
    requires i <= |ns|
  {
    if i == 0 then Ok("") else Then(RenderAllUpTo(ns, i - 1), RenderNode(ns[i - 1]))
  }

  lemma {:induction false} RenderAllUpToPrefix(ns: seq<Node>, i: nat)
    requires i <= |ns|
    ensures RenderAllUpTo(ns, i) == RenderAll(ns[..i])
  {
    if i > 0 {
      RenderAllUpToPrefix(ns, i - 1);
      RenderAllAppend(ns[..i - 1], [ns[i - 1]]);
      SliceLast(ns, i);
      ThenUnit(RenderNode(ns[i - 1]));
    }
  }

  /** Once a child fails, the remaining children are never rendered. */
  lemma {:induction false} RenderAllUpToStop(ns: seq<Node>, i: nat)
    requires i <= |ns| && RenderAllUpTo(ns, i).Err?
    ensures RenderAllUpTo(ns, |ns|) == RenderAllUpTo(ns, i)
    decreases |ns| - i
  {
    if i < |ns| {
      RenderAllUpToStop(ns, i + 1);
    }
  }

  // ---------------------------------------------------------------------------
  // The renderer as the source runs it: appending to a shared builder

  /** The `builder: list[str]` passed through every render call; text is the
      ghost record of what "".join(builder) would return. */
  class Builder {
    var parts: seq<string>
    ghost var text: string

    ghost predicate Valid()
      reads this
    {
      text == Concat(parts)
    }

    constructor ()
      ensures Valid() && parts == [] && text == ""
    {
      parts := [];
      text := "";
    }

    /** builder.append(s) */
    method Append(s: string)
      requires Valid()
      modifies this
      ensures Valid()
      ensures parts == old(parts) + [s] && text == old(text) + s
    {
      ConcatAppend(parts, [s]);
      parts := parts + [s];
      text := text + s;
    }
  }

  /** render(tag, builder) */
  method Render(n: Node, b: Builder) returns (err: Option<Error>)
    requires b.Valid()
    modifies b
    ensures b.Valid() && old(b.parts) <= b.parts
    ensures RenderNode(n).Ok? ==> err.None? && b.text == old(b.text) + RenderNode(n).value
    ensures RenderNode(n).Err? ==> err == Some(RenderNode(n).error)
    decreases n
  {
    match n
    case Empty =>
      assert old(b.text) + "" == b.text;
      err := None;
    case Text(s) =>
      b.Append(EscapeText(s));
      err := None;
    case Element(t, cs) =>
      err := RenderElement(t, cs, b);
    case Number(i) =>
      b.Append(IntToDecimal(i));
      err := None;
    case Raw(html) =>
      b.Append(html);
      err := None;
    case Fragment(cs) =>
      err := RenderEach(cs, b);
    case Group(items) =>
      err := RenderEach(items, b);
  }

  /** `for child in children: render(child, builder)` */
  method RenderEach(ns: seq<Node>, b: Builder) returns (err: Option<Error>)
    requires b.Valid()
    modifies b
    ensures b.Valid() && old(b.parts) <= b.parts
    ensures RenderAll(ns).Ok? ==> err.None? && b.text == old(b.text) + RenderAll(ns).value
    ensures RenderAll(ns).Err? ==> err == Some(RenderAll(ns).error)
    decreases ns, 0
  {
    RenderAllUpToPrefix(ns, |ns|);
    assert ns[..|ns|] == ns;
    ghost var done := "";
    var i := 0;
    while i < |ns|
      invariant 0 <= i <= |ns|
      invariant b.Valid() && old(b.parts) <= b.parts
      invariant RenderAllUpTo(ns, i) == Ok(done)
      invariant b.text == old(b.text) + done
    {
      assert ns[i] in ns;
      var e := Render(ns[i], b);
      if e.Some? {
        RenderAllUpToStop(ns, i + 1);
        return e;
      }
      ghost var piece := RenderNode(ns[i]).value;
      AppendAssociative(old(b.text), done, piece);
      done := done + piece;
      i := i + 1;
    }
    return None;
  }

  /** _Tag.render_into: the open tag, the children in order, the closing tag. */
  method RenderElement(t: Tag, cs: seq<Node>, b: Builder) returns (err: Option<Error>)
    requires b.Valid()
    modifies b
    ensures b.Valid() && old(b.parts) <= b.parts
    ensures var r := RenderNode(Element(t, cs));
      && (r.Ok? ==> err.None? && b.text == old(b.text) + r.value)
      && (r.Err? ==> err == Some(r.error))
    decreases cs, 1
  {
    err := RenderOpenTag(t, b);
    if err.Some? {
      return;
    }
    ghost var open := OpenTag(t).value;
    err := RenderEach(cs, b);
    if err.Some? {
      return;
    }
    ghost var inner := RenderAll(cs).value;
    AppendAssociative(old(b.text), open, inner);
    b.Append("</" + t.name + ">");
    AppendAssociative(old(b.text), open + inner, "</" + t.name + ">");
    AppendAssociative(open, inner, "</" + t.name + ">");
  }

  /** Tag.render_into, preceded by the doctype for the HTML subclass. */
  method RenderOpenTag(t: Tag, b: Builder) returns (err: Option<Error>)
    requires b.Valid()
    modifies b
    ensures b.Valid() && old(b.parts) <= b.parts
    ensures OpenTag(t).Ok? ==> err.None? && b.text == old(b.text) + OpenTag(t).value
    ensures OpenTag(t).Err? ==> err == Some(OpenTag(t).error)
  {
    if t.doctype {
      b.Append("<!DOCTYPE html>");
    }
    b.Append("<" + t.name);
    ghost var head := (if t.doctype then "<!DOCTYPE html>" else "") + ("<" + t.name);
    AppendAssociative(old(b.text), if t.doctype then "<!DOCTYPE html>" else "", "<" + t.name);
    assert old(b.text) + "" == old(b.text);
    err := RenderAttributesInto(t.attrs, b);
    if err.Some? {
      return;
    }
    ghost var attrs := RenderAttributes(t.attrs).value;
    AppendAssociative(old(b.text), head, attrs);
    b.Append(">");
    AppendAssociative(old(b.text), head + attrs, ">");
    AppendAssociative(head, attrs, ">");
  }

  /** The loop over self.attrs.items() in Tag.render_into. */
  method RenderAttributesInto(attrs: Dict<AttributeValue>, b: Builder) returns (err: Option<Error>)
    requires b.Valid()
    modifies b
    ensures b.Valid() && old(b.parts) <= b.parts
    ensures RenderAttributes(attrs).Ok? ==> err.None? && b.text == old(b.text) + RenderAttributes(attrs).value
    ensures RenderAttributes(attrs).Err? ==> err == Some(RenderAttributes(attrs).error)
  {
    RenderAttributesUpToPrefix(attrs, |attrs|);
    assert attrs[..|attrs|] == attrs;
    ghost var done := "";
    var i := 0;
    while i < |attrs|
      invariant 0 <= i <= |attrs|
      invariant b.Valid() && old(b.parts) <= b.parts
      invariant RenderAttributesUpTo(attrs, i) == Ok(done)
      invariant b.text == old(b.text) + done
    {
      var (attr, value) := attrs[i];
      var e := RenderAttributeInto(attr, value, b);
      if e.Some? {
        RenderAttributesUpToStop(attrs, i + 1);
        return e;
      }
      ghost var piece := RenderAttribute(attr, value).value;
      AppendAssociative(old(b.text), done, piece);
      done := done + piece;
      i := i + 1;
    }
    return None;
  }

  /** One pass of that loop: nothing for False, None and an empty sequence;
      the bare name for True and for an empty text; otherwise the name, `="`,
      the escaped text and `"`. A bytes value raises. */
  method RenderAttributeInto(attr: string, value: AttributeValue, b: Builder) returns (err: Option<Error>)
    requires b.Valid()
    modifies b
    ensures b.Valid() && old(b.parts) <= b.parts
    ensures RenderAttribute(attr, value).Ok? ==> err.None? && b.text == old(b.text) + RenderAttribute(attr, value).value
    ensures RenderAttribute(attr, value).Err? ==> err == Some(RenderAttribute(attr, value).error)
  {
    var text := AttributeText(value);
    if text.Err? {
      return Some(text.error);
    }
    if text.value.None? {
      assert old(b.text) + "" == b.text;
      return None;
    }
    var s := text.value.value;
    b.Append(" " + attr);
    if s == "" {
      return None;
    }
    var q := EscapeAttributeValue(s);
    ghost var t0 := old(b.text);
    b.Append("=\"");
    AppendAssociative(t0, " " + attr, "=\"");
    b.Append(q);
    AppendAssociative(t0, " " + attr + "=\"", q);
    b.Append("\"");
    AppendAssociative(t0, " " + attr + "=\"" + q, "\"");
    return None;
  }

  /** render_tag: render into a fresh builder and join the pieces. */
  method RenderToString(n: Node) returns (r: Rendered)
    ensures r == RenderNode(n)
  {
    var b := new Builder();
    var err := Render(n, b);
    if err.Some? {
      return Err(err.value);
    }
    assert "" + RenderNode(n).value == RenderNode(n).value;
    return Ok(Concat(b.parts));
  }
}
