# bricks: an HTML renderer, modelled in Dafny

The repository builds HTML from code, with no template language. It does this in three ways, and each becomes one module here:

- **`Render`** (`src/main.py`) models the tree renderer.
  - A node is one of: None, a string, an int, a called `Tag`, `raw(html)`, `frag(*children)`, or any other iterable of nodes.
  - `render` writes a node depth-first into a shared `builder` list.
  - Text is escaped with `html.escape(s, quote=False)`.
  - Attribute values are escaped the same way, and then `"` is replaced by `&quot;`.
  - `Tag.__init__` checks the tag name and normalises attribute names with `_normalize_attr`.
  - An element is always closed.
  - `HTML` writes `<!DOCTYPE html>` first.
- **`Elements`** (`src/element.py`) models the builder-style `Element` object.
  - Calling the object appends content and merges attributes in place, then returns the object.
  - `str()` writes the object without escaping.
  - An element with no content gets no closing tag.
- **`Bricks`** (`src/bricks.py`) models the curried string builder `element(name)(*contents, **attributes)`.
- **`HtmlElements`** (`src/html_elements.py`) models:
  - the fixed-name elements `Head`, `Body`, `Div`, `P`, `A` and `H1`;
  - `Html`, which holds a head and a body and writes the doctype before itself.

Two modules support the others:

- **`Strings`** models the Python built-ins the renderers use: `str.replace`, `str.rstrip`, `join`, `str()` of an int, and `html.escape`.
- **`OrderedDict`** models Python's insertion-ordered `dict`, as a sequence of key–value pairs. Assigning to a key that is already present keeps its position.

How the model is built:

- **Pure code** is written as functions:
  - `RenderNode` in `Render`;
  - `Str` in `Elements`;
  - `RenderElement` and `NamedElement` in `Bricks`.
- **Code that changes state** is written as classes and methods:
  - The builder list is the class `Render.Builder`. Its `parts` field is the list. A ghost field records the text that `"".join(parts)` would give.
  - `Render.Render` and its helper methods append to a `Builder` piece by piece, in the same order as the source. Each method is proved to append exactly the text that `RenderNode` specifies, or to stop with the same error.
  - `Elements.Element` is a class with the fields `content` and `attribute`, which `Call` updates in place.
- **An independent check of the renderer:** `Render.Tokens` flattens a tree into its depth-first token stream. `RenderMatchesTokens` proves that the recursive renderer writes exactly the text of that stream.
- **Exceptions** are modelled as `Result` values. The errors are:
  - `ValueError` for a bad tag name;
  - `ValueError` for a bad attribute name;
  - `TypeError` for a `bytes` attribute value.

## Model

| member | source | states |
|---|---|---|
| Strings.ReplaceChar | src/main.py:120 | `s.replace(c, r)` with a one-character `r` keeps the length, replaces each `c` and leaves every other character unchanged. No `c` remains when `r` holds none. |
| Strings.RStrip | src/main.py:120 | `s.rstrip(c)` is a prefix of `s` that does not end in `c`. Everything it removes is `c`. |
| Strings.Concat | src/main.py:26 | `"".join(parts)` starts with the first part and is at least as long as each part. |
| Strings.Join | src/main.py:59 | `sep.join(parts)` starts with the first part; with two or more parts it is longer than the first part by at least `sep`. |
| Strings.JoinAsPrefixed | src/main.py:59 | `sep.join(parts)` of a non-empty list is the first part, followed by `sep` in front of each later part. |
| Strings.ParseIntToDecimal | src/main.py:17 | `str(i)` reads back as `i`. |
| Strings.IntToDecimalInjective | src/main.py:61 | Two ints with the same decimal text are equal. |
| Strings.IntToDecimal | src/main.py:17 | `str(i)` is a non-empty string of digits. It starts with `-` exactly when `i` is negative. |
| Strings.EscapeText | src/main.py:13 | `html.escape(s, quote=False)` leaves no `<` or `>` in its output. |
| Strings.EscapeTextPerChar | src/main.py:13 | Because `&` is replaced first, the three replacements act as one character-by-character substitution. No entity is escaped twice. |
| Strings.EscapeAttributeValue | src/main.py:70 | An escaped attribute value holds no `"`, `<` or `>`. |
| Strings.EscapeAttributeValuePerChar | src/main.py:70 | Escaping and then replacing `"` with `&quot;` is one character-by-character substitution. `&quot;` is never escaped again. |
| Strings.EscapeTextRoundTrip | src/main.py:13 | Escaped text decodes back to exactly the original text. |
| Strings.EscapeAttributeValueRoundTrip | src/main.py:70 | An escaped attribute value decodes back to exactly the original value. |
| Strings.EscapeDecimal | src/main.py:61-70 | Escaping leaves the decimal text of an int unchanged. |
| OrderedDict.IndexOf | src/main.py:41 | A key is found at a position holding that key. It is not found exactly when it is absent. |
| OrderedDict.Get | src/main.py:41 | `d.get(k)` is None exactly when `k` is absent. Otherwise it is a value stored under `k`. |
| OrderedDict.Put | src/main.py:41 | `d[k] = v` keeps the key order when `k` is present and appends `k` otherwise. Keys stay distinct. |
| OrderedDict.PutGet | src/main.py:41 | After `d[k] = v`, `k` holds `v` and every other key keeps its value. |
| OrderedDict.Update | src/element.py:33 | `d.update(e)` keeps every existing key in front, in order. Keys stay distinct. |
| OrderedDict.UpdateGet | src/element.py:33 | After `d.update(e)`, each key of `e` holds its value in `e`. Every other key keeps its value from `d`. |
| OrderedDict.UpdateKeeps | src/element.py:33 | A key that `e` never mentions keeps its value. |
| OrderedDict.UpdateLastWins | src/element.py:33 | When `e` repeats a key, the last assignment wins. |
| OrderedDict.NewKeys | src/element.py:33 | Defines the keys that `d.update(e)` adds: the keys of `e` absent from `d`, in the order `e` first names them. |
| OrderedDict.NewKeysSpec | src/element.py:33 | Those keys are absent from `d`, come from `e`, appear once each, and include every key of `e` that `d` lacks. |
| OrderedDict.UpdateKeys | src/element.py:33 | After `d.update(e)`, the keys are those of `d` in their old order, then the new keys of `e` in the order `e` first names them. |
| OrderedDict.UpdateFresh | src/element.py:33 | Updating with keys that are all new appends them, in order. |
| Render.ValidTagName | src/main.py:36 | Defines the tag-name test: non-empty, ASCII, and every character an ASCII letter or digit. |
| Render.NormalizeAttr | src/main.py:116-128 | `_normalize_attr`: a result is a non-empty ASCII name with no `_`; a failure is the invalid-attribute-name error. |
| Render.NormalizeAttrs | src/main.py:41 | The dict comprehension of `Tag.__init__`: it keeps the keys it starts from, and keeps keys distinct. |
| Render.NormalizeAttrSpec | src/main.py:116-128 | `klass` and `class_name` give `class`. Any other name fails exactly when it is not ASCII or is all underscores. Otherwise the result is the name up to its last non-underscore character, with each `_` turned into `-`. |
| Render.NormalizeAttrIdempotent | src/main.py:116-128 | A normalised name normalises to itself, except `klass`, which `klass_` produces and which then becomes `class`. |
| Render.NormalizeAttrsErrors | src/main.py:41 | The attribute comprehension succeeds exactly when every name is valid. Otherwise it raises the error of the first invalid name. |
| Render.NormalizeAttrsIsUpdate | src/main.py:41 | The comprehension equals `dict.update` with the renamed keywords, in keyword order. |
| Render.NormalizeAttrsLastWins | src/main.py:41 | When two keywords normalise to one name, such as `klass` and `class_name`, the last value is kept. |
| Render.NormalizedKeys | src/main.py:41 | Every stored key is a non-empty ASCII name without `_`. |
| Render.NewTag | src/main.py:33-41 | A bad tag name raises first. The tag is built exactly when the name and every attribute name are valid, and otherwise raises the first invalid attribute name's error. It keeps the name, and its dict is `dict.update` of `{}` with the renamed keywords, in keyword order: distinct, well-formed keys. |
| Render.NewHtml | src/main.py:107-109 | `HTML(**attrs)` is the tag `html` with the doctype flag. It fails exactly when an attribute name is invalid, with that name's error. Its dict is `dict.update` of `{}` with the renamed keywords. |
| Render.AttributeText | src/main.py:46-61 | Only a bytes value fails. `False`, None and an empty sequence leave the attribute out, and nothing else does. |
| Render.RenderAttribute | src/main.py:46-71 | One attribute's text: it fails exactly for a bytes value, and any text it writes starts with a space. |
| Render.RenderAttributeCases | src/main.py:46-71 | Only bytes raise. `False`, None and `[]` write nothing. `True` and `""` write the bare name. An int is written in decimal. All output starts with a space and the name. |
| Render.AttributeQuoted | src/main.py:64-71 | A written value sits between two `"` and holds no `"`, `<` or `>`. It decodes back to the value's text. |
| Render.ItemsJoined | src/main.py:56-59 | A sequence value is written as its items' `str()` joined by single spaces. It gives the bare name when that text is empty. |
| Render.RenderAttributes | src/main.py:45-71 | The attributes in insertion order: the result fails exactly when some value is bytes, and only with the unsupported-attribute-type error. Any text starts with a space. |
| Render.OpenTag | src/main.py:43-72 | `Tag.render_into`, and `HTML.render_into` (src/main.py:111-113) when the doctype flag is set: it fails exactly when some value is bytes; otherwise it starts with the doctype (if flagged) and `<name`, and ends with `>`. |
| Render.RenderNode | src/main.py:8-20 | `render` as a function of the node: the text the builder receives, or the error raised. The only error at render time is a bytes attribute value. |
| Render.RenderAll | src/main.py:18-20 | The loop over an iterable or over children, as a function: the only error is a bytes attribute value. |
| Render.RenderAttributesAppend | src/main.py:45 | Attributes are written in insertion order. The first failure stops the rest. |
| Render.RenderAllAppend | src/main.py:19-20 | The children are rendered one after the other. The first error stops the rest. |
| Render.RenderMatchesTokens | src/main.py:8-20 | The recursive renderer writes exactly the text of the depth-first token stream, and stops at the first error. |
| Render.RenderAllMatchesTokens | src/main.py:18-20 | The same holds for a sequence of nodes. |
| Render.GroupFlattening | src/main.py:18-20 | A sequence nested in a sequence renders like its items spliced in place. |
| Render.FragmentFlattening | src/main.py:98-104 | A fragment nested in a fragment renders like its children spliced in place. |
| Render.FragmentOfFragment | src/main.py:98-104 | `frag(frag(a, b), c)` renders as `frag(a, b, c)`. |
| Render.TextEscaped | src/main.py:12-13 | Text always renders, holds no `<` or `>`, and decodes back to itself. |
| Render.ElementClosed | src/main.py:83-87 | An element renders as its open tag, then its children in order, then `</name>`, for any number of children. |
| Render.DoctypeFirst | src/main.py:111-113 | An `HTML` element's output starts with `<!DOCTYPE html><html`. |
| Render.Builder.constructor | src/main.py:24 | The `builder` list starts empty, and its joined text is `""`. |
| Render.Builder.Append | src/main.py:44 | `builder.append(s)` adds `s` at the end and changes nothing else. |
| Render.Render | src/main.py:8-20 | `render` appends exactly the specified text, or returns the error it raises. Earlier pieces are kept. |
| Render.RenderEach | src/main.py:19-20 | The loop over children appends their texts in order and stops at the first error. |
| Render.RenderElement | src/main.py:83-87 | `_Tag.render_into` appends the open tag, the children and the closing tag. |
| Render.RenderOpenTag | src/main.py:43-72 | `Tag.render_into` appends `<name`, the attributes and `>`. For `HTML` the doctype goes first. |
| Render.RenderAttributesInto | src/main.py:45-71 | The attribute loop appends each attribute's text in order and stops at a bytes value. |
| Render.RenderAttributeInto | src/main.py:46-71 | One pass of the loop appends nothing, the bare name, or the name, `="`, the escaped value and `"`. |
| Render.RenderToString | src/main.py:23-26 | `render_tag` returns exactly the specified text, or the error. |
| Elements.FormatKey | src/element.py:40 | A formatted key holds no `_` and is no longer than the key. |
| Elements.FormatKeySpec | src/element.py:40 | Trailing underscores are dropped, every other `_` becomes `-`, and nothing else changes. |
| Elements.FormatKeyMatchesNormalizeAttr | src/element.py:40 | The key formatting agrees with `_normalize_attr` of `src/main.py`, apart from the class aliases and the name check. |
| Elements.FormatAttribute | src/element.py:39-45 | `format_attribute`: the text is empty exactly for `False`; otherwise it starts with a space. |
| Elements.FormatAttributeCases | src/element.py:39-45 | `True` gives the bare key. `False`, and only `False`, gives nothing. A string is written between quotes, unescaped, and an int in decimal between quotes. |
| Elements.FormatAttributes | src/element.py:47-49 | The attributes joined in dict order: empty, or starting with a space. |
| Elements.ContentText | src/element.py:52 | Defines `str(item)` for one content item: text as is, an int in decimal, a bool as `True`/`False`, a nested element through its own `str()`. |
| Elements.ContentsText | src/element.py:52 | Defines `"".join(str(item) for item in self.content)`: the items' texts in order with no separator. |
| Elements.OpeningTag | src/element.py:51 | The opening tag starts with `<name` and ends with `>`. |
| Elements.ClosingTag | src/element.py:53 | The closing tag is empty exactly when there is no content. |
| Elements.ElementStr | src/element.py:36-55 | `Element.__str__`: the output starts with the opening tag. |
| Elements.Str | src/html_elements.py:50-52 | `str()` of an element: an `Html` starts with `<!DOCTYPE html>`, and any other element is `Element.__str__`. |
| Elements.FormatAttributesAppend | src/element.py:47-49 | Attributes are written in dict order. |
| Elements.ContentsTextAppend | src/element.py:52 | Content items are written in order, with no separator. |
| Elements.EmptyUnclosed | src/element.py:51-55 | An element with no content is its opening tag alone, with no closing tag. |
| Elements.NonEmptyClosed | src/element.py:51-55 | An element with content is its opening tag, its items, and `</name>`, and it ends with `</name>`. |
| Elements.Element.constructor | src/element.py:13-22 | `Element(name, *content, **attribute)` stores the three of them unchanged. |
| Elements.Element.Document | src/html_elements.py:48 | The `Html` object is named `html`, holds its head and body as content, and has the given attributes. |
| Elements.Element.Call | src/element.py:24-34 | Calling appends the new content, merges the attributes with `dict.update`, and returns the same object. |
| Elements.CallAppendsContent | src/element.py:30-31 | After a call, the old items render first and then the new ones. The attributes are untouched. |
| Elements.CallAppendsAttributes | src/element.py:32-33 | A call with new names renders the old attributes and then the new ones. |
| Elements.UpdateKeepsOrder | src/element.py:32-33 | Re-assigning names that are already present leaves the attribute order unchanged. |
| Elements.CallLastWriteWins | src/element.py:32-33 | After a call, every name passed holds its new value. Every other name keeps its old value. |
| Elements.StrOneText | tests/test_element.py:7-9 | An element holding one text item renders as `<name attrs>text</name>`. |
| Elements.AttributesThenContent | tests/test_element.py:12-14 | `Element(n)(k=v)(t)` renders as `<n k="v">t</n>`. |
| Elements.NestedElements | tests/test_element.py:22-24 | Two nested elements render whole, in order, inside the parent. |
| Elements.EmptyElement | tests/test_element.py:27-29 | `Element(n)` renders as `<n>`. |
| Elements.KeyJoined | tests/test_element.py:32-34 | `a_b` is written as `a-` followed by the formatted `b`, when `a` has no `_` and `b` does not end in `_`: `data_value` gives `data-value`. |
| Elements.KeyTwoJoins | tests/test_element.py:49-56 | A key with two inner underscores, such as `custom_data_value`, is written with two hyphens, `custom-data-value`. |
| Elements.MixedAttributes | tests/test_element.py:49-56 | `type_`, `True` and a key `a_b` whose tail `b` may itself hold underscores (as `custom_data_value` does) are written as `type="…"`, the bare name, and `a-` plus the formatted `b`, in order. |
| Elements.TrailingUnderscoreNoContent | tests/test_element.py:59-61 | `Element(n)(base_=v1, key=v2)` renders as `<n base="v1" key="v2">`, with no closing tag. |
| Elements.KeyTrailing | tests/test_element.py:59-61 | `base_` is written as `base`. |
| Bricks.ValueText | src/bricks.py:19 | Defines `f"{value}"`: a string as is, an int in decimal, `True`/`False`/`None` as words. |
| Bricks.Key | src/bricks.py:19 | `key.replace("_", "-")` keeps the length and leaves no `_`. |
| Bricks.Pair | src/bricks.py:19 | A pair starts with the key and `="` and ends with `"`. |
| Bricks.Pairs | src/bricks.py:17-22 | The list comprehension gives one pair per attribute. |
| Bricks.TagOpen | src/bricks.py:16-25 | `tag_open` starts with `<name` and ends with `>`. |
| Bricks.RenderElement | src/bricks.py:15-30 | `render_element` starts with the open tag and ends with `</name>`. |
| Bricks.NamedElement | src/bricks.py:32-35 | `named_element` returns the finished string exactly when contents are given. |
| Bricks.Element | src/bricks.py:8-37 | Defines `element(name)`: the function of contents and attributes that is `named_element` for that name. |
| Bricks.CurriedElement | src/bricks.py:32-35 | `element(name)(...)` is the finished string exactly when contents are given. Otherwise it is a function that renders any later contents with the first call's attributes. |
| Bricks.AlwaysClosed | src/bricks.py:26-30 | The output is the open tag, the contents joined with no separator, then `</name>`, even with no contents. |
| Bricks.TagOpenCases | src/bricks.py:16-25 | With no attributes the open tag is `<name>`. Otherwise it is `<name`, each `key="value"` pair in insertion order after one space, then `>`. |
| Bricks.JoinedIsSpaced | src/bricks.py:17-22 | `" ".join(pairs)` after a space is each pair preceded by one space. |
| Bricks.KeySpec | src/bricks.py:19 | Keys only have `_` replaced by `-`. Their length is unchanged. |
| Bricks.TrailingUnderscoreKept | src/bricks.py:19 | A trailing `_` becomes a trailing `-`, unlike in `Element`. |
| Bricks.PairVerbatim | src/bricks.py:19 | Values are written with `str()` and are never escaped: a string as is, an int in decimal, `None`, `True` and `False` as words. |
| Bricks.AgreesWithElement | src/bricks.py:15-30 | With text contents, no bool values and no trailing `_` in keys, bricks writes the same string as `Element.__str__`. |
| Bricks.EmptyDisagrees | src/bricks.py:28-30 | Without contents, bricks adds the `</name>` that `Element.__str__` leaves out. |
| HtmlElements.NewHead | src/html_elements.py:19 | `Head(...)` is a new element named `head` with the content and attributes passed through. |
| HtmlElements.NewBody | src/html_elements.py:31 | `Body(...)` is a new element named `body` with the content and attributes passed through. |
| HtmlElements.NewDiv | src/html_elements.py:64 | `Div(...)` is a new element named `div` with the content and attributes passed through. |
| HtmlElements.NewP | src/html_elements.py:76 | `P(...)` is a new element named `p` with the content and attributes passed through. |
| HtmlElements.NewA | src/html_elements.py:88 | `A(...)` is a new element named `a` with the content and attributes passed through. |
| HtmlElements.NewH1 | src/html_elements.py:100 | `H1(...)` is a new element named `h1` with the content and attributes passed through. |
| HtmlElements.HeadOrDefault | src/html_elements.py:45 | `head or Head()`: the given head, or an empty element named `head`. |
| HtmlElements.BodyOrDefault | src/html_elements.py:46 | `body or Body(*content)`: the given body, or an element named `body` holding the extra content. |
| HtmlElements.HtmlValue | src/html_elements.py:45-48 | An `Html` is named `html`, has the document flag and the given attributes, and holds two elements. |
| HtmlElements.NewHtml | src/html_elements.py:45-48 | `Html(head, body, *content, **attribute)` uses the given head and body, or a new `Head()` and `Body(*content)`. |
| HtmlElements.HtmlChildren | src/html_elements.py:45-48 | An `Html` has exactly two children: the given head (or an empty `head`) and then the given body (or a `body` holding the extra content). It has the given attributes, and the extra content is ignored when a body is given. |
| HtmlElements.HtmlRendering | src/html_elements.py:50-52 | `str(Html(...))` is the doctype, then the ordinary rendering: open tag, head, body, `</html>`. |
| HtmlElements.HtmlStartsWithDoctype | src/html_elements.py:52 | `str(Html(...))` starts with `<!DOCTYPE html><html`. |
| HtmlElements.DefaultHtml | src/html_elements.py:45-52 | `Html()` renders as `<!DOCTYPE html><html><head><body></html>`. |

## Reading the code

- `src/main.py` uses `Frag` as the common base of `_Tag`, `raw` and `frag`, but never defines it. Lines 20, 25 and 104 call `render_into(x, builder)`, which is not defined at module level either. The model reads `Frag` as that base class and these calls as `render(x, builder)`.
- `_normalize_attr` strips every trailing underscore, because it calls `rstrip("_")`, so `type__` becomes `type`. As a result, `klass_` becomes `klass`, and normalising `klass` again gives `class`. `Render.NormalizeAttrIdempotent` states this exception.
- The attribute-name check accepts any non-empty ASCII name. It does not reject `"`, `=`, `>` or a space, although its comment calls it stricter than HTML 5.2. The model keeps the check as written.
- `Element.__str__` writes no closing tag for an element without content (`<br>`). `bricks` always writes one (`<br></br>`). The main renderer always writes one too. `Bricks.EmptyDisagrees` states the difference.
- `tests/test_element.py` imports `Element` from `src.bricks`, which does not define it. The tests describe `src/element.py`. They are modelled as methods and lemmas over any names and texts, and their concrete strings are instances of those. For example, `custom_data_value` in tests/test_element.py:50 is `MixedAttributes`'s third key with `a = custom` and `b = data_value`, and `KeyTwoJoins` writes it as `custom-data-value`.

## Left out

- A bare `Tag` that has not been called is not a `Frag`, a string, an int or an iterable. `render`'s `match` then appends nothing. The closed `Node` type has no such case.
- `bool` is a subclass of `int` in Python, so a bool node renders as `True` or `False`. `Node` has no bool case.
- An empty generator or other iterator given as an attribute value is truthy, so it passes the emptiness test at src/main.py:57, joins to `""` and is written as the bare name (src/main.py:64-68). `AItems([])` stands for every empty iterable and is left out, like `[]`.
- A `dict` attribute value is iterated by its keys. It is represented as `AItems` holding those keys. Other arbitrary objects reach `str(value)`; only ints are modelled there.
- Elements.Element.Call: a nested `Element` is held as a value snapshot when it is added as content. Changing the child object later does not change the parent, unlike Python's shared references.
- HtmlElements.NewHtml: the head and body are stored as snapshots, as in `Call`, so sharing them with the caller is not modelled.
- Python 3.11 and later refuse to convert an int of more than 4300 digits to text: `str(i)` and f-strings raise ValueError (src/main.py:17, src/main.py:59, src/main.py:61, src/element.py:45, src/element.py:52, src/bricks.py:19). `Strings.IntToDecimal` writes every int, so the model renders such ints instead of failing. The limit is a runtime setting (`sys.set_int_max_str_digits`), not part of the renderer's logic.
- `render` and `_Tag.render_into` call each other once per level of nesting (src/main.py:15, src/main.py:86), so a tree nested deeper than Python's recursion limit raises RecursionError. `Render.RenderNode` and `Render.Render` render trees of any depth.
- `src/__init__.py` duplicates `element` from `src/bricks.py`. It is not part of this model.
- The two calling shapes of `Element` are fixed: content is a list of items, and attributes are a list of distinct names. Python's `**kwargs` can never repeat a name, and the model requires the same.
- Bricks.CurriedElement: the function returned while awaiting contents is a Dafny function value. Its identity as a Python closure is not modelled.
