/** The style transform of components/Input/Input.tsx: it turns the
    optional property groups of an input field (fill, border, layout, text
    attributes, shadows, blur, filters, container layout) into one flat
    record of visual attributes for the raw input element.

    Records are `map<string, string>`; an object spread `{...a, ...b}` is
    Dafny's right-biased `a + b`. The four helpers the transform calls but
    does not define (the colour formatter, the layout and border
    transforms and the parent-context resolver) are fields of a
    `Collaborators` value; the property groups only those helpers look
    into are type parameters. */
module InputStyle {
  import opened Optional
  import opened JsString

  type Attrs = map<string, string>

  datatype Rgba = Rgba(r: int, g: int, b: int, a: real)

  /** The text attributes of the field. */
  datatype InputAttributes = InputAttributes(value: string, placeholder: string, color: Rgba, size: int)

  /** What the field shows when no text attributes are supplied: empty
      value and placeholder, opaque black, size 14. */
  const InitialInputProps: InputAttributes := InputAttributes("", "", Rgba(0, 0, 0, 1.0), 14)

  datatype Fill = Fill(active: bool, color: Rgba)

  datatype Shadow = Shadow(active: bool, x: int, y: int, blur: int, color: Rgba)

  datatype FilterEntry = FilterEntry(active: bool, amount: int, unit: string)

  /** The filters group: each filter-type name with its entry, in the order
      the group's keys are enumerated. */
  type Filters = seq<(string, FilterEntry)>

  datatype Blur = Blur(active: bool, blurAmount: int, unit: string, blurStyle: string)

  /** The property groups of the field, each independently absent. */
  datatype InputProps<Layout, Border, Container> = InputProps(
    layoutProps: Option<Layout>,
    shadowsProps: Option<seq<Shadow>>,
    inputProps: Option<InputAttributes>,
    fillProps: Option<Fill>,
    borderProps: Option<Border>,
    blurProps: Option<Blur>,
    filtersProps: Option<Filters>,
    containerLayoutProps: Option<Container>)

  /** The `{}` that stands in for a missing property bag. */
  function NoProps<Layout, Border, Container>(): InputProps<Layout, Border, Container> {
    InputProps(None, None, None, None, None, None, None, None)
  }

  /** The shared inspector helpers the transform delegates to:
      `transformColorToStr`, `transformLayout`, `transformBorderProps`,
      `getPropsFromParent`, and the empty container-layout object `{}`. */
  datatype Collaborators<!Layout, !Border, !Container, !Parent> = Collaborators(
    colorToStr: Rgba -> string,
    transformLayout: Option<Layout> -> Attrs,
    transformBorderProps: Border -> Attrs,
    getPropsFromParent: (Option<Parent>, Container) -> Attrs,
    emptyContainerLayout: Container)

  /* --------------------------------------------------- text attributes */

  /** Reads a pixel length such as "14px" back to its number. */
  function PixelValue(s: string): Option<int> {
    if |s| >= 2 && s[|s| - 2..] == "px" then ParseNumber(s[..|s| - 2]) else None
  }

  /** A pixel length reads back only from its one canonical spelling, so
      a read-back value pins the string down. */
  lemma PixelValueExact(s: string)
    ensures PixelValue(s).Some? ==> s == NumberToString(PixelValue(s).value) + "px"
  {
    if |s| >= 2 && s[|s| - 2..] == "px" {
      ParseNumberCanonical(s[..|s| - 2]);
      assert s == s[..|s| - 2] + s[|s| - 2..];
    }
  }

  /** `transformInputProps`: the value and placeholder unchanged, the
      colour formatted, the size as a pixel length that reads back to the
      size; absent attributes fall back to the initial ones. */
  function TransformInputProps(colorToStr: Rgba -> string, input: Option<InputAttributes>): (r: Attrs)
    ensures r.Keys == {"value", "placeholder", "color", "size"}
    ensures var a := input.GetOr(InitialInputProps);
      && r["value"] == a.value
      && r["placeholder"] == a.placeholder
      && r["color"] == colorToStr(a.color)
      && PixelValue(r["size"]) == Some(a.size)
    ensures input.None? ==>
      && r["value"] == ""
      && r["placeholder"] == ""
      && r["color"] == colorToStr(Rgba(0, 0, 0, 1.0))
      && r["size"] == "14px"
  {
    var a := input.GetOr(InitialInputProps);
    PixelLength(a.size);
    map["value" := a.value, "placeholder" := a.placeholder, "color" := colorToStr(a.color), "size" := Pixels(a.size)]
  }

  /* ------------------------------------------------------------ shadows */

  /** One shadow as "{x}px {y}px {blur}px {color}". */
  function ShadowToString(colorToStr: Rgba -> string, s: Shadow): (r: string)
    ensures |r| > |colorToStr(s.color)|
    ensures r[|r| - |colorToStr(s.color)|..] == colorToStr(s.color)
  {
    PixelFields(s.x, s.y, s.blur) + " " + colorToStr(s.color)
  }

  /** The pixel length of `n`, read back by `PixelValue`; it holds no
      space. */
  lemma PixelLength(n: int)
    ensures PixelValue(Pixels(n)) == Some(n)
    ensures ' ' !in Pixels(n)
  {
    var t := Pixels(n);
    NumberRoundTrip(n);
    assert t[..|t| - 2] == NumberToString(n);
    assert forall i | 0 <= i < |t| :: t[i] != ' ';
  }

  /** A rendered shadow reads back: cutting off the colour and the space
      before it leaves three space-separated pixel lengths, the offsets
      and the blur. */
  lemma {:induction false} ShadowToStringReadBack(colorToStr: Rgba -> string, s: Shadow)
    ensures var r := ShadowToString(colorToStr, s);
      var c := colorToStr(s.color);
      var fields := Split(r[..|r| - |c| - 1], ' ');
      && r[|r| - |c| - 1] == ' '
      && |fields| == 3
      && PixelValue(fields[0]) == Some(s.x)
      && PixelValue(fields[1]) == Some(s.y)
      && PixelValue(fields[2]) == Some(s.blur)
  {
    var r := ShadowToString(colorToStr, s);
    var c := colorToStr(s.color);
    var head := PixelFields(s.x, s.y, s.blur);
    assert r == head + " " + c;
    DropSpacedSuffix(head, c);
    assert r[..|r| - |c| - 1] == head;
    PixelFieldsReadBack(s.x, s.y, s.blur);
  }

  /** "{n}px". */
  function Pixels(n: int): string {
    NumberToString(n) + "px"
  }

  /** The three pixel lengths at the head of a rendered shadow,
      "{x}px {y}px {blur}px". */
  function PixelFields(x: int, y: int, blur: int): string {
    Pixels(x) + " " + Pixels(y) + " " + Pixels(blur)
  }

  /** The pixel lengths split apart at the spaces and read back. */
  lemma {:induction false} PixelFieldsReadBack(x: int, y: int, blur: int)
    ensures var fields := Split(PixelFields(x, y, blur), ' ');
      && |fields| == 3
      && PixelValue(fields[0]) == Some(x)
      && PixelValue(fields[1]) == Some(y)
      && PixelValue(fields[2]) == Some(blur)
  {
    var px, py, pb := Pixels(x), Pixels(y), Pixels(blur);
    PixelLength(x);
    PixelLength(y);
    PixelLength(blur);
    JoinThree(px, py, pb, " ");
    SplitJoin([px, py, pb], ' ');
  }

  /** Cutting a space and `c` off the end of `head + " " + c`, and the
      space that is cut. */
  lemma DropSpacedSuffix(head: string, c: string)
    ensures var t := head + " " + c; t[..|t| - |c| - 1] == head && t[|t| - |c| - 1] == ' '
  {
    var t := head + " " + c;
    assert t[..|head|] == head;
  }

  /** A join of three pieces. */
  lemma JoinThree(x: string, y: string, b: string, sep: string)
    ensures Join([x, y, b], sep) == x + sep + y + sep + b
  {
    assert [x, y, b][1..] == [y, b];
    assert [y, b][1..] == [b];
    assert Join([y, b], sep) == y + sep + b;
    assert Join([x, y, b], sep) == x + sep + (y + sep + b);
    AppendAssoc(x + sep, y + sep, b);
    AppendAssoc(x, sep, y + sep + b);
    AppendAssoc(x + sep, y, sep);
  }

  /** The loop of `transformShadowsProps` over the shadow list: each
      active shadow is appended, preceded by " ," unless the accumulator is
      still empty. */
  function ShadowsFold(colorToStr: Rgba -> string, acc: string, shadows: seq<Shadow>): (r: string)
    ensures |acc| <= |r| && r[..|acc|] == acc
    ensures r == acc <==> forall i | 0 <= i < |shadows| :: !shadows[i].active
    decreases |shadows|
  {
    if |shadows| == 0 then acc
    else
      var s := shadows[0];
      var next := if s.active then acc + (if acc != "" then " ," else "") + ShadowToString(colorToStr, s) else acc;
      assert forall i | 1 <= i < |shadows| :: shadows[i] == shadows[1..][i - 1];
      var r := ShadowsFold(colorToStr, next, shadows[1..]);
      assert r[..|acc|] == next[..|acc|];
      r
  }

  /** Reference: the rendered active shadows, in list order. Empty exactly
      when no shadow is active. */
  function ActiveShadowStrings(colorToStr: Rgba -> string, shadows: seq<Shadow>): (r: seq<string>)
    ensures |r| <= |shadows|
    ensures |r| == 0 <==> forall i | 0 <= i < |shadows| :: !shadows[i].active
    ensures forall i | 0 <= i < |r| :: |r[i]| > 0
  {
    if |shadows| == 0 then []
    else
      var rest := ActiveShadowStrings(colorToStr, shadows[1..]);
      assert forall i | 1 <= i < |shadows| :: shadows[i] == shadows[1..][i - 1];
      if shadows[0].active then [ShadowToString(colorToStr, shadows[0])] + rest else rest
  }

  /** With something already accumulated, the loop appends every active
      shadow prefixed by " ,". */
  lemma {:induction false} ShadowsFoldAfterFirst(colorToStr: Rgba -> string, acc: string, shadows: seq<Shadow>)
    requires acc != ""
    ensures ShadowsFold(colorToStr, acc, shadows) == acc + Prefixed(ActiveShadowStrings(colorToStr, shadows), " ,")
    decreases |shadows|
  {
    if |shadows| > 0 {
      var s := shadows[0];
      var rest := ActiveShadowStrings(colorToStr, shadows[1..]);
      if s.active {
        var first := ShadowToString(colorToStr, s);
        var next := acc + " ," + first;
        assert ShadowsFold(colorToStr, acc, shadows) == ShadowsFold(colorToStr, next, shadows[1..]);
        ShadowsFoldAfterFirst(colorToStr, next, shadows[1..]);
        var tail := Prefixed(rest, " ,");
        assert ([first] + rest)[1..] == rest;
        assert Prefixed([first] + rest, " ,") == " ," + first + tail;
        AppendAssoc(acc, " ,", first);
        AppendAssoc(acc, " ," + first, tail);
      } else {
        ShadowsFoldAfterFirst(colorToStr, acc, shadows[1..]);
      }
    }
  }

  /** The loop computes the active shadows joined by " ,". */
  lemma {:induction false} ShadowsFoldIsJoin(colorToStr: Rgba -> string, shadows: seq<Shadow>)
    ensures ShadowsFold(colorToStr, "", shadows) == Join(ActiveShadowStrings(colorToStr, shadows), " ,")
  {
    if |shadows| > 0 {
      var s := shadows[0];
      var rest := ActiveShadowStrings(colorToStr, shadows[1..]);
      if s.active {
        var first := ShadowToString(colorToStr, s);
        ShadowsFoldAfterFirst(colorToStr, first, shadows[1..]);
        assert "" + "" + first == first;
        JoinIsPrefixed([first] + rest, " ,");
        assert ([first] + rest)[1..] == rest;
      } else {
        ShadowsFoldIsJoin(colorToStr, shadows[1..]);
      }
    }
  }

  /** `transformShadowsProps`: one `shadow` key holding exactly the active
      shadows, in list order, separated by " ,"; empty exactly when no
      shadow is active. */
  function TransformShadowsProps(colorToStr: Rgba -> string, shadows: seq<Shadow>): (r: Attrs)
    ensures r.Keys == {"shadow"}
    ensures r["shadow"] == Join(ActiveShadowStrings(colorToStr, shadows), " ,")
    ensures r["shadow"] == "" <==> forall i | 0 <= i < |shadows| :: !shadows[i].active
  {
    ShadowsFoldIsJoin(colorToStr, shadows);
    JoinNonEmpty(ActiveShadowStrings(colorToStr, shadows), " ,");
    map["shadow" := ShadowsFold(colorToStr, "", shadows)]
  }

  /** A join of non-empty pieces is empty exactly when there are no pieces. */
  lemma JoinNonEmpty(parts: seq<string>, sep: string)
    requires forall i | 0 <= i < |parts| :: |parts[i]| > 0
    ensures Join(parts, sep) == "" <==> |parts| == 0
  {
    if |parts| > 0 {
      assert |Join(parts, sep)| >= |parts[0]| by {
        if |parts| > 1 {
          assert Join(parts, sep) == parts[0] + sep + Join(parts[1..], sep);
        }
      }
    }
  }

  /* ------------------------------------------------------ filters, blur */

  /** A filter-type name in kebab case: lower-cased, each space replaced by
      '-' (`transformFilterProps` splits on ' ' and joins with '-'). */
  function Kebab(name: string): (r: string)
    ensures |r| == |name|
    ensures forall i | 0 <= i < |name| :: r[i] == if name[i] == ' ' then '-' else LowerChar(name[i])
  {
    JoinSplitIsReplace(Lower(name), ' ', '-');
    Join(Split(Lower(name), ' '), "-")
  }

  /** "{head}({amount}{unit})": the CSS function-call shape shared by the
      filter and blur tokens. */
  function CssCall(head: string, amount: int, unit: string): (r: string)
    ensures |r| == |head| + |NumberToString(amount)| + |unit| + 2
    ensures r[..|head|] == head && r[|head|] == '(' && r[|r| - 1] == ')'
    ensures r[|head| + 1..|r| - 1] == NumberToString(amount) + unit
  {
    var r := head + "(" + NumberToString(amount) + unit + ")";
    assert r[|head| + 1..|r| - 1] == NumberToString(amount) + unit;
    r
  }

  /** The amount of a call reads back from between the parenthesis and
      the unit. */
  lemma CssCallReadBack(head: string, amount: int, unit: string)
    ensures var r := CssCall(head, amount, unit);
      && ParseNumber(r[|head| + 1..|r| - 1 - |unit|]) == Some(amount)
      && r[|r| - 1 - |unit|..|r| - 1] == unit
  {
    var r := CssCall(head, amount, unit);
    var inner := r[|head| + 1..|r| - 1];
    assert r[|head| + 1..|r| - 1 - |unit|] == inner[..|inner| - |unit|];
    assert r[|r| - 1 - |unit|..|r| - 1] == inner[|inner| - |unit|..];
    NumberRoundTrip(amount);
  }

  /** A call whose amount renders as `digits`, spelled out. */
  lemma CssCallSpelled(head: string, amount: int, unit: string, digits: string)
    requires NumberToString(amount) == digits
    ensures CssCall(head, amount, unit) == head + "(" + digits + unit + ")"
  {
  }

  /** The kebab case of a plain name does not start with whitespace. */
  lemma KebabStart(name: string)
    requires PlainName(name) && |name| > 0
    ensures !IsWhitespace(Kebab(name)[0])
  {
    var c := name[0];
    assert c == ' ' || !IsWhitespace(c);
    assert Kebab(name)[0] == if c == ' ' then '-' else LowerChar(c);
  }

  /** "{kebab name}({amount}{unit})": the kebab name, then the amount and
      unit in parentheses. A plain name gives a token with no whitespace at
      either end. */
  function FilterToken(name: string, e: FilterEntry): (r: string)
    ensures |r| > |name| + |e.unit| + 2
    ensures r[..|name|] == Kebab(name) && r[|name|] == '(' && r[|r| - 1] == ')'
    ensures r[|name| + 1..|r| - 1] == NumberToString(e.amount) + e.unit
    ensures PlainName(name) ==> Unpadded(r)
  {
    var r := CssCall(Kebab(name), e.amount, e.unit);
    assert PlainName(name) && |name| > 0 ==> !IsWhitespace(r[0]) by {
      if PlainName(name) && |name| > 0 {
        KebabStart(name);
        assert r[0] == r[..|name|][0];
      }
    }
    r
  }

  /** The amount of a filter token reads back from between the
      parenthesis and the unit. */
  lemma FilterTokenReadBack(name: string, e: FilterEntry)
    ensures var r := FilterToken(name, e);
      && ParseNumber(r[|name| + 1..|r| - 1 - |e.unit|]) == Some(e.amount)
      && r[|r| - 1 - |e.unit|..|r| - 1] == e.unit
  {
    var kebab := Kebab(name);
    var r := FilterToken(name, e);
    assert r == CssCall(kebab, e.amount, e.unit) && |kebab| == |name|;
    CssCallReadBack(kebab, e.amount, e.unit);
    assert r[|name| + 1..|r| - 1 - |e.unit|] == r[|kebab| + 1..|r| - 1 - |e.unit|];
  }

  /** "blur({amount}{unit})". */
  function BlurToken(b: Blur): (r: string)
    ensures |r| > |b.unit| + 6 && r[..5] == "blur(" && r[|r| - 1] == ')'
    ensures r[5..|r| - 1] == NumberToString(b.blurAmount) + b.unit
    ensures Unpadded(r)
  {
    var r := CssCall("blur", b.blurAmount, b.unit);
    assert r[..5] == r[..4] + [r[4]];
    r
  }

  /** The amount of a blur token reads back from between the parenthesis
      and the unit. */
  lemma BlurTokenReadBack(b: Blur)
    ensures var r := BlurToken(b);
      && ParseNumber(r[5..|r| - 1 - |b.unit|]) == Some(b.blurAmount)
      && r[|r| - 1 - |b.unit|..|r| - 1] == b.unit
  {
    CssCallReadBack("blur", b.blurAmount, b.unit);
  }

  /** A name whose only whitespace is the space character, which the kebab
      case turns into '-': every filter-type name of the inspector. */
  predicate PlainName(name: string) {
    forall i | 0 <= i < |name| :: name[i] == ' ' || !IsWhitespace(name[i])
  }

  predicate PlainNames(filters: Filters) {
    forall i | 0 <= i < |filters| :: PlainName(filters[i].0)
  }

  /** The loop of `transformFilterProps` over the filters group: each
      active entry appends a space and its token. */
  function FiltersFold(acc: string, filters: Filters): string
    decreases |filters|
  {
    if |filters| == 0 then acc
    else
      var (name, e) := filters[0];
      FiltersFold(if e.active then acc + " " + FilterToken(name, e) else acc, filters[1..])
  }

  /** The loop only appends to its accumulator; it appends something
      exactly when some entry is active, and then the result ends with the
      closing parenthesis of the last active token. */
  lemma FiltersFoldAppends(acc: string, filters: Filters)
    ensures var r := FiltersFold(acc, filters);
      && |acc| <= |r| && r[..|acc|] == acc
      && (|r| == |acc| <==> forall i | 0 <= i < |filters| :: !filters[i].1.active)
      && (|r| > |acc| ==> r[|r| - 1] == ')')
  {
    var toks := ActiveFilterTokens(filters);
    FiltersFoldIsPrefixed(acc, filters);
    assert FiltersFold(acc, filters) == acc + Prefixed(toks, " ");
    ClosedTokensAppended(acc, toks);
  }

  /** Appending space-prefixed tokens that each end in ')' keeps the
      accumulator as a prefix, grows it exactly when there is a token, and
      then ends in ')'. */
  lemma ClosedTokensAppended(acc: string, toks: seq<string>)
    requires forall i | 0 <= i < |toks| :: |toks[i]| > 0 && toks[i][|toks[i]| - 1] == ')'
    ensures var r := acc + Prefixed(toks, " ");
      && |acc| <= |r| && r[..|acc|] == acc
      && (|r| == |acc| <==> |toks| == 0)
      && (|r| > |acc| ==> r[|r| - 1] == ')')
  {
    var tail := Prefixed(toks, " ");
    var r := acc + tail;
    assert r[..|acc|] == acc;
    PrefixedEnd(toks, " ");
    if |tail| > 0 {
      assert r[|r| - 1] == tail[|tail| - 1];
    }
  }

  /** Reference: the tokens of the active entries, in group order. Empty
      exactly when no entry is active. */
  function ActiveFilterTokens(filters: Filters): (r: seq<string>)
    ensures |r| <= |filters|
    ensures |r| == 0 <==> forall i | 0 <= i < |filters| :: !filters[i].1.active
    ensures forall i | 0 <= i < |r| :: |r[i]| > 0 && r[i][|r[i]| - 1] == ')'
    ensures PlainNames(filters) ==> forall i | 0 <= i < |r| :: Unpadded(r[i])
  {
    if |filters| == 0 then []
    else
      var rest := ActiveFilterTokens(filters[1..]);
      assert forall i | 1 <= i < |filters| :: filters[i] == filters[1..][i - 1];
      var (name, e) := filters[0];
      assert PlainNames(filters) ==> PlainName(name) by {
        assert filters[0].0 == name;
      }
      if e.active then
        var tok := FilterToken(name, e);
        ClosedCons(tok, rest, PlainNames(filters));
        [tok] + rest
      else rest
  }

  /** Putting a token ending in ')' in front of tokens ending in ')' keeps
      every token ending in ')', and keeps them all trimmed when they were. */
  lemma ClosedCons(tok: string, rest: seq<string>, trimmed: bool)
    requires |tok| > 0 && tok[|tok| - 1] == ')' && (trimmed ==> Unpadded(tok))
    requires forall i | 0 <= i < |rest| :: |rest[i]| > 0 && rest[i][|rest[i]| - 1] == ')'
    requires trimmed ==> forall i | 0 <= i < |rest| :: Unpadded(rest[i])
    ensures var r := [tok] + rest;
      && (forall i | 0 <= i < |r| :: |r[i]| > 0 && r[i][|r[i]| - 1] == ')')
      && (trimmed ==> forall i | 0 <= i < |r| :: Unpadded(r[i]))
  {
    var r := [tok] + rest;
    assert forall i | 1 <= i < |r| :: r[i] == rest[i - 1];
  }

  /** The loop appends every active token prefixed by a space. */
  lemma {:induction false} FiltersFoldIsPrefixed(acc: string, filters: Filters)
    ensures FiltersFold(acc, filters) == acc + Prefixed(ActiveFilterTokens(filters), " ")
    decreases |filters|
  {
    if |filters| > 0 {
      var (name, e) := filters[0];
      var rest := ActiveFilterTokens(filters[1..]);
      if e.active {
        var tok := FilterToken(name, e);
        var tail := Prefixed(rest, " ");
        assert FiltersFold(acc, filters) == FiltersFold(acc + " " + tok, filters[1..]);
        FiltersFoldIsPrefixed(acc + " " + tok, filters[1..]);
        assert ([tok] + rest)[1..] == rest;
        assert Prefixed([tok] + rest, " ") == " " + tok + tail;
        AppendAssoc(acc, " ", tok);
        AppendAssoc(acc, " " + tok, tail);
      } else {
        FiltersFoldIsPrefixed(acc, filters[1..]);
      }
    }
  }

  /** The trimmed filter string of a filters group. */
  function FilterString(filters: Filters): (r: string)
    ensures Unpadded(r)
    ensures r == "" <==> forall i | 0 <= i < |filters| :: !filters[i].1.active
  {
    var toks := ActiveFilterTokens(filters);
    var raw := FiltersFold("", filters);
    assert |toks| > 0 ==> raw[|toks[0]|] == ')' by {
      FiltersFoldIsPrefixed("", filters);
      if |toks| > 0 {
        assert raw == " " + toks[0] + Prefixed(toks[1..], " ");
      }
    }
    FiltersFoldAppends("", filters);
    Trim(raw)
  }

  /** For plain names the filter string is exactly the active tokens, in
      group order, separated by single spaces. */
  lemma FilterStringIsJoin(filters: Filters)
    requires PlainNames(filters)
    ensures FilterString(filters) == Join(ActiveFilterTokens(filters), " ")
  {
    var toks := ActiveFilterTokens(filters);
    FiltersFoldIsPrefixed("", filters);
    assert FiltersFold("", filters) == Prefixed(toks, " ");
    assert forall i | 0 <= i < |toks| :: |toks[i]| > 0 && Unpadded(toks[i]);
    TrimPrefixedIsJoin(toks);
    assert FilterString(filters) == Trim(FiltersFold("", filters));
  }

  /** A blur that is present and active. */
  predicate BlurActive(blur: Option<Blur>) {
    blur.Some? && blur.value.active
  }

  /** An active blur applied to the element's backdrop. */
  predicate BlursBackground(blur: Option<Blur>) {
    BlurActive(blur) && blur.value.blurStyle == "Background"
  }

  /** An active blur applied to the element itself. */
  predicate BlursForeground(blur: Option<Blur>) {
    BlurActive(blur) && blur.value.blurStyle != "Background"
  }

  /** `transformFilterProps`. `filter` is present exactly when a filters
      group is supplied or the blur is on the element; `backdropFilter`
      exactly when the blur is on the backdrop, and then it is the blur
      token. A foreground blur puts its token first, ahead of the filters
      group's tokens; otherwise `filter` is the filters group's string. */
  function TransformFilterProps(blur: Option<Blur>, filters: Option<Filters>): (r: Attrs)
    ensures r.Keys <= {"filter", "backdropFilter"}
    ensures "filter" in r <==> filters.Some? || BlursForeground(blur)
    ensures "backdropFilter" in r <==> BlursBackground(blur)
    ensures "backdropFilter" in r ==> r["backdropFilter"] == BlurToken(blur.value)
    ensures filters.Some? && !BlursForeground(blur) ==> r["filter"] == FilterString(filters.value)
    ensures BlursForeground(blur) ==>
      var existing := if filters.Some? then FilterString(filters.value) else "";
      r["filter"] == (if existing == "" then BlurToken(blur.value) else BlurToken(blur.value) + " " + existing)
    ensures "filter" in r ==> Unpadded(r["filter"])
  {
    var res: Attrs := if filters.Some? then map["filter" := FilterString(filters.value)] else map[];
    var existing := if filters.Some? then FilterString(filters.value) else "";
    assert ("filter" in res ==> res["filter"] == existing) && Unpadded(existing);
    if BlurActive(blur) then
      var blurStr := BlurToken(blur.value);
      if blur.value.blurStyle == "Background" then
        res["backdropFilter" := blurStr]
      else
        // `res.filter || ''`: an absent and an empty filter both read as ''
        var filter := PrependBlur(blurStr, if "filter" in res then res["filter"] else "");
        assert filter == if existing == "" then blurStr else blurStr + " " + existing;
        res["filter" := filter]
    else
      res
  }

  /** The blur token followed by the filter string so far, trimmed: the
      token alone when there was no filter, otherwise token, space,
      filters. */
  function PrependBlur(blurStr: string, existing: string): (r: string)
    ensures Unpadded(r)
    ensures |blurStr| > 0 && Unpadded(blurStr) && Unpadded(existing) ==>
      r == if existing == "" then blurStr else blurStr + " " + existing
  {
    assert |blurStr| > 0 && Unpadded(blurStr) && Unpadded(existing) ==>
      Trim(blurStr + " " + existing) == if existing == "" then blurStr else blurStr + " " + existing
    by {
      if |blurStr| > 0 && Unpadded(blurStr) && Unpadded(existing) {
        TrimSpaced(blurStr, existing);
      }
    }
    Trim(blurStr + " " + existing)
  }

  /** For plain names, the `filter` key lists the tokens: the blur token
      first when the blur is on the element, then the active filters in
      group order, separated by single spaces. */
  lemma TransformFilterPropsTokens(blur: Option<Blur>, filters: Option<Filters>)
    requires filters.Some? ==> PlainNames(filters.value)
    ensures var r := TransformFilterProps(blur, filters);
      var toks := if filters.Some? then ActiveFilterTokens(filters.value) else [];
      "filter" in r ==> r["filter"] == Join((if BlursForeground(blur) then [BlurToken(blur.value)] else []) + toks, " ")
  {
    var toks := if filters.Some? then ActiveFilterTokens(filters.value) else [];
    if filters.Some? {
      FilterStringIsJoin(filters.value);
      JoinNonEmpty(toks, " ");
    }
    if BlursForeground(blur) {
      var all := [BlurToken(blur.value)] + toks;
      if |toks| > 0 {
        assert all[1..] == toks;
      }
    } else {
      assert [] + toks == toks;
    }
  }

  /* ---------------------------------------------------------- transform */

  /** Right-biased merge of a list of records, first to last: the meaning
      of a chain of object spreads. A key is in the result exactly when it
      is in some record. */
  function MergeAll(stages: seq<Attrs>): (r: Attrs)
    ensures forall k :: k in r <==> exists i | 0 <= i < |stages| :: k in stages[i]
  {
    if |stages| == 0 then map[]
    else
      var init := MergeAll(stages[..|stages| - 1]);
      assert forall i | 0 <= i < |stages| - 1 :: stages[..|stages| - 1][i] == stages[i];
      init + stages[|stages| - 1]
  }

  /** Whether a record after position `i` also defines `k`. */
  predicate DefinedAfter(stages: seq<Attrs>, k: string, i: nat) {
    exists j | i < j < |stages| :: k in stages[j]
  }

  /** In a merge, each key takes its value from the last record that
      defines it. */
  lemma {:induction false} MergeAllLastWins(stages: seq<Attrs>, i: nat, k: string)
    requires i < |stages| && k in stages[i]
    requires !DefinedAfter(stages, k, i)
    ensures k in MergeAll(stages) && MergeAll(stages)[k] == stages[i][k]
  {
    var n := |stages|;
    if i < n - 1 {
      var init := stages[..n - 1];
      assert init[i] == stages[i];
      assert k !in stages[n - 1];
      MergeAllLastWins(init, i, k);
    }
  }

  /** The `fill` record: the formatted fill colour when the fill group is
      present and active. */
  function FillStage<L, B, C, P>(p: InputProps<L, B, C>, env: Collaborators<L, B, C, P>): (r: Attrs)
    ensures r.Keys <= {"fill"}
    ensures "fill" in r <==> p.fillProps.Some? && p.fillProps.value.active
    ensures "fill" in r ==> r["fill"] == env.colorToStr(p.fillProps.value.color)
  {
    if p.fillProps.Some? && p.fillProps.value.active then map["fill" := env.colorToStr(p.fillProps.value.color)]
    else map[]
  }

  /** The border record, from the border helper when a border is given. */
  function BorderStage<L, B, C, P>(p: InputProps<L, B, C>, env: Collaborators<L, B, C, P>): (r: Attrs)
    ensures p.borderProps.None? ==> r == map[]
    ensures p.borderProps.Some? ==> r == env.transformBorderProps(p.borderProps.value)
  {
    if p.borderProps.Some? then env.transformBorderProps(p.borderProps.value) else map[]
  }

  /** The `shadow` record, present only when a shadow list is given. */
  function ShadowStage<L, B, C, P>(p: InputProps<L, B, C>, env: Collaborators<L, B, C, P>): (r: Attrs)
    ensures r.Keys <= {"shadow"}
    ensures "shadow" in r <==> p.shadowsProps.Some?
    ensures "shadow" in r ==> r["shadow"] == Join(ActiveShadowStrings(env.colorToStr, p.shadowsProps.value), " ,")
  {
    if p.shadowsProps.Some? then TransformShadowsProps(env.colorToStr, p.shadowsProps.value) else map[]
  }

  /** The parent-context record; the container layout defaults to `{}`. */
  function ParentStage<L, B, C, P>(p: InputProps<L, B, C>, context: Option<P>, env: Collaborators<L, B, C, P>): (r: Attrs)
    ensures p.containerLayoutProps.None? ==> r == env.getPropsFromParent(context, env.emptyContainerLayout)
    ensures p.containerLayoutProps.Some? ==> r == env.getPropsFromParent(context, p.containerLayoutProps.value)
  {
    env.getPropsFromParent(context, p.containerLayoutProps.GetOr(env.emptyContainerLayout))
  }

  /** The records `transform` spreads, in spreading order: fill, border,
      layout, text attributes, shadows, filters, parent context. */
  function Stages<L, B, C, P>(props: Option<InputProps<L, B, C>>, context: Option<P>, env: Collaborators<L, B, C, P>): (stages: seq<Attrs>)
    ensures |stages| == 7
  {
    var p := props.GetOr(NoProps());
    [ FillStage(p, env),
      BorderStage(p, env),
      env.transformLayout(p.layoutProps),
      TransformInputProps(env.colorToStr, p.inputProps),
      ShadowStage(p, env),
      TransformFilterProps(p.blurProps, p.filtersProps),
      ParentStage(p, context, env) ]
  }

  /** `transform`: the fill and border records are accumulated first, then
      layout, text attributes, shadows, filters and the parent-context
      record are spread over them, so the parent context wins every clash. */
  function Transform<L, B, C, P>(props: Option<InputProps<L, B, C>>, context: Option<P>, env: Collaborators<L, B, C, P>): (r: Attrs)
    ensures var fromParent := ParentStage(props.GetOr(NoProps()), context, env);
      forall k | k in fromParent :: k in r && r[k] == fromParent[k]
  {
    var p := props.GetOr(NoProps());
    // `res` after the fill and border steps: `{}`, then the fill key if the
    // fill is active, then the border keys if a border is given
    var res := FillStage(p, env) + BorderStage(p, env);
    res
      + env.transformLayout(p.layoutProps)
      + TransformInputProps(env.colorToStr, p.inputProps)
      + ShadowStage(p, env)
      + TransformFilterProps(p.blurProps, p.filtersProps)
      + ParentStage(p, context, env)
  }

  /** One more record on the right of a merge is one more spread. */
  lemma MergeAllStep(s: seq<Attrs>, j: nat)
    requires j < |s|
    ensures MergeAll(s[..j + 1]) == MergeAll(s[..j]) + s[j]
  {
    assert s[..j + 1][..j] == s[..j];
  }

  /** The transform merges its stages in the order fill, border, layout,
      text attributes, shadows, filters, parent context: every key of the
      result comes from some stage, and takes the value of the last stage
      that defines it. */
  lemma TransformIsStagedMerge<L, B, C, P>(props: Option<InputProps<L, B, C>>, context: Option<P>, env: Collaborators<L, B, C, P>)
    ensures Transform(props, context, env) == MergeAll(Stages(props, context, env))
  {
    var s := Stages(props, context, env);
    MergeSeven(s);
  }

  /** A merge of seven records is their spread chain. */
  lemma MergeSeven(s: seq<Attrs>)
    requires |s| == 7
    ensures MergeAll(s) == s[0] + s[1] + s[2] + s[3] + s[4] + s[5] + s[6]
  {
    assert s[..0] == [];
    MergeAllStep(s, 0);
    assert MergeAll(s[..1]) == s[0];
    MergeAllStep(s, 1);
    MergeAllStep(s, 2);
    MergeAllStep(s, 3);
    MergeAllStep(s, 4);
    MergeAllStep(s, 5);
    MergeAllStep(s, 6);
    assert s[..7] == s;
  }

  /* ------------------------------------------- consequences for each key */

  /** None of the helpers outside this file (border, layout, parent
      context) produces key `k`. */
  predicate HelpersLeave<L, B, C, P>(k: string, p: InputProps<L, B, C>, context: Option<P>, env: Collaborators<L, B, C, P>) {
    && k !in BorderStage(p, env)
    && k !in env.transformLayout(p.layoutProps)
    && k !in ParentStage(p, context, env)
  }

  /** An active fill always puts `fill` in the result; unless another
      helper produces `fill`, it is there exactly then, with the formatted
      fill colour. */
  lemma TransformFill<L, B, C, P>(props: Option<InputProps<L, B, C>>, context: Option<P>, env: Collaborators<L, B, C, P>)
    ensures var p := props.GetOr(NoProps());
      var r := Transform(props, context, env);
      var active := p.fillProps.Some? && p.fillProps.value.active;
      && (active ==> "fill" in r)
      && (HelpersLeave("fill", p, context, env) ==>
            && ("fill" in r <==> active)
            && (active ==> r["fill"] == env.colorToStr(p.fillProps.value.color)))
  {
    var p := props.GetOr(NoProps());
    assert "fill" !in TransformInputProps(env.colorToStr, p.inputProps);
    assert "fill" !in ShadowStage(p, env);
    assert "fill" !in TransformFilterProps(p.blurProps, p.filtersProps);
  }

  /** The text attributes reach the result unchanged, with the initial
      attributes when none are given, unless the parent context overrides
      them. */
  lemma TransformTextAttributes<L, B, C, P>(props: Option<InputProps<L, B, C>>, context: Option<P>, env: Collaborators<L, B, C, P>)
    ensures var p := props.GetOr(NoProps());
      var fromParent := ParentStage(p, context, env);
      var a := p.inputProps.GetOr(InitialInputProps);
      var r := Transform(props, context, env);
      && ("value" !in fromParent ==> "value" in r && r["value"] == a.value)
      && ("placeholder" !in fromParent ==> "placeholder" in r && r["placeholder"] == a.placeholder)
      && ("color" !in fromParent ==> "color" in r && r["color"] == env.colorToStr(a.color))
      && ("size" !in fromParent ==> "size" in r && PixelValue(r["size"]) == Some(a.size))
  {
    var p := props.GetOr(NoProps());
    var shadow := ShadowStage(p, env);
    var filter := TransformFilterProps(p.blurProps, p.filtersProps);
    assert shadow.Keys <= {"shadow"} && filter.Keys <= {"filter", "backdropFilter"};
    assert "value" !in shadow && "placeholder" !in shadow && "color" !in shadow && "size" !in shadow;
    assert "value" !in filter && "placeholder" !in filter && "color" !in filter && "size" !in filter;
  }

  /** A given shadow list always puts `shadow` in the result; unless
      another helper produces `shadow`, it is there exactly then, listing
      the active shadows. */
  lemma TransformShadow<L, B, C, P>(props: Option<InputProps<L, B, C>>, context: Option<P>, env: Collaborators<L, B, C, P>)
    ensures var p := props.GetOr(NoProps());
      var r := Transform(props, context, env);
      && (p.shadowsProps.Some? ==> "shadow" in r)
      && (HelpersLeave("shadow", p, context, env) ==>
            && ("shadow" in r <==> p.shadowsProps.Some?)
            && (p.shadowsProps.Some? ==> r["shadow"] == Join(ActiveShadowStrings(env.colorToStr, p.shadowsProps.value), " ,")))
  {
    var p := props.GetOr(NoProps());
    assert "shadow" !in FillStage(p, env);
    assert "shadow" !in TransformInputProps(env.colorToStr, p.inputProps);
    assert "shadow" !in TransformFilterProps(p.blurProps, p.filtersProps);
  }

  /** A filters group or a foreground blur always puts `filter` in the
      result, and a backdrop blur `backdropFilter`; unless another helper
      produces them, both are exactly those of the filter composition. */
  lemma TransformFilter<L, B, C, P>(props: Option<InputProps<L, B, C>>, context: Option<P>, env: Collaborators<L, B, C, P>)
    ensures var p := props.GetOr(NoProps());
      var r := Transform(props, context, env);
      var f := TransformFilterProps(p.blurProps, p.filtersProps);
      && (p.filtersProps.Some? || BlursForeground(p.blurProps) ==> "filter" in r)
      && (BlursBackground(p.blurProps) ==> "backdropFilter" in r)
      && (HelpersLeave("filter", p, context, env) ==>
            && ("filter" in r <==> p.filtersProps.Some? || BlursForeground(p.blurProps))
            && ("filter" in r ==> r["filter"] == f["filter"]))
      && (HelpersLeave("backdropFilter", p, context, env) ==>
            && ("backdropFilter" in r <==> BlursBackground(p.blurProps))
            && ("backdropFilter" in r ==> r["backdropFilter"] == BlurToken(p.blurProps.value)))
  {
    var p := props.GetOr(NoProps());
    var shadow := ShadowStage(p, env);
    assert shadow.Keys <= {"shadow"};
    assert "filter" !in FillStage(p, env) && "backdropFilter" !in FillStage(p, env);
    assert "filter" !in TransformInputProps(env.colorToStr, p.inputProps);
    assert "backdropFilter" !in TransformInputProps(env.colorToStr, p.inputProps);
    assert "filter" !in shadow && "backdropFilter" !in shadow;
  }

  /** With no property bag at all the transform is that of `{}`: the
      initial text attributes, and no `fill`, `shadow`, `filter` or
      `backdropFilter` (unless a helper produces them). */
  lemma TransformDefaults<L, B, C, P>(context: Option<P>, env: Collaborators<L, B, C, P>)
    ensures Transform(None, context, env) == Transform(Some(NoProps()), context, env)
    ensures var r := Transform(None, context, env);
      var fromParent := env.getPropsFromParent(context, env.emptyContainerLayout);
      && ("value" !in fromParent ==> r["value"] == "")
      && ("placeholder" !in fromParent ==> r["placeholder"] == "")
      && ("color" !in fromParent ==> r["color"] == env.colorToStr(Rgba(0, 0, 0, 1.0)))
      && ("size" !in fromParent ==> r["size"] == "14px")
      && (forall k | k in {"fill", "shadow", "filter", "backdropFilter"} && HelpersLeave(k, NoProps(), context, env) :: k !in r)
  {
    var p: InputProps<L, B, C> := NoProps();
    var fill, border := FillStage(p, env), BorderStage(p, env);
    var shadow, filter := ShadowStage(p, env), TransformFilterProps(None, None);
    assert fill == map[] && border == map[] && shadow == map[] && filter == map[];
    var text := TransformInputProps(env.colorToStr, None);
    assert text.Keys !! {"fill", "shadow", "filter", "backdropFilter"};
    SpreadAroundText(fill, border, env.transformLayout(None), text, shadow, filter, ParentStage(p, context, env));
  }

  /** A spread of seven records whose first two and fifth and sixth are
      empty: keys of the fourth survive unless the seventh has them, and a
      key none of the others has stays absent. */
  lemma SpreadAroundText(s0: Attrs, s1: Attrs, s2: Attrs, s3: Attrs, s4: Attrs, s5: Attrs, s6: Attrs)
    requires s0 == map[] && s1 == map[] && s4 == map[] && s5 == map[]
    ensures var r := s0 + s1 + s2 + s3 + s4 + s5 + s6;
      && (forall k | k in s3 && k !in s6 :: k in r && r[k] == s3[k])
      && (forall k | k !in s2 && k !in s3 && k !in s6 :: k !in r)
  {
  }

  /* ---------------------------------------------------- worked examples */

  /** One black shadow at (x, y) with the given blur, all single digits. */
  lemma {:induction false} BlackShadowString(colorToStr: Rgba -> string, x: nat, y: nat, blur: nat)
    requires x < 10 && y < 10 && blur < 10
    requires colorToStr(Rgba(0, 0, 0, 1.0)) == "rgba(0,0,0,1)"
    ensures ShadowToString(colorToStr, Shadow(true, x, y, blur, Rgba(0, 0, 0, 1.0)))
      == [DigitChar(x)] + "px " + [DigitChar(y)] + "px " + [DigitChar(blur)] + "px " + "rgba(0,0,0,1)"
  {
  }

  /** The renderings of the two shadows of the example below. */
  lemma BlackShadowLiterals()
    ensures [DigitChar(1)] + "px " + [DigitChar(2)] + "px " + [DigitChar(3)] + "px " + "rgba(0,0,0,1)" == "1px 2px 3px rgba(0,0,0,1)"
    ensures [DigitChar(4)] + "px " + [DigitChar(5)] + "px " + [DigitChar(6)] + "px " + "rgba(0,0,0,1)" == "4px 5px 6px rgba(0,0,0,1)"
  {
  }

  /** Two active black shadows render as
      "1px 2px 3px rgba(0,0,0,1) ,4px 5px 6px rgba(0,0,0,1)": the two
      entries around the " ," separator. */
  lemma TwoShadowsExample(colorToStr: Rgba -> string)
    requires colorToStr(Rgba(0, 0, 0, 1.0)) == "rgba(0,0,0,1)"
    ensures var black := Rgba(0, 0, 0, 1.0);
      TransformShadowsProps(colorToStr, [Shadow(true, 1, 2, 3, black), Shadow(true, 4, 5, 6, black)])["shadow"]
        == "1px 2px 3px rgba(0,0,0,1)" + " ," + "4px 5px 6px rgba(0,0,0,1)"
  {
    var black := Rgba(0, 0, 0, 1.0);
    var shadows := [Shadow(true, 1, 2, 3, black), Shadow(true, 4, 5, 6, black)];
    var first := ShadowToString(colorToStr, shadows[0]);
    var second := ShadowToString(colorToStr, shadows[1]);
    BlackShadowString(colorToStr, 1, 2, 3);
    BlackShadowString(colorToStr, 4, 5, 6);
    BlackShadowLiterals();
    assert shadows[1..][1..] == [];
    assert ActiveShadowStrings(colorToStr, shadows) == [first, second];
    assert Join([first, second], " ,") == first + " ," + second;
  }

  /** A background blur of 5px with no filters group gives
      `backdropFilter` "blur(5px)" and no `filter`. */
  lemma BackgroundBlurExample()
    ensures var r := TransformFilterProps(Some(Blur(true, 5, "px", "Background")), None);
      && r["backdropFilter"] == "blur(5px)"
      && "filter" !in r
  {
  }

  /** The token of an active 50% grayscale filter. */
  lemma GrayscaleToken()
    ensures FilterToken("Grayscale", FilterEntry(true, 50, "%")) == "grayscale(50%)"
  {
    GrayscaleKebab();
    FiftySpelled();
    FilterTokenSpelled("Grayscale", FilterEntry(true, 50, "%"), "grayscale", "50");
    GrayscaleLiteral();
  }

  /** A filter token whose name and amount are already spelled out. */
  lemma FilterTokenSpelled(name: string, e: FilterEntry, kebab: string, digits: string)
    requires Kebab(name) == kebab && NumberToString(e.amount) == digits
    ensures FilterToken(name, e) == kebab + "(" + digits + e.unit + ")"
  {
    CssCallSpelled(kebab, e.amount, e.unit, digits);
  }

  /** The number 50 renders as "50". */
  lemma FiftySpelled()
    ensures NumberToString(50) == "50"
  {
  }

  lemma GrayscaleLiteral()
    ensures "grayscale" + "(" + "50" + "%" + ")" == "grayscale(50%)"
  {
  }

  /** A normal blur of 5px with an active 50% grayscale filter gives
      "blur(5px) grayscale(50%)": the blur token, a space, the filter. */
  lemma BlurAndGrayscaleExample()
    ensures TransformFilterProps(Some(Blur(true, 5, "px", "Normal")), Some([("Grayscale", FilterEntry(true, 50, "%"))]))["filter"]
      == "blur(5px)" + " " + "grayscale(50%)"
  {
    BlurBeforeSingleFilter(Blur(true, 5, "px", "Normal"), "Grayscale", FilterEntry(true, 50, "%"));
    GrayscaleToken();
    Blur5Token();
  }

  /** A foreground blur with a group of one active filter gives the blur
      token, a space, and the filter's token. */
  lemma BlurBeforeSingleFilter(blur: Blur, name: string, entry: FilterEntry)
    requires blur.active && blur.blurStyle != "Background"
    requires entry.active && PlainName(name)
    ensures TransformFilterProps(Some(blur), Some([(name, entry)]))["filter"] == BlurToken(blur) + " " + FilterToken(name, entry)
  {
    var filters := [(name, entry)];
    assert filters[1..] == [];
    assert ActiveFilterTokens(filters) == [FilterToken(name, entry)];
    FilterStringIsJoin(filters);
    assert FilterString(filters) == FilterToken(name, entry);
  }

  /** The token of a 5px blur. */
  lemma Blur5Token()
    ensures BlurToken(Blur(true, 5, "px", "Normal")) == "blur(5px)"
  {
    assert NumberToString(5) == "5";
    CssCallSpelled("blur", 5, "px", "5");
    assert "blur" + "(" + "5" + "px" + ")" == "blur(5px)";
  }

  /** The kebab case of "Grayscale" is "grayscale". */
  lemma GrayscaleKebab()
    ensures Kebab("Grayscale") == "grayscale"
  {
    assert LowerChar('G') == 'g';
    KebabOfWord("Grayscale", "grayscale");
  }

  /** The kebab case of a word without spaces is its per-character
      lower case. */
  lemma KebabOfWord(name: string, k: string)
    requires |k| == |name|
    requires forall i | 0 <= i < |name| :: name[i] != ' ' && k[i] == LowerChar(name[i])
    ensures Kebab(name) == k
  {
  }
}
