/** The heuristics of the full extraction script (`src/preload/browserPreload.js`):
    reading a field's value off an element, building a selector for it, finding
    the repeating card around it, and judging two elements or two records alike. */
module BrowserEngine {
  import opened Wrappers
  import opened Text
  import opened Dom
  import opened Css
  import opened Patterns
  import opened Extraction
  import opened Sequences

  // ================================================================ values

  /** `img.src || img.getAttribute("data-src") || img.getAttribute("data-lazy")`:
      null when all are empty and `data-lazy` is absent. */
  function ImageSource(e: Element): (r: Option<string>)
    ensures r.None? <==> AttrOr(e, "src") == "" && AttrOr(e, "data-src") == "" && GetAttr(e, "data-lazy").None?
    ensures AttrOr(e, "src") != "" ==> r == Some(AttrOr(e, "src"))
    ensures AttrOr(e, "src") == "" && AttrOr(e, "data-src") != "" ==> r == Some(AttrOr(e, "data-src"))
  {
    if AttrOr(e, "src") != "" then Some(AttrOr(e, "src"))
    else if AttrOr(e, "data-src") != "" then Some(AttrOr(e, "data-src"))
    else GetAttr(e, "data-lazy")
  }

  /** `element.alt`: reflected by IMG, AREA and INPUT only, undefined elsewhere. */
  function Alt(e: Element): string {
    if e.tag == "IMG" || e.tag == "AREA" || e.tag == "INPUT" then AttrOr(e, "alt") else ""
  }

  /** A computed `background-image` other than "" and "none". */
  predicate HasBackground(e: Element) {
    e.backgroundImage != "" && e.backgroundImage != "none"
  }

  /** The price rule on the element's trimmed text: the first match of the
      currency-first pattern, else of the "From" pattern, else of the
      number-then-currency pattern, trimmed; "" when none matches. */
  function Price(text: string): (r: string)
    ensures r == "" || IsInfix(r, text)
  {
    match FirstMatch(CurrencyFirst, Currencies, text)
    case Some(m) => TrimmedInfix(m, text); Trim(m)
    case None =>
      match FirstMatch(Keyword(["From"], false), Currencies, text)
      case Some(m) => TrimmedInfix(m, text); Trim(m)
      case None =>
        match FirstMatch(NumberFirst, Currencies, text)
        case Some(m) => TrimmedInfix(m, text); Trim(m)
        case None => ""
  }

  lemma TrimmedInfix(m: string, text: string)
    requires IsInfix(m, text)
    ensures IsInfix(Trim(m), text)
  {
    InfixTrans(Trim(m), m, text);
  }

  /** The "From" pattern never decides: the price is the currency-first match,
      else the number-then-currency match, else "", each exactly as matched. */
  lemma PriceSkipsFrom(text: string)
    ensures FirstMatch(CurrencyFirst, Currencies, text).Some? ==>
      Price(text) == FirstMatch(CurrencyFirst, Currencies, text).value
    ensures FirstMatch(CurrencyFirst, Currencies, text).None? && FirstMatch(NumberFirst, Currencies, text).Some? ==>
      Price(text) == FirstMatch(NumberFirst, Currencies, text).value
    ensures FirstMatch(CurrencyFirst, Currencies, text).None? && FirstMatch(NumberFirst, Currencies, text).None? ==>
      Price(text) == ""
  {
    StandardCurrenciesWellFormed();
    if FirstMatch(CurrencyFirst, Currencies, text).Some? {
      FirstMatchIsTrimmed(CurrencyFirst, Currencies, text);
    } else {
      if FirstMatch(Keyword(["From"], false), Currencies, text).Some? {
        FromNeverDecides(Currencies, text);
      }
      if FirstMatch(NumberFirst, Currencies, text).Some? {
        FirstMatchIsTrimmed(NumberFirst, Currencies, text);
      }
    }
  }

  /** `extractValue(element, type)`. The image rule may give null; every other
      field gives a string, the price one taken from the element's text. */
  function ExtractValue(page: Element, p: Path, field: string): (r: Option<string>)
    requires Valid(page, p)
    ensures field != "image" ==> r.Some?
    ensures field == "price" ==> r.value == "" || IsInfix(r.value, Trim(TextContent(Node(page, p))))
  {
    var e := Node(page, p);
    if field == "image" then
      if e.tag == "IMG" then ImageSource(e)
      else if HasBackground(e) then Some(OrEmpty(UrlCapture(e.backgroundImage, 0)))
      else match FirstImg(page, p)
        case Some(q) => ImageSource(Node(page, q))
        case None => Some("")
    else if field == "title" then
      Some(FirstNonEmpty([AttrOr(e, "title"), Alt(e), Trim(TextContent(e)), AttrOr(e, "aria-label")]))
    else if field == "description" then
      Some(FirstNonEmpty([Trim(TextContent(e)), AttrOr(e, "data-description"), AttrOr(e, "aria-description")]))
    else if field == "price" then
      Some(Price(Trim(TextContent(e))))
    else
      Some(FirstNonEmpty([Trim(TextContent(e)), e.value]))
  }

  /** The image rule: an IMG gives its own source chain; any other element with
      a background image gives the capture of the leftmost `url(...)` in it, or
      "" when there is none, without looking further; otherwise the source chain
      of the first IMG below the element in document order, or "" when there
      is none. */
  lemma ExtractImage(page: Element, p: Path)
    requires Valid(page, p)
    ensures Node(page, p).tag == "IMG" ==> ExtractValue(page, p, "image") == ImageSource(Node(page, p))
    ensures var bg := Node(page, p).backgroundImage;
      Node(page, p).tag != "IMG" && HasBackground(Node(page, p)) ==>
        && (forall k :: LeftmostUrlAt(bg, 0, k, UrlAt(bg, k)) && UrlAt(bg, k).Some? ==> ExtractValue(page, p, "image") == UrlAt(bg, k))
        && ((forall k :: 0 <= k <= |bg| ==> UrlAt(bg, k).None?) ==> ExtractValue(page, p, "image") == Some(""))
    ensures var d := Descendants(page, p);
      Node(page, p).tag != "IMG" && !HasBackground(Node(page, p)) ==>
        && (forall k :: FirstTagAt(d, page, "IMG", k) ==> ExtractValue(page, p, "image") == ImageSource(Node(page, d[k])))
        && ((forall k :: 0 <= k < |d| ==> !HasTagAt(page, d[k], "IMG")) ==> ExtractValue(page, p, "image") == Some(""))
  {
    var e := Node(page, p);
    var d := Descendants(page, p);
    if e.tag != "IMG" && HasBackground(e) {
      var bg := e.backgroundImage;
      var u := UrlCapture(bg, 0);
      if u.Some? {
        var k0 :| LeftmostUrlAt(bg, 0, k0, u);
        forall k | LeftmostUrlAt(bg, 0, k, UrlAt(bg, k)) && UrlAt(bg, k).Some?
          ensures k == k0
        {
        }
      }
    } else if e.tag != "IMG" {
      match FirstImg(page, p)
      case Some(q) =>
        var k0 :| FirstTagAt(d, page, "IMG", k0) && d[k0] == q;
        forall k | FirstTagAt(d, page, "IMG", k)
          ensures k == k0
        {
        }
      case None =>
    }
  }

  /** The text fields take the first non-empty candidate, in the order the
      script's `||` chains list them. The title: the `title` attribute, the
      `alt` text, the trimmed text, then `aria-label`. */
  lemma ExtractTitle(page: Element, p: Path)
    requires Valid(page, p)
    ensures var e := Node(page, p);
      IsFirstNonEmpty(ExtractValue(page, p, "title").value,
        [AttrOr(e, "title"), Alt(e), Trim(TextContent(e)), AttrOr(e, "aria-label")])
  {
  }

  /** The description: the trimmed text, then `data-description`, then
      `aria-description`. */
  lemma ExtractDescription(page: Element, p: Path)
    requires Valid(page, p)
    ensures var e := Node(page, p);
      IsFirstNonEmpty(ExtractValue(page, p, "description").value,
        [Trim(TextContent(e)), AttrOr(e, "data-description"), AttrOr(e, "aria-description")])
  {
  }

  /** Any other field: the trimmed text, else the element's `value`. */
  lemma ExtractOther(page: Element, p: Path, field: string)
    requires Valid(page, p) && field !in {"image", "title", "description", "price"}
    ensures var e := Node(page, p);
      IsFirstNonEmpty(ExtractValue(page, p, field).value, [Trim(TextContent(e)), e.value])
  {
  }

  // ================================================================ selectors

  predicate IsStateClass(c: string) {
    c == "active" || c == "hover" || c == "selected" || c == "focus"
  }

  /** The pieces of `className.split(" ")` that are not blank and not exactly a
      state class, in order and with repeats kept, so that the first three are
      the ones the selector uses. */
  function KeptClasses(parts: seq<string>): (r: seq<string>)
    ensures forall k :: 0 <= k < |r| ==> r[k] in parts && IsKeptClass(r[k])
    ensures forall c :: c in parts && IsKeptClass(c) ==> c in r
    ensures exists idx :: PickedAt(parts, KeptMask(parts), r, idx)
  {
    if |parts| == 0 then
      assert PickedAt(parts, KeptMask(parts), [], []);
      []
    else
      var rest := KeptClasses(parts[1..]);
      assert parts == [parts[0]] + parts[1..];
      var m := IsKeptClass(parts[0]);
      var r := if m then [parts[0]] + rest else rest;
      KeptMaskCons(parts);
      ShiftPositions(parts, m, KeptMask(parts[1..]), rest, KeptMask(parts), r);
      r
  }

  /** Which pieces are kept. */
  function KeptMask(parts: seq<string>): (r: seq<bool>)
    ensures |r| == |parts| && forall j :: 0 <= j < |parts| ==> (r[j] <==> IsKeptClass(parts[j]))
  {
    seq(|parts|, j requires 0 <= j < |parts| => IsKeptClass(parts[j]))
  }

  lemma KeptMaskCons(parts: seq<string>)
    requires |parts| > 0
    ensures KeptMask(parts) == [IsKeptClass(parts[0])] + KeptMask(parts[1..])
  {
  }

  predicate IsKeptClass(c: string) {
    Trim(c) != "" && !IsStateClass(c)
  }

  function Take<T>(xs: seq<T>, n: nat): (r: seq<T>)
    ensures |r| <= n && |r| <= |xs| && r == xs[..|r|]
    ensures |r| == n || r == xs
  {
    if |xs| <= n then xs else xs[..n]
  }

  /** The classes the class candidate uses: at most three. */
  function ClassPicks(e: Element): seq<string> {
    Take(KeptClasses(Split(ClassName(e), ' ')), 3)
  }

  /** A `data-*` attribute whose name mentions neither "index" nor "id". */
  predicate IsDataAttr(a: Attr) {
    StartsWith(a.name, "data-") && !Contains(a.name, "index") && !Contains(a.name, "id")
  }

  /** The `data-*` attributes the data candidate may use, in document order. */
  function DataAttrs(attrs: seq<Attr>): (r: seq<Attr>)
    ensures forall k :: 0 <= k < |r| ==> r[k] in attrs && IsDataAttr(r[k])
    ensures forall a :: a in attrs && IsDataAttr(a) ==> a in r
    ensures exists idx :: PickedAt(attrs, DataMask(attrs), r, idx)
  {
    if |attrs| == 0 then
      assert PickedAt(attrs, DataMask(attrs), [], []);
      []
    else
      var rest := DataAttrs(attrs[1..]);
      assert attrs == [attrs[0]] + attrs[1..];
      var m := IsDataAttr(attrs[0]);
      var r := if m then [attrs[0]] + rest else rest;
      DataMaskCons(attrs);
      ShiftPositions(attrs, m, DataMask(attrs[1..]), rest, DataMask(attrs), r);
      r
  }

  /** Which attributes are `data-*` candidates. */
  function DataMask(attrs: seq<Attr>): (r: seq<bool>)
    ensures |r| == |attrs| && forall j :: 0 <= j < |attrs| ==> (r[j] <==> IsDataAttr(attrs[j]))
  {
    seq(|attrs|, j requires 0 <= j < |attrs| => IsDataAttr(attrs[j]))
  }

  lemma DataMaskCons(attrs: seq<Attr>)
    requires |attrs| > 0
    ensures DataMask(attrs) == [IsDataAttr(attrs[0])] + DataMask(attrs[1..])
  {
  }

  /** The attributes the data candidate uses: at most two. */
  function DataPicks(e: Element): seq<Attr> {
    Take(DataAttrs(e.attrs), 2)
  }

  /** `[name="value"]` for each attribute, concatenated. */
  function AttrSelectors(attrs: seq<Attr>): string {
    if |attrs| == 0 then "" else "[" + attrs[0].name + "=\"" + attrs[0].value + "\"]" + AttrSelectors(attrs[1..])
  }

  /** The path segment of an element that has a parent: its lower-case tag, with
      `:nth-of-type(k)` when its parent has more than one child of that tag. */
  function Segment(page: Element, p: Path): string
    requires Valid(page, p) && |p| > 0
  {
    var tag := LowerTag(Node(page, p));
    if SameTagCount(page, p) > 1 then tag + ":nth-of-type(" + NatToString(NthOfType(page, p)) + ")" else tag
  }

  /** The segment of the ancestor `k` steps up from `p`. */
  function SegmentUp(page: Element, p: Path, k: nat): string
    requires Valid(page, p) && k < |p|
  {
    UpValid(page, p);
    Segment(page, Up(p, k))
  }

  /** The segments the walk of `generateSelector` collects from `p` upwards:
      one per ancestor-or-self that has a parent, stopping at `body` or after
      `budget` segments, listed outermost first (`PathSegmentsShape` states
      which segments these are). */
  function PathSegments(page: Element, p: Path, body: Option<Path>, budget: nat): (r: seq<string>)
    requires Valid(page, p)
    ensures |r| <= budget && |r| <= |p|
    decreases |p|
  {
    if budget == 0 || body == Some(p) || |p| == 0 then []
    else
      ParentValid(page, p);
      PathSegments(page, p[..|p| - 1], body, budget - 1) + [Segment(page, p)]
  }

  /** The walk collects the segments of the element and of its ancestors in
      turn, outermost first. */
  lemma {:induction false} PathSegmentsAreSegments(page: Element, p: Path, body: Option<Path>, budget: nat)
    requires Valid(page, p)
    ensures SegmentsUp(page, p, PathSegments(page, p, body, budget))
    decreases |p|
  {
    var r := PathSegments(page, p, body, budget);
    if budget > 0 && body != Some(p) && |p| > 0 {
      PathSegmentsStep(page, p, body, budget);
      var q := p[..|p| - 1];
      PathSegmentsAreSegments(page, q, body, budget - 1);
      SegmentsSnoc(page, p, PathSegments(page, q, body, budget - 1), r);
    }
  }

  /** The k-th of `r` from the end is the segment of the k-th ancestor of `p`. */
  predicate SegmentsUp(page: Element, p: Path, r: seq<string>) {
    Valid(page, p) && |r| <= |p| && forall k :: 0 <= k < |r| ==> r[k] == SegmentUp(page, p, |r| - 1 - k)
  }

  /** Adding the element's own segment after its parent's walk keeps the k-th
      segment from the end that of the k-th ancestor. */
  lemma SegmentsSnoc(page: Element, p: Path, rest: seq<string>, r: seq<string>)
    requires Valid(page, p) && |p| > 0
    requires SegmentsUp(page, p[..|p| - 1], rest)
    requires r == rest + [Segment(page, p)]
    ensures SegmentsUp(page, p, r)
  {
    forall k | 0 <= k < |rest|
      ensures r[k] == SegmentUp(page, p, |r| - 1 - k)
    {
      SegmentUpParent(page, p, |rest| - 1 - k);
      assert r[k] == rest[k];
    }
    assert Up(p, 0) == p;
  }

  /** Going up `j + 1` levels from `p` is going up `j` levels from its parent. */
  lemma SegmentUpParent(page: Element, p: Path, j: nat)
    requires Valid(page, p) && j + 1 < |p|
    ensures Valid(page, p[..|p| - 1])
    ensures SegmentUp(page, p, j + 1) == SegmentUp(page, p[..|p| - 1], j)
  {
    ParentValid(page, p);
    UpStep(p, j + 1);
    UpValid(page, p);
    UpValid(page, p[..|p| - 1]);
  }

  /** None of the collected elements is the body, and the walk stops only at the
      body, at the root, or once it holds `budget` segments. */
  lemma {:induction false} PathSegmentsStop(page: Element, p: Path, body: Option<Path>, budget: nat)
    requires Valid(page, p)
    ensures var r := PathSegments(page, p, body, budget);
      && (forall k :: 0 <= k < |r| ==> body != Some(Up(p, k)))
      && (|r| == budget || |r| == |p| || body == Some(Up(p, |r|)))
    decreases |p|
  {
    var r := PathSegments(page, p, body, budget);
    assert Up(p, 0) == p;
    if budget > 0 && body != Some(p) && |p| > 0 {
      PathSegmentsStep(page, p, body, budget);
      var q := p[..|p| - 1];
      PathSegmentsStop(page, q, body, budget - 1);
      var rest := PathSegments(page, q, body, budget - 1);
      assert |r| == |rest| + 1;
      forall k | 0 < k < |r|
        ensures body != Some(Up(p, k))
      {
        UpStep(p, k);
      }
      UpStep(p, |r|);
    }
  }

  /** One step of the walk. */
  lemma PathSegmentsStep(page: Element, p: Path, body: Option<Path>, budget: nat)
    requires Valid(page, p) && |p| > 0 && budget > 0 && body != Some(p)
    ensures Valid(page, p[..|p| - 1])
    ensures PathSegments(page, p, body, budget) == PathSegments(page, p[..|p| - 1], body, budget - 1) + [Segment(page, p)]
  {
    ParentValid(page, p);
  }

  /** Pushing the segment of `cur` to the front of the collected `path` leaves
      the parent's walk still to do. */
  lemma PathSegmentsPush(page: Element, cur: Path, body: Option<Path>, path: seq<string>, whole: seq<string>)
    requires Valid(page, cur) && |cur| > 0 && |path| < 4 && body != Some(cur)
    requires whole == PathSegments(page, cur, body, 4 - |path|) + path
    ensures Valid(page, cur[..|cur| - 1])
    ensures whole == PathSegments(page, cur[..|cur| - 1], body, 4 - |path| - 1) + ([Segment(page, cur)] + path)
  {
    PathSegmentsStep(page, cur, body, 4 - |path|);
    var rest := PathSegments(page, cur[..|cur| - 1], body, 4 - |path| - 1);
    assert (rest + [Segment(page, cur)]) + path == rest + ([Segment(page, cur)] + path);
  }

  /** The walk as the script runs it: a loop that pushes segments to the front. */
  method SelectorPath(page: Element, p: Path, body: Option<Path>) returns (path: seq<string>)
    requires Valid(page, p)
    ensures path == PathSegments(page, p, body, 4)
  {
    path := [];
    var current := Some(p);
    while current.Some? && Some(current.value) != body && |path| < 4
      invariant current.Some? ==> Valid(page, current.value) && |path| <= 4
      invariant current.Some? ==> PathSegments(page, p, body, 4) == PathSegments(page, current.value, body, 4 - |path|) + path
      invariant current.None? ==> PathSegments(page, p, body, 4) == path
      decreases if current.Some? then |current.value| + 1 else 0
    {
      var cur := current.value;
      if |cur| > 0 {
        PathSegmentsPush(page, cur, body, path, PathSegments(page, p, body, 4));
        path := [Segment(page, cur)] + path;
        current := Some(cur[..|cur| - 1]);
      } else {
        PathSegmentsDone(page, cur, body, 4 - |path|);
        current := None;
      }
    }
    if current.Some? {
      PathSegmentsDone(page, current.value, body, 4 - |path|);
    }
  }

  /** The walk collects nothing at the body, at the root, or without budget. */
  lemma PathSegmentsDone(page: Element, p: Path, body: Option<Path>, budget: nat)
    requires Valid(page, p) && (budget == 0 || body == Some(p) || |p| == 0)
    ensures PathSegments(page, p, body, budget) == []
  {
  }

  /** The selector `generateSelector` settles on, case by case. */
  function SelectorOf(page: Element, p: Path): string
    requires Valid(page, p)
  {
    var e := Node(page, p);
    if Id(e) != "" then "#" + Id(e)
    else if ClassPicks(e) != [] then LowerTag(e) + "." + Join(ClassPicks(e), ".")
    else if DataPicks(e) != [] then LowerTag(e) + AttrSelectors(DataPicks(e))
    else
      var path := Join(PathSegments(page, p, BodyPath(page), 4), " > ");
      if path != "" then path else LowerTag(e)
  }

  /** `generateSelector(element)`: `#id` when the element has an id; otherwise
      the first candidate built among the class candidate, the data-attribute
      candidate and the path candidate, else the bare lower-case tag. */
  method GenerateSelector(page: Element, p: Path) returns (sel: string)
    requires Valid(page, p)
    ensures var e := Node(page, p);
      Id(e) != "" ==> sel == "#" + Id(e)
    ensures var e := Node(page, p);
      Id(e) == "" && ClassPicks(e) != [] ==> sel == LowerTag(e) + "." + Join(ClassPicks(e), ".")
    ensures var e := Node(page, p);
      Id(e) == "" && ClassPicks(e) == [] && DataPicks(e) != [] ==> sel == LowerTag(e) + AttrSelectors(DataPicks(e))
    ensures var e := Node(page, p); var path := PathSegments(page, p, BodyPath(page), 4);
      Id(e) == "" && ClassPicks(e) == [] && DataPicks(e) == [] && Join(path, " > ") != "" ==> sel == Join(path, " > ")
    ensures var e := Node(page, p); var path := PathSegments(page, p, BodyPath(page), 4);
      Id(e) == "" && ClassPicks(e) == [] && DataPicks(e) == [] && Join(path, " > ") == "" ==> sel == LowerTag(e)
    ensures sel == SelectorOf(page, p)
  {
    var e := Node(page, p);
    if Id(e) != "" {
      return "#" + Id(e);
    }
    var selectors: seq<string> := [];
    var classes := ClassPicks(e);
    if classes != [] {
      selectors := selectors + [LowerTag(e) + "." + Join(classes, ".")];
    }
    var data := DataPicks(e);
    if data != [] {
      selectors := selectors + [LowerTag(e) + AttrSelectors(data)];
    }
    var path := SelectorPath(page, p, BodyPath(page));
    if path != [] {
      selectors := selectors + [Join(path, " > ")];
    }
    sel := if selectors != [] && selectors[0] != "" then selectors[0] else LowerTag(e);
  }

  // ================================================================ containers

  /** The marker test of the card walk: card, item, product, menu or col-. */
  predicate IsMarker(c: string) {
    Contains(c, "card") || Contains(c, "item") || Contains(c, "product") || Contains(c, "menu") || Contains(c, "col-")
  }

  /** The classes the card walk may return: the marker test without "product". */
  predicate IsCardClass(c: string) {
    Contains(c, "card") || Contains(c, "item") || Contains(c, "menu") || Contains(c, "col-")
  }

  /** A child counts as a sibling of a card with classes `classes` when one of its
      classes contains "col-" or is also a class of the card. */
  predicate IsSiblingOf(child: Element, classes: seq<string>) {
    var cl := ClassList(child);
    exists k :: 0 <= k < |cl| && (Contains(cl[k], "col-") || cl[k] in classes)
  }

  /** Which children count as siblings. */
  function SiblingMask(cs: seq<Element>, classes: seq<string>): (r: seq<bool>)
    ensures |r| == |cs| && forall j :: 0 <= j < |cs| ==> (r[j] <==> IsSiblingOf(cs[j], classes))
  {
    seq(|cs|, j requires 0 <= j < |cs| => IsSiblingOf(cs[j], classes))
  }

  /** The number of children in `cs[..n]` that count as siblings: the length of
      the in-order list of those children. */
  function SiblingCount(cs: seq<Element>, n: nat, classes: seq<string>): (r: nat)
    requires n <= |cs|
    ensures r <= n
    ensures CountedAt(cs, SiblingMask(cs, classes), n, r)
  {
    if n == 0 then
      CountedNone(cs, SiblingMask(cs, classes));
      0
    else
      var c := SiblingCount(cs, n - 1, classes);
      var m := IsSiblingOf(cs[n - 1], classes);
      CountSnoc(cs, SiblingMask(cs, classes), n, c);
      c + (if m then 1 else 0)
  }

  /** One of the classes passes the marker test. */
  predicate HasMarker(classes: seq<string>) {
    exists k :: 0 <= k < |classes| && IsMarker(classes[k])
  }

  /** One of the classes is a card class. */
  predicate HasCardClass(classes: seq<string>) {
    exists k :: 0 <= k < |classes| && IsCardClass(classes[k])
  }

  /** The element at `p` has a marker class and a parent with at least two
      children that count as its siblings. */
  predicate CardTest(page: Element, p: Path) {
    Valid(page, p) && |p| > 0 && HasMarker(ClassList(Node(page, p))) && ParentSiblingCount(page, p) >= 2
  }

  /** How many children of the parent of `p` count as siblings of the element at `p`. */
  function ParentSiblingCount(page: Element, p: Path): nat
    requires Valid(page, p) && |p| > 0
  {
    ParentValid(page, p);
    var cs := Node(page, p[..|p| - 1]).children;
    SiblingCount(cs, |cs|, ClassList(Node(page, p)))
  }

  /** `classes[k]` is the first card class of the list. */
  predicate FirstCardClassAt(classes: seq<string>, k: int) {
    0 <= k < |classes| && IsCardClass(classes[k]) && forall j :: 0 <= j < k ==> !IsCardClass(classes[j])
  }

  /** `classes.find(IsCardClass)`. */
  function FirstCardClass(classes: seq<string>): (r: Option<string>)
    ensures r.Some? ==> IsCardClass(r.value) && exists k :: FirstCardClassAt(classes, k) && classes[k] == r.value
    ensures r.None? ==> forall k :: 0 <= k < |classes| ==> !IsCardClass(classes[k])
  {
    if |classes| == 0 then None
    else if IsCardClass(classes[0]) then Some(classes[0])
    else
      var r := FirstCardClass(classes[1..]);
      assert forall k :: 0 < k < |classes| ==> classes[k] == classes[1..][k - 1];
      r
  }

  /** The card class one step of the card walk finds at `p`: the element has a
      marker class, a parent with at least two children that count as siblings,
      and a card class; the class is the first card class of its list. */
  function CardAt(page: Element, p: Path): (r: Option<string>)
    ensures r.Some? ==> CardTest(page, p)
    ensures r.Some? ==> IsCardClass(r.value) && exists k :: FirstCardClassAt(ClassList(Node(page, p)), k) && ClassList(Node(page, p))[k] == r.value
    ensures CardTest(page, p) && HasCardClass(ClassList(Node(page, p))) ==> r.Some?
  {
    if !Valid(page, p) then None
    else
      var classes := ClassList(Node(page, p));
      if CardTest(page, p) then FirstCardClass(classes)
      else None
  }

  /** The first loop of `generateContainerSelector`, from `p` at step `level`:
      how many steps up, within `8 - level` steps, the nearest element is where
      `CardAt` finds a class, with that class. */
  function CardWalk(page: Element, p: Path, level: nat): (r: Option<(nat, string)>)
    ensures r.Some? ==> r.value.0 <= |p| && r.value.0 < 8 - level && CardAt(page, Up(p, r.value.0)) == Some(r.value.1)
    ensures r.Some? ==> forall j :: 0 <= j < r.value.0 ==> CardAt(page, Up(p, j)).None?
    ensures r.None? ==> forall j :: 0 <= j <= |p| && j < 8 - level ==> CardAt(page, Up(p, j)).None?
    decreases 8 - level
  {
    if level >= 8 then None
    else if CardAt(page, p).Some? then
      assert Up(p, 0) == p;
      Some((0, CardAt(page, p).value))
    else if |p| == 0 then
      assert Up(p, 0) == p;
      None
    else
      match CardWalk(page, Up(p, 1), level + 1)
      case Some((d, c)) =>
        CardWalkFound(page, p, d, c);
        Some((d + 1, c))
      case None =>
        CardWalkMissed(page, p, 8 - level);
        None
  }

  /** No card class on the way up from the parent for `d` steps, and none at
      `p`: none for `d + 1` steps from `p`. */
  lemma CardWalkFound(page: Element, p: Path, d: nat, c: string)
    requires |p| > 0 && d < |p| && CardAt(page, p).None?
    requires forall j :: 0 <= j < d ==> CardAt(page, Up(Up(p, 1), j)).None?
    requires CardAt(page, Up(Up(p, 1), d)) == Some(c)
    ensures forall j :: 0 <= j < d + 1 ==> CardAt(page, Up(p, j)).None?
    ensures CardAt(page, Up(p, d + 1)) == Some(c)
  {
    UpStep(p, d + 1);
    forall j | 0 <= j < d + 1 ensures CardAt(page, Up(p, j)).None? {
      UpStep(p, j);
    }
  }

  /** The same for every step within `n` when the parent's walk found none. */
  lemma CardWalkMissed(page: Element, p: Path, n: nat)
    requires |p| > 0 && n > 0 && CardAt(page, p).None?
    requires forall j :: 0 <= j <= |Up(p, 1)| && j < n - 1 ==> CardAt(page, Up(Up(p, 1), j)).None?
    ensures forall j :: 0 <= j <= |p| && j < n ==> CardAt(page, Up(p, j)).None?
  {
    forall j | 0 <= j <= |p| && j < n ensures CardAt(page, Up(p, j)).None? {
      UpStep(p, j);
    }
  }

  /** The layout test of the second loop: at least three children, and a grid or
      flex display or a row or grid class name. */
  predicate IsLayout(page: Element, p: Path) {
    Valid(page, p) &&
      var e := Node(page, p);
      |e.children| >= 3 &&
        (Contains(e.display, "grid") || Contains(e.display, "flex") || Contains(ClassName(e), "row") || Contains(ClassName(e), "grid"))
  }

  /** The second loop, from `p` at step `level`: how many steps up, within
      `5 - level` steps, the nearest element is that passes the layout test. */
  function LayoutWalk(page: Element, p: Path, level: nat): (r: Option<nat>)
    ensures r.Some? ==> (r.value <= |p| && r.value < 5 - level && IsLayout(page, Up(p, r.value))
      && forall j :: 0 <= j < r.value ==> !IsLayout(page, Up(p, j)))
    ensures r.None? ==> forall j :: 0 <= j <= |p| && j < 5 - level ==> !IsLayout(page, Up(p, j))
    decreases 5 - level
  {
    if level >= 5 then None
    else if IsLayout(page, p) then
      assert Up(p, 0) == p;
      Some(0)
    else if |p| == 0 then
      assert Up(p, 0) == p;
      None
    else
      match LayoutWalk(page, Up(p, 1), level + 1)
      case Some(d) =>
        assert forall j :: 0 <= j < d + 1 ==> !IsLayout(page, Up(p, j)) by {
          forall j | 0 <= j < d + 1 ensures !IsLayout(page, Up(p, j)) {
            UpStep(p, j);
          }
        }
        UpStep(p, d + 1);
        Some(d + 1)
      case None =>
        assert forall j :: 0 <= j <= |p| && j < 5 - level ==> !IsLayout(page, Up(p, j)) by {
          forall j | 0 <= j <= |p| && j < 5 - level ensures !IsLayout(page, Up(p, j)) {
            UpStep(p, j);
          }
        }
        None
  }

  /** The selector of a layout container: its tag, then its class name with each
      space turned into a dot. */
  function LayoutSelector(e: Element): string {
    LowerTag(e) + (if ClassName(e) != "" then "." + Join(Split(ClassName(e), ' '), ".") else "")
  }

  /** `generateContainerSelector(element)`: the card class the first walk finds,
      else the layout selector of what the second walk finds from the parent,
      else the element's tag. */
  function ContainerSelector(page: Element, p: Path): (r: string)
    requires Valid(page, p)
    ensures CardWalk(page, p, 0).Some? ==> r == "." + CardWalk(page, p, 0).value.1
    ensures CardWalk(page, p, 0).None? && |p| > 0 && LayoutWalk(page, Up(p, 1), 0).Some? ==>
      var d := LayoutWalk(page, Up(p, 1), 0).value;
      IsLayout(page, Up(Up(p, 1), d)) && r == LayoutSelector(Node(page, Up(Up(p, 1), d)))
    ensures CardWalk(page, p, 0).None? && (|p| == 0 || LayoutWalk(page, Up(p, 1), 0).None?) ==>
      r == LowerTag(Node(page, p))
  {
    match CardWalk(page, p, 0)
    case Some((_, c)) => "." + c
    case None =>
      if |p| == 0 then LowerTag(Node(page, p))
      else
        match LayoutWalk(page, Up(p, 1), 0)
        case Some(d) => LayoutSelector(Node(page, Up(Up(p, 1), d)))
        case None => LowerTag(Node(page, p))
  }

  /** A card selector names a card class (never a class that only mentions
      "product") of an ancestor-or-self at most seven steps up. */
  lemma CardSelectorIsCardClass(page: Element, p: Path)
    requires Valid(page, p) && CardWalk(page, p, 0).Some?
    ensures var (d, c) := CardWalk(page, p, 0).value;
      && ContainerSelector(page, p) == "." + c && d < 8 && d <= |p|
      && IsCardClass(c) && c in ClassList(Node(page, Up(p, d)))
  {
  }

  // ================================================================ similarity

  function Max(a: int, b: int): int {
    if a >= b then a else b
  }

  function Abs(a: int): nat {
    if a >= 0 then a else -a
  }

  /** `classes1.filter(cls => classes2.includes(cls)).length`. */
  function SharedCount(c1: seq<string>, c2: seq<string>): (r: nat)
    ensures r <= |c1|
  {
    if |c1| == 0 then 0 else (if c1[0] in c2 then 1 else 0) + SharedCount(c1[1..], c2)
  }

  /** Number of children of the parent of `p`. */
  function ParentChildCount(page: Element, p: Path): (r: nat)
    requires Valid(page, p) && |p| > 0
    ensures r > ChildIndex(p)
  {
    ParentValid(page, p);
    |Node(page, p[..|p| - 1]).children|
  }

  /** The class-overlap test, with `shared / max < 0.3` as `10 * shared < 3 * max`. */
  predicate ClassOverlapTooLow(c1: seq<string>, c2: seq<string>) {
    |c1| > 0 && |c2| > 0 && 10 * SharedCount(c1, c2) < 3 * Max(|c1|, |c2|)
  }

  /** The position test, with `1 - |i1 - i2| / max > 0.8` as `5 * |i1 - i2| < max`. */
  predicate PositionClose(i1: nat, i2: nat, n1: nat, n2: nat) {
    5 * Abs(i1 - i2) < Max(n1, n2)
  }

  /** `isStructurallySimilar(element1, element2)`. */
  function IsStructurallySimilar(page: Element, p1: Path, p2: Path): (r: bool)
    requires Valid(page, p1) && Valid(page, p2)
    ensures r ==> Node(page, p1).tag == Node(page, p2).tag
    ensures r ==> !ClassOverlapTooLow(ClassList(Node(page, p1)), ClassList(Node(page, p2)))
    ensures |p1| == 0 || |p2| == 0 ==>
      (r <==> Node(page, p1).tag == Node(page, p2).tag && !ClassOverlapTooLow(ClassList(Node(page, p1)), ClassList(Node(page, p2))))
    ensures |p1| > 0 && |p2| > 0 ==>
      (r <==> && Node(page, p1).tag == Node(page, p2).tag
              && !ClassOverlapTooLow(ClassList(Node(page, p1)), ClassList(Node(page, p2)))
              && PositionClose(ChildIndex(p1), ChildIndex(p2), ParentChildCount(page, p1), ParentChildCount(page, p2)))
  {
    var e1 := Node(page, p1);
    var e2 := Node(page, p2);
    if e1.tag != e2.tag then false
    else if ClassOverlapTooLow(ClassList(e1), ClassList(e2)) then false
    else if |p1| > 0 && |p2| > 0 then
      PositionClose(ChildIndex(p1), ChildIndex(p2), ParentChildCount(page, p1), ParentChildCount(page, p2))
    else true
  }

  lemma ScaleLess(x: real, a: real, m: real)
    requires m > 0.0
    ensures x < a <==> x * m < a * m
  {
    if x < a {
      assert (a - x) * m > 0.0;
    } else {
      assert (x - a) * m >= 0.0;
    }
  }

  /** Comparing two fractions by cross-multiplying. */
  lemma FractionLess(x: real, m: real, p: real, q: real)
    requires m > 0.0 && q > 0.0
    ensures x / m < p / q <==> x * q < p * m
  {
    var k := m * q;
    assert k > 0.0;
    ScaleLess(x / m, p / q, k);
    assert (x / m) * k == x * q;
    assert (p / q) * k == p * m;
  }

  /** The integer forms agree with the fractions the script computes. */
  lemma ThresholdsAgree(shared: nat, d: nat, m: nat)
    requires m > 0
    ensures 10 * shared < 3 * m <==> (shared as real) / (m as real) < 0.3
    ensures 5 * d < m <==> 1.0 - (d as real) / (m as real) > 0.8
  {
    FractionLess(shared as real, m as real, 3.0, 10.0);
    assert 3.0 / 10.0 == 0.3;
    FractionLess(d as real, m as real, 1.0, 5.0);
    assert 1.0 / 5.0 == 0.2;
  }

  /** The test as the script computes it, on fractions: equal tags; when both
      elements have classes, a shared share of at least 0.3 of the longer class
      list; when both have parents, a position similarity above 0.8. */
  predicate SimilarByFractions(page: Element, p1: Path, p2: Path)
    requires Valid(page, p1) && Valid(page, p2)
  {
    var c1 := ClassList(Node(page, p1));
    var c2 := ClassList(Node(page, p2));
    && Node(page, p1).tag == Node(page, p2).tag
    && (|c1| > 0 && |c2| > 0 ==> !((SharedCount(c1, c2) as real) / (Max(|c1|, |c2|) as real) < 0.3))
    && (|p1| > 0 && |p2| > 0 ==>
          1.0 - (Abs(ChildIndex(p1) - ChildIndex(p2)) as real) / (Max(ParentChildCount(page, p1), ParentChildCount(page, p2)) as real) > 0.8)
  }

  /** The integer thresholds decide exactly as the script's fractions do. */
  lemma SimilarAgreesWithFractions(page: Element, p1: Path, p2: Path)
    requires Valid(page, p1) && Valid(page, p2)
    ensures IsStructurallySimilar(page, p1, p2) <==> SimilarByFractions(page, p1, p2)
  {
    var c1 := ClassList(Node(page, p1));
    var c2 := ClassList(Node(page, p2));
    if |c1| > 0 && |c2| > 0 {
      ThresholdsAgree(SharedCount(c1, c2), 0, Max(|c1|, |c2|));
    }
    if |p1| > 0 && |p2| > 0 {
      ThresholdsAgree(0, Abs(ChildIndex(p1) - ChildIndex(p2)), Max(ParentChildCount(page, p1), ParentChildCount(page, p2)));
    }
  }

  lemma {:induction false} SharedWithSelf(c: seq<string>)
    ensures SharedCount(c, c) == |c|
  {
    SharedWithSuperset(c, c);
  }

  lemma {:induction false} SharedWithSuperset(c1: seq<string>, c2: seq<string>)
    requires forall x :: x in c1 ==> x in c2
    ensures SharedCount(c1, c2) == |c1|
  {
    if |c1| > 0 {
      SharedWithSuperset(c1[1..], c2);
    }
  }

  /** Every element is structurally similar to itself. */
  lemma SimilarToItself(page: Element, p: Path)
    requires Valid(page, p)
    ensures IsStructurallySimilar(page, p, p)
  {
    SharedWithSelf(ClassList(Node(page, p)));
  }

  /** Two adjacent siblings with the same tag and classes are similar exactly when
      their parent has at least six children. */
  lemma AdjacentSiblings(page: Element, parent: Path, i: nat)
    requires Valid(page, parent) && i + 1 < |Node(page, parent).children|
    requires Node(page, parent).children[i].tag == Node(page, parent).children[i + 1].tag
    requires ClassList(Node(page, parent).children[i]) == ClassList(Node(page, parent).children[i + 1])
    ensures Valid(page, parent + [i]) && Valid(page, parent + [i + 1])
    ensures IsStructurallySimilar(page, parent + [i], parent + [i + 1]) <==> |Node(page, parent).children| >= 6
  {
    AtAppend(page, parent, i);
    AtAppend(page, parent, i + 1);
    assert (parent + [i])[..|parent + [i]| - 1] == parent;
    assert (parent + [i + 1])[..|parent + [i + 1]| - 1] == parent;
    SharedWithSelf(ClassList(Node(page, parent).children[i]));
  }

  // ================================================================ replay lookup

  /** `selector.split(" ").pop()`. */
  function LastWord(s: string): string {
    var parts := Split(s, ' ');
    parts[|parts| - 1]
  }

  /** An element of the page with the tag of `ref` (up to case, as the type
      selector matches) that is structurally similar to `ref`. */
  predicate SimilarCandidate(page: Element, p: Path, ref: Path)
    requires Valid(page, ref)
  {
    Valid(page, p) && Lower(Node(page, p).tag) == Lower(Node(page, ref).tag) && IsStructurallySimilar(page, p, ref)
  }

  /** `ps[k]` is the first of `ps` that is a similar candidate for `ref`. */
  predicate FirstSimilarAt(page: Element, ps: seq<Path>, ref: Path, k: int)
    requires Valid(page, ref)
  {
    0 <= k < |ps| && SimilarCandidate(page, ps[k], ref) && forall j :: 0 <= j < k ==> !SimilarCandidate(page, ps[j], ref)
  }

  /** The first of `ps` that is a similar candidate for `ref`. */
  function FirstSimilar(page: Element, ps: seq<Path>, ref: Path): (r: Option<Path>)
    requires Valid(page, ref)
    ensures r.Some? ==> r.value in ps && SimilarCandidate(page, r.value, ref)
    ensures r.Some? ==> exists k :: FirstSimilarAt(page, ps, ref, k) && ps[k] == r.value
    ensures r.None? ==> forall k :: 0 <= k < |ps| ==> !SimilarCandidate(page, ps[k], ref)
  {
    if |ps| == 0 then None
    else if SimilarCandidate(page, ps[0], ref) then
      assert FirstSimilarAt(page, ps, ref, 0);
      Some(ps[0])
    else
      var rest := FirstSimilar(page, ps[1..], ref);
      if rest.Some? then
        FirstSimilarShift(page, ps, ref, rest.value);
        rest
      else
        assert forall k :: 1 <= k < |ps| ==> ps[k] == ps[1..][k - 1];
        rest
  }

  /** A first similar candidate of the tail is one of the whole list when its
      head is no candidate. */
  lemma FirstSimilarShift(page: Element, ps: seq<Path>, ref: Path, v: Path)
    requires Valid(page, ref) && |ps| > 0 && !SimilarCandidate(page, ps[0], ref)
    requires exists k :: FirstSimilarAt(page, ps[1..], ref, k) && ps[1..][k] == v
    ensures v in ps
    ensures exists k :: FirstSimilarAt(page, ps, ref, k) && ps[k] == v
  {
    var k :| FirstSimilarAt(page, ps[1..], ref, k) && ps[1..][k] == v;
    assert forall j :: 1 <= j <= k ==> ps[j] == ps[1..][j - 1];
    assert FirstSimilarAt(page, ps, ref, k + 1);
  }

  lemma MatchesIsValid(page: Element, p: Path, sel: Selector)
    requires Matches(page, p, sel)
    ensures Valid(page, p)
  {
  }

  /** `findSimilarElementInContainer(container, templateInfo)`: the first
      descendant matching the last word of the template's selector; when that
      word is not a selector or matches nothing, the first descendant of the
      template element's tag that is structurally similar to it. */
  function FindInContainer(page: Element, container: Path, b: Binding): (r: Option<Path>)
    requires Valid(page, container) && Valid(page, b.element)
    ensures r.Some? ==> Valid(page, r.value) && r.value in Descendants(page, container)
    ensures var exact := QuerySelector(page, container, LastWord(b.selector));
      exact.Some? && exact.value.Some? ==> r == exact.value
    ensures var exact := QuerySelector(page, container, LastWord(b.selector));
      r.Some? && !(exact.Some? && exact.value.Some?) ==> IsStructurallySimilar(page, r.value, b.element)
    ensures var exact := QuerySelector(page, container, LastWord(b.selector));
      !(exact.Some? && exact.value.Some?) ==> r == FirstSimilar(page, Descendants(page, container), b.element)
    ensures var exact := QuerySelector(page, container, LastWord(b.selector));
      var d := Descendants(page, container);
      r.None? <==> !(exact.Some? && exact.value.Some?) && forall k :: 0 <= k < |d| ==> !SimilarCandidate(page, d[k], b.element)
  {
    match QuerySelector(page, container, LastWord(b.selector))
    case Some(Some(q)) =>
      MatchesIsValid(page, q, Parse(LastWord(b.selector)).value);
      Some(q)
    case _ => FirstSimilar(page, Descendants(page, container), b.element)
  }

  // ================================================================ duplicates

  /** Both titles are present and equal after lower-casing and trimming. */
  predicate TitleMatch(a: Item, b: Item) {
    && Has(a, "title") && Has(b, "title") && a["title"].Str? && b["title"].Str?
    && Trim(Lower(a["title"].s)) == Trim(Lower(b["title"].s))
  }

  /** Both records hold the same truthy value under `key`. */
  predicate SameTruthy(a: Item, b: Item, key: string) {
    Has(a, key) && Has(b, key) && a[key] == b[key]
  }

  /** The duplicate rule: the same title, or the same image and the same price. */
  predicate DupOf(existing: Item, item: Item) {
    TitleMatch(existing, item) || (SameTruthy(existing, item, "image") && SameTruthy(existing, item, "price"))
  }

  lemma DupOfSymmetric(a: Item, b: Item)
    ensures DupOf(a, b) <==> DupOf(b, a)
  {
  }

  /** `isDuplicate(item)` against the records extracted so far. */
  function IsDuplicate(data: seq<Item>, item: Item): (r: bool)
    ensures r <==> exists k :: 0 <= k < |data| && DupOf(data[k], item)
  {
    if |data| == 0 then false
    else
      var rest := IsDuplicate(data[1..], item);
      DuplicateStep(data, item, rest);
      DupOf(data[0], item) || rest
  }

  lemma DuplicateStep(data: seq<Item>, item: Item, rest: bool)
    requires |data| > 0
    requires rest <==> exists k :: 0 <= k < |data[1..]| && DupOf(data[1..][k], item)
    ensures (DupOf(data[0], item) || rest) <==> exists k :: 0 <= k < |data| && DupOf(data[k], item)
  {
    if rest {
      var k :| 0 <= k < |data[1..]| && DupOf(data[1..][k], item);
      assert data[k + 1] == data[1..][k];
    }
    if exists k :: 0 <= k < |data| && DupOf(data[k], item) {
      var k :| 0 <= k < |data| && DupOf(data[k], item);
      if k > 0 {
        assert data[1..][k - 1] == data[k];
      }
    }
  }
}
