/** The heuristics of the webview extraction script (`src/preload/webviewPreload.js`),
    a separate copy of the full script's that has drifted from it: the image rule
    always gives a string and falls back to a child image when a background's
    `url(...)` does not parse, the price tries its patterns in another order and
    falls back to the raw text, and the selector is a path of bare tags. */
module WebviewEngine {
  import opened Wrappers
  import opened Text
  import opened Dom
  import opened Patterns
  import opened Extraction
  import opened BrowserEngine

  // ================================================================ values

  /** `img.src || img.getAttribute("data-src") || img.getAttribute("data-lazy") || ""`. */
  function ImageChain(e: Element): (r: string)
    ensures IsFirstNonEmpty(r, [AttrOr(e, "src"), AttrOr(e, "data-src"), AttrOr(e, "data-lazy")])
  {
    FirstNonEmpty([AttrOr(e, "src"), AttrOr(e, "data-src"), AttrOr(e, "data-lazy")])
  }

  /** The "From", "Starting at" and "Price:" pattern, its currency optional. */
  const KeywordPrice: Pattern := Keyword(["From", "Starting at", "Price:"], true)

  /** The price rule on the element's trimmed text: the first match of the
      currency-first pattern, else of the number-then-currency pattern, else
      of the keyword pattern, trimmed; the text itself when none matches. */
  function WebPrice(curs: seq<Currency>, text: string): (r: string)
    ensures r == text || IsInfix(r, text)
  {
    match FirstMatch(CurrencyFirst, curs, text)
    case Some(m) => TrimmedInfix(m, text); Trim(m)
    case None =>
      match FirstMatch(NumberFirst, curs, text)
      case Some(m) => TrimmedInfix(m, text); Trim(m)
      case None =>
        match FirstMatch(KeywordPrice, curs, text)
        case Some(m) => TrimmedInfix(m, text); Trim(m)
        case None => text
  }

  /** `extractValue(element, type)`: always a string. */
  function WebExtractValue(page: Element, p: Path, field: string): (r: string)
    requires Valid(page, p)
    ensures field == "image" && Node(page, p).tag == "IMG" ==> r == ImageChain(Node(page, p))
    ensures field == "price" ==> r == Trim(TextContent(Node(page, p))) || IsInfix(r, Trim(TextContent(Node(page, p))))
  {
    var e := Node(page, p);
    if field == "image" then
      if e.tag == "IMG" then ImageChain(e)
      else if HasBackground(e) && UrlCapture(e.backgroundImage, 0).Some? then UrlCapture(e.backgroundImage, 0).value
      else match FirstImg(page, p)
        case Some(q) => ImageChain(Node(page, q))
        case None => ""
    else if field == "title" then
      FirstNonEmpty([AttrOr(e, "title"), Alt(e), Trim(TextContent(e)), AttrOr(e, "aria-label")])
    else if field == "description" then
      FirstNonEmpty([Trim(TextContent(e)), AttrOr(e, "data-description"), AttrOr(e, "aria-description")])
    else if field == "price" then
      WebPrice(Currencies, Trim(TextContent(e)))
    else
      FirstNonEmpty([Trim(TextContent(e)), e.value])
  }

  /** An image element without any of its three sources gives "". */
  lemma ImageWithoutSource(page: Element, p: Path)
    requires Valid(page, p) && Node(page, p).tag == "IMG"
    requires AttrOr(Node(page, p), "src") == "" && AttrOr(Node(page, p), "data-src") == "" && AttrOr(Node(page, p), "data-lazy") == ""
    ensures WebExtractValue(page, p, "image") == ""
  {
  }

  /** Any other element: the `url(...)` of its background when that parses,
      else the first image below it, else "". A background whose `url(...)`
      does not parse does not stop the search. */
  lemma ImageOfOtherElement(page: Element, p: Path)
    requires Valid(page, p) && Node(page, p).tag != "IMG"
    ensures var e := Node(page, p);
      HasBackground(e) && UrlCapture(e.backgroundImage, 0).Some? ==>
        WebExtractValue(page, p, "image") == UrlCapture(e.backgroundImage, 0).value
    ensures var e := Node(page, p);
      !(HasBackground(e) && UrlCapture(e.backgroundImage, 0).Some?) && FirstImg(page, p).Some? ==>
        WebExtractValue(page, p, "image") == ImageChain(Node(page, FirstImg(page, p).value))
    ensures var e := Node(page, p);
      !(HasBackground(e) && UrlCapture(e.backgroundImage, 0).Some?) && FirstImg(page, p).None? ==>
        WebExtractValue(page, p, "image") == ""
  {
  }

  /** The title: the `title` attribute, the `alt` text, the trimmed text, then
      `aria-label`. */
  lemma WebExtractTitle(page: Element, p: Path)
    requires Valid(page, p)
    ensures var e := Node(page, p);
      IsFirstNonEmpty(WebExtractValue(page, p, "title"),
        [AttrOr(e, "title"), Alt(e), Trim(TextContent(e)), AttrOr(e, "aria-label")])
  {
  }

  /** The description: the trimmed text, then `data-description`, then
      `aria-description`. */
  lemma WebExtractDescription(page: Element, p: Path)
    requires Valid(page, p)
    ensures var e := Node(page, p);
      IsFirstNonEmpty(WebExtractValue(page, p, "description"),
        [Trim(TextContent(e)), AttrOr(e, "data-description"), AttrOr(e, "aria-description")])
  {
  }

  /** Any other field: the trimmed text, else the element's `value`. */
  lemma WebExtractOther(page: Element, p: Path, field: string)
    requires Valid(page, p) && field !in {"image", "title", "description", "price"}
    ensures var e := Node(page, p);
      IsFirstNonEmpty(WebExtractValue(page, p, field), [Trim(TextContent(e)), e.value])
  {
  }

  // ---------------------------------------------------------------- price lemmas

  lemma KeywordPriceWellFormed()
    ensures WellFormedPattern(KeywordPrice)
  {
    var words := KeywordPrice.words;
    forall k | 0 <= k < |words|
      ensures |words[k]| > 0 && !IsSpace(words[k][0]) && !IsSpace(words[k][|words[k]| - 1])
    {
      assert words[k] in ["From", "Starting at", "Price:"];
    }
  }

  /** A first match is never blank. */
  lemma FirstMatchNotBlank(pat: Pattern, curs: seq<Currency>, s: string)
    requires FirstMatch(pat, curs, s).Some?
    ensures Trim(FirstMatch(pat, curs, s).value) != ""
  {
    var (a, b) := Search(pat, curs, s, 0).value;
    MatchTrimNonEmpty(pat, curs, s, a);
  }

  /** With the fallback to the text itself, a text that is not empty never
      gives an empty price. */
  lemma WebPriceNotEmpty(curs: seq<Currency>, text: string)
    requires text != ""
    ensures WebPrice(curs, text) != ""
  {
    if FirstMatch(CurrencyFirst, curs, text).Some? {
      FirstMatchNotBlank(CurrencyFirst, curs, text);
    } else if FirstMatch(NumberFirst, curs, text).Some? {
      FirstMatchNotBlank(NumberFirst, curs, text);
    } else if FirstMatch(KeywordPrice, curs, text).Some? {
      FirstMatchNotBlank(KeywordPrice, curs, text);
    }
  }

  /** The order of the patterns: the price is the currency-first match, else
      the number-then-currency match, else the keyword match, each exactly as
      matched, else the whole text. */
  lemma WebPriceOrder(curs: seq<Currency>, text: string)
    requires WellFormedCurrencies(curs)
    ensures FirstMatch(CurrencyFirst, curs, text).Some? ==>
      WebPrice(curs, text) == FirstMatch(CurrencyFirst, curs, text).value
    ensures FirstMatch(CurrencyFirst, curs, text).None? && FirstMatch(NumberFirst, curs, text).Some? ==>
      WebPrice(curs, text) == FirstMatch(NumberFirst, curs, text).value
    ensures (FirstMatch(CurrencyFirst, curs, text).None? && FirstMatch(NumberFirst, curs, text).None? &&
      FirstMatch(KeywordPrice, curs, text).Some?) ==>
      WebPrice(curs, text) == FirstMatch(KeywordPrice, curs, text).value
    ensures (FirstMatch(CurrencyFirst, curs, text).None? && FirstMatch(NumberFirst, curs, text).None? &&
      FirstMatch(KeywordPrice, curs, text).None?) ==>
      WebPrice(curs, text) == text
  {
    if FirstMatch(CurrencyFirst, curs, text).Some? {
      FirstMatchIsTrimmed(CurrencyFirst, curs, text);
    } else if FirstMatch(NumberFirst, curs, text).Some? {
      FirstMatchIsTrimmed(NumberFirst, curs, text);
    } else if FirstMatch(KeywordPrice, curs, text).Some? {
      KeywordPriceWellFormed();
      FirstMatchIsTrimmed(KeywordPrice, curs, text);
    }
  }

  /** An element whose trimmed text is not empty never gives an empty price. */
  lemma WebPriceOfElement(page: Element, p: Path)
    requires Valid(page, p) && !AllSpace(TextContent(Node(page, p)))
    ensures WebExtractValue(page, p, "price") != ""
  {
    var text := Trim(TextContent(Node(page, p)));
    assert text != "";
    WebPriceNotEmpty(Currencies, text);
    PriceField(page, p);
  }

  lemma PriceField(page: Element, p: Path)
    requires Valid(page, p)
    ensures WebExtractValue(page, p, "price") == WebPrice(Currencies, Trim(TextContent(Node(page, p))))
  {
    var field := "price";
    assert field != "image" by { assert field[0] != "image"[0]; }
    assert field != "title" by { assert field[0] != "title"[0]; }
    assert field != "description" by { assert field[0] != "description"[0]; }
    assert field == "price";
  }

  // ---------------------------------------------------------------- mis-encoded symbols

  /** The currency group as the script's source spells it. Its UTF-8 symbols
      were read back as Windows-1252 text, so `₹` became the three characters
      `â‚¹` and the class `[\$€£¥₽₩￥]` became a class of the single characters
      `$ â ‚ ¬ Â £ ¥ ½ © ï ¿`. */
  const WebCurrencies: seq<Currency> := [
    Currency("Rs", true), Currency("PKR", false), Currency("\U{E2}\U{201A}\U{B9}", false),
    Currency("$", false), Currency("\U{E2}", false), Currency("\U{201A}", false),
    Currency("\U{AC}", false), Currency("\U{C2}", false), Currency("\U{A3}", false),
    Currency("\U{A5}", false), Currency("\U{BD}", false), Currency("\U{A9}", false),
    Currency("\U{EF}", false), Currency("\U{BF}", false)]

  /** The euro sign. */
  const Euro: char := '\U{20AC}'

  /** A price text with the euro sign. */
  const EuroText: string := [Euro, '5', ' ', 'x']

  /** No alternative of the mis-encoded group matches anywhere in `EuroText`. */
  lemma EuroTextHasNoWebToken(i: nat)
    ensures forall j :: 0 <= j < |WebCurrencies| ==> !WordAt(EuroText, i, WebCurrencies[j].token)
  {
    forall j | 0 <= j < |WebCurrencies|
      ensures !WordAt(EuroText, i, WebCurrencies[j].token)
    {
      var t := WebCurrencies[j].token;
      assert |t| > 0 && t[0] in {'R', 'P', '$', '\U{E2}', '\U{201A}', '\U{AC}', '\U{C2}', '\U{A3}', '\U{A5}', '\U{BD}', '\U{A9}', '\U{EF}', '\U{BF}'};
      NotWordAt(EuroText, i, t);
    }
  }

  /** The characters of `EuroText`. */
  lemma EuroTextChars(i: nat)
    requires i < |EuroText|
    ensures EuroText[i] in {Euro, '5', ' ', 'x'}
  {
  }

  /** The currency-first pattern of the script as written matches nowhere in `EuroText`. */
  lemma NoWebCurrencyAt(i: nat)
    ensures MatchAt(CurrencyFirst, WebCurrencies, EuroText, i).None?
  {
    EuroTextHasNoWebToken(i);
    NoTokenAt(WebCurrencies, EuroText, i, 0);
  }

  /** Nor does its number-then-currency pattern: the one amount, "5", is
      followed by a space and "x". */
  lemma NoWebNumberAt(i: nat)
    requires i <= |EuroText|
    ensures MatchAt(NumberFirst, WebCurrencies, EuroText, i).None?
  {
    var s := EuroText;
    if i == 1 {
      assert NumEnd(s, 2) == 2 && DecimalEnd(s, 2) == 2 && SpaceEnd(s, 2) == 3;
      EuroTextHasNoWebToken(3);
      NoTokenAt(WebCurrencies, s, 3, 0);
    } else if i < |s| {
      EuroTextChars(i);
      assert s[i] != '5';
    }
  }

  /** Nor its keyword pattern: no position starts "From", "Starting at" or "Price:". */
  lemma NoWebKeywordAt(i: nat)
    requires i <= |EuroText|
    ensures MatchAt(KeywordPrice, WebCurrencies, EuroText, i).None?
  {
    var s := EuroText;
    if i < |s| {
      EuroTextChars(i);
    }
    NotWordAt(s, i, "From");
    NotWordAt(s, i, "Starting at");
    NotWordAt(s, i, "Price:");
  }

  /** As written, the script does not know the euro sign: "€5 x" matches none
      of the three patterns and the whole text becomes the price. */
  lemma WebPriceMisencoded()
    ensures WebPrice(WebCurrencies, EuroText) == EuroText
  {
    var s := EuroText;
    forall i | 0 <= i <= |s|
      ensures MatchAt(CurrencyFirst, WebCurrencies, s, i).None?
      ensures MatchAt(NumberFirst, WebCurrencies, s, i).None?
      ensures MatchAt(KeywordPrice, WebCurrencies, s, i).None?
    {
      NoWebCurrencyAt(i);
      NoWebNumberAt(i);
      NoWebKeywordAt(i);
    }
    assert Search(CurrencyFirst, WebCurrencies, s, 0).None?;
    assert Search(NumberFirst, WebCurrencies, s, 0).None?;
    assert Search(KeywordPrice, WebCurrencies, s, 0).None?;
  }

  /** The euro sign followed by "5" is where the intended currency-first
      pattern matches in `EuroText`. */
  lemma EuroAmountAt()
    ensures CurrencyAmountAt(Currencies, EuroText, 0, 0) == Some(2)
  {
    var s := EuroText;
    forall k | 0 <= k < 4
      ensures TokenEnd(s, 0, Currencies[k]).None?
    {
      NotWordAt(s, 0, Currencies[k].token);
    }
    assert WordAt(s, 0, Currencies[4].token);
    assert TokenEnd(s, 0, Currencies[4]) == Some(1);
    assert SpaceEnd(s, 1) == 1;
    assert NumEnd(s, 1) == 2 by { assert NumEnd(s, 2) == 2; }
    assert AmountAt(s, 1) == Some(2) by { assert DecimalEnd(s, 2) == 2; }
    var m := CurrencyAmountAt(Currencies, s, 0, 4);
    assert m == Some(2);
    assert CurrencyAmountAt(Currencies, s, 0, 3) == m;
    assert CurrencyAmountAt(Currencies, s, 0, 2) == m;
    assert CurrencyAmountAt(Currencies, s, 0, 1) == m;
  }

  /** With the symbols the script means, "€5 x" gives "€5". */
  lemma WebPriceFindsEuro()
    ensures WebPrice(Currencies, EuroText) == [Euro, '5']
  {
    var s := EuroText;
    EuroAmountAt();
    assert MatchAt(CurrencyFirst, Currencies, s, 0) == Some(2);
    assert Search(CurrencyFirst, Currencies, s, 0) == Some((0, 2));
    assert s[0..2] == [Euro, '5'];
    TrimOfTrimmed([Euro, '5']);
  }

  // ================================================================ selectors

  /** The tags the walk of `generateSelector` collects from `p` upwards: one per
      ancestor-or-self, the document element included, stopping at `body` or
      after `budget` tags, listed outermost first. */
  function TagPath(page: Element, p: Path, body: Option<Path>, budget: nat): (r: seq<string>)
    requires Valid(page, p)
    ensures |r| <= budget && |r| <= |p| + 1
    decreases |p|
  {
    if budget == 0 || body == Some(p) then []
    else if |p| == 0 then [LowerTag(Node(page, p))]
    else
      ParentValid(page, p);
      TagPath(page, p[..|p| - 1], body, budget - 1) + [LowerTag(Node(page, p))]
  }

  /** The tag of the ancestor `k` steps up from `p`. */
  function TagUp(page: Element, p: Path, k: nat): string
    requires Valid(page, p) && k <= |p|
  {
    UpValid(page, p);
    LowerTag(Node(page, Up(p, k)))
  }

  /** Going up `j + 1` levels from `p` is going up `j` levels from its parent. */
  lemma TagUpParent(page: Element, p: Path, j: nat)
    requires Valid(page, p) && j < |p|
    ensures Valid(page, p[..|p| - 1])
    ensures TagUp(page, p, j + 1) == TagUp(page, p[..|p| - 1], j)
  {
    ParentValid(page, p);
    UpStep(p, j + 1);
    UpValid(page, p[..|p| - 1]);
  }

  /** The walk lists the tags of the element and of its ancestors in turn,
      outermost first; none of them is the body, and it stops only at the body,
      past the document element, or once it holds `budget` tags. */
  lemma TagPathShape(page: Element, p: Path, body: Option<Path>, budget: nat)
    requires Valid(page, p)
    ensures var r := TagPath(page, p, body, budget);
      && (forall k :: 0 <= k < |r| ==> r[k] == TagUp(page, p, |r| - 1 - k))
      && (forall k :: 0 <= k < |r| ==> body != Some(Up(p, k)))
      && (|r| == budget || |r| == |p| + 1 || body == Some(Up(p, |r|)))
  {
    TagPathTags(page, p, body, budget);
    TagPathStops(page, p, body, budget);
  }

  /** The k-th tag from the end is that of the k-th ancestor. */
  lemma {:induction false} TagPathTags(page: Element, p: Path, body: Option<Path>, budget: nat)
    requires Valid(page, p)
    ensures forall k :: 0 <= k < |TagPath(page, p, body, budget)| ==>
      TagPath(page, p, body, budget)[k] == TagUp(page, p, |TagPath(page, p, body, budget)| - 1 - k)
    decreases |p|
  {
    var r := TagPath(page, p, body, budget);
    assert Up(p, 0) == p;
    UpValid(page, p);
    if budget > 0 && body != Some(p) && |p| > 0 {
      ParentValid(page, p);
      var q := p[..|p| - 1];
      TagPathTags(page, q, body, budget - 1);
      var rest := TagPath(page, q, body, budget - 1);
      assert r == rest + [LowerTag(Node(page, p))];
      forall k | 0 <= k < |rest|
        ensures r[k] == TagUp(page, p, |r| - 1 - k)
      {
        TagUpParent(page, p, |rest| - 1 - k);
        assert r[k] == rest[k];
      }
    }
  }

  /** No collected tag is the body's, and the walk stops only at the body,
      past the document element, or once it holds `budget` tags. */
  lemma {:induction false} TagPathStops(page: Element, p: Path, body: Option<Path>, budget: nat)
    requires Valid(page, p)
    ensures var r := TagPath(page, p, body, budget);
      && (forall k :: 0 <= k < |r| ==> body != Some(Up(p, k)))
      && (|r| == budget || |r| == |p| + 1 || body == Some(Up(p, |r|)))
    decreases |p|
  {
    var r := TagPath(page, p, body, budget);
    assert Up(p, 0) == p;
    if budget > 0 && body != Some(p) && |p| > 0 {
      ParentValid(page, p);
      var q := p[..|p| - 1];
      TagPathStops(page, q, body, budget - 1);
      var rest := TagPath(page, q, body, budget - 1);
      assert |r| == |rest| + 1;
      forall i | 0 < i < |r| ensures body != Some(Up(p, i)) {
        UpStep(p, i);
      }
      if |r| <= |p| {
        UpStep(p, |r|);
      }
    }
  }

  /** The walk as the script runs it: a loop that pushes tags to the front. */
  method TagSelectorPath(page: Element, p: Path, body: Option<Path>) returns (path: seq<string>)
    requires Valid(page, p)
    ensures path == TagPath(page, p, body, 4)
  {
    path := [];
    var current := Some(p);
    while current.Some? && Some(current.value) != body && |path| < 4
      invariant current.Some? ==> Valid(page, current.value) && |path| <= 4
      invariant current.Some? ==> TagPath(page, p, body, 4) == TagPath(page, current.value, body, 4 - |path|) + path
      invariant current.None? ==> TagPath(page, p, body, 4) == path
      decreases if current.Some? then |current.value| + 1 else 0
    {
      var cur := current.value;
      var tag := LowerTag(Node(page, cur));
      if |cur| > 0 {
        ParentValid(page, cur);
        var parent := cur[..|cur| - 1];
        var rest := TagPath(page, parent, body, 4 - |path| - 1);
        assert TagPath(page, p, body, 4) == rest + ([tag] + path) by {
          assert (rest + [tag]) + path == rest + ([tag] + path);
        }
        current := Some(parent);
      } else {
        current := None;
      }
      path := [tag] + path;
    }
  }

  /** `generateSelector(element)`: `#id` when the element has an id, otherwise
      the tag path joined by " > ". The class candidate the script builds is
      never returned. */
  method WebGenerateSelector(page: Element, p: Path) returns (sel: string)
    requires Valid(page, p)
    ensures Id(Node(page, p)) != "" ==> sel == "#" + Id(Node(page, p))
    ensures Id(Node(page, p)) == "" ==> sel == Join(TagPath(page, p, BodyPath(page), 4), " > ")
    ensures sel == WebSelectorOf(page, p)
  {
    var e := Node(page, p);
    if Id(e) != "" {
      return "#" + Id(e);
    }
    var path := TagSelectorPath(page, p, BodyPath(page));
    sel := Join(path, " > ");
  }

  /** What `generateSelector` returns, as a formula. */
  function WebSelectorOf(page: Element, p: Path): string
    requires Valid(page, p)
  {
    if Id(Node(page, p)) != "" then "#" + Id(Node(page, p)) else Join(TagPath(page, p, BodyPath(page), 4), " > ")
  }

  /** The body element without an id gets the empty selector. */
  lemma BodyHasEmptySelector(page: Element)
    requires BodyPath(page).Some?
    ensures TagPath(page, BodyPath(page).value, BodyPath(page), 4) == []
    ensures Join(TagPath(page, BodyPath(page).value, BodyPath(page), 4), " > ") == ""
  {
  }
}
