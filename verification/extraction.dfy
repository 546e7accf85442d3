/** What the two preload scripts share: the values stored in extracted records,
    the template of bound fields, the page environment, and the JavaScript
    `a || b || ""` fallback chain. */
module Extraction {
  import opened Wrappers
  import opened Text
  import opened Dom
  import opened Sequences

  /** A JavaScript value as stored in an extracted record. Numbers are the
      integers the stores use as ids. */
  datatype Value = Str(s: string) | Num(n: int) | Bool(b: bool) | Null | Undefined

  /** An extracted record: a plain object from property names to values. */
  type Item = map<string, Value>

  predicate Truthy(v: Value) {
    (v.Str? && v.s != "") || (v.Num? && v.n != 0) || (v.Bool? && v.b)
  }

  /** `item[key]`: `undefined` when the property is missing. */
  function Prop(item: Item, key: string): (r: Value)
    ensures key in item ==> r == item[key]
    ensures key !in item ==> r == Undefined
  {
    if key in item then item[key] else Undefined
  }

  /** `String(v)`, as a template literal renders a value. */
  function ToStr(v: Value): string {
    match v
    case Str(s) => s
    case Num(n) => IntToString(n)
    case Bool(b) => if b then "true" else "false"
    case Null => "null"
    case Undefined => "undefined"
  }

  /** `item[key]` is present and truthy. */
  predicate Has(item: Item, key: string) {
    key in item && Truthy(item[key])
  }

  /** A string that may be null, as a record value. */
  function ValueOf(v: Option<string>): (r: Value)
    ensures v.Some? ==> r == Str(v.value)
    ensures v.None? ==> r == Null
  {
    match v
    case Some(s) => Str(s)
    case None => Null
  }

  /** The `{ element, selector, value }` a template click stores for a field. */
  datatype Binding = Binding(element: Path, selector: string, value: Option<string>)

  /** `currentTemplate`: its keys in insertion order, and the fields bound so far
      (a key that is not bound holds null). */
  datatype Template = Template(keys: seq<string>, bound: map<string, Binding>)

  /** `{ image: null, title: null, description: null, price: null }`. */
  const EmptyTemplate: Template := Template(["image", "title", "description", "price"], map[])

  predicate WellFormedTemplate(t: Template) {
    && (forall i, j :: 0 <= i < j < |t.keys| ==> t.keys[i] != t.keys[j])
    && (forall f :: f in t.bound ==> f in t.keys)
  }

  /** The four default keys differ in their first letter. */
  lemma EmptyTemplateWellFormed()
    ensures WellFormedTemplate(EmptyTemplate)
  {
    var keys := EmptyTemplate.keys;
    forall i, j | 0 <= i < j < |keys|
      ensures keys[i] != keys[j]
    {
      assert keys[i][0] != keys[j][0];
    }
  }

  /** `currentTemplate[field] = binding`: an existing key keeps its place, a new
      one goes last. */
  function Bind(t: Template, field: string, b: Binding): (r: Template)
    requires WellFormedTemplate(t)
    ensures WellFormedTemplate(r)
    ensures r.bound == t.bound[field := b]
    ensures field in t.keys ==> r.keys == t.keys
    ensures field !in t.keys ==> r.keys == t.keys + [field]
  {
    Template(if field in t.keys then t.keys else t.keys + [field], t.bound[field := b])
  }

  /** `t.keys[k]` is the first key in insertion order that is bound. */
  predicate FirstBoundKey(t: Template, k: int) {
    0 <= k < |t.keys| && t.keys[k] in t.bound && forall j :: 0 <= j < k ==> t.keys[j] !in t.bound
  }

  /** `Object.keys(currentTemplate).filter(field => currentTemplate[field])`:
      the bound keys in insertion order, so `fields[0]` is the first bound key. */
  function BoundFields(t: Template): (r: seq<string>)
    ensures forall f :: f in r <==> f in t.keys && f in t.bound
    ensures forall k :: 0 <= k < |r| ==> r[k] in t.bound
    ensures exists idx :: PickedAt(t.keys, BoundMask(t.keys, t.bound), r, idx)
    ensures |r| > 0 ==> exists k :: FirstBoundKey(t, k) && r[0] == t.keys[k]
  {
    var r := BoundIn(t.keys, t.bound);
    if |r| > 0 then
      BoundHead(t, r);
      r
    else
      r
  }

  /** The in-order list of bound keys starts with the first bound key. */
  lemma BoundHead(t: Template, r: seq<string>)
    requires |r| > 0 && exists idx :: PickedAt(t.keys, BoundMask(t.keys, t.bound), r, idx)
    ensures exists k :: FirstBoundKey(t, k) && r[0] == t.keys[k]
  {
    var idx :| PickedAt(t.keys, BoundMask(t.keys, t.bound), r, idx);
    PickedHead(t.keys, BoundMask(t.keys, t.bound), r, idx);
    assert FirstBoundKey(t, idx[0]);
  }

  /** Which keys are bound. */
  function BoundMask(keys: seq<string>, bound: map<string, Binding>): (r: seq<bool>)
    ensures |r| == |keys| && forall j :: 0 <= j < |keys| ==> (r[j] <==> keys[j] in bound)
  {
    seq(|keys|, j requires 0 <= j < |keys| => keys[j] in bound)
  }

  function BoundIn(keys: seq<string>, bound: map<string, Binding>): (r: seq<string>)
    ensures forall f :: f in r <==> f in keys && f in bound
    ensures forall k :: 0 <= k < |r| ==> r[k] in bound
    ensures |r| <= |keys|
    ensures exists idx :: PickedAt(keys, BoundMask(keys, bound), r, idx)
  {
    if |keys| == 0 then
      assert PickedAt(keys, BoundMask(keys, bound), [], []);
      []
    else
      var rest := BoundIn(keys[1..], bound);
      assert keys == [keys[0]] + keys[1..];
      var m := keys[0] in bound;
      var r := if m then [keys[0]] + rest else rest;
      BoundMaskCons(keys, bound);
      ShiftPositions(keys, m, BoundMask(keys[1..], bound), rest, BoundMask(keys, bound), r);
      r
  }

  lemma BoundMaskCons(keys: seq<string>, bound: map<string, Binding>)
    requires |keys| > 0
    ensures BoundMask(keys, bound) == [keys[0] in bound] + BoundMask(keys[1..], bound)
  {
  }

  /** `r` is the first non-empty string of `xs`, or "" when they are all empty. */
  predicate IsFirstNonEmpty(r: string, xs: seq<string>) {
    && (r == "" <==> forall k :: 0 <= k < |xs| ==> xs[k] == "")
    && (r != "" ==> exists k :: 0 <= k < |xs| && xs[k] == r && forall j :: 0 <= j < k ==> xs[j] == "")
  }

  /** `xs[0] || xs[1] || … || ""`. */
  function FirstNonEmpty(xs: seq<string>): (r: string)
    ensures IsFirstNonEmpty(r, xs)
  {
    if |xs| == 0 then ""
    else if xs[0] != "" then xs[0]
    else
      var r := FirstNonEmpty(xs[1..]);
      assert forall k :: 0 < k < |xs| ==> xs[k] == xs[1..][k - 1];
      r
  }

  /** `getAttribute(name) || ""`-style reading of an attribute that may be absent. */
  function OrEmpty(v: Option<string>): string {
    v.GetOr("")
  }

  /** Where the page is and when: `window.location.href` and
      `new Date().toISOString()` at the time of the event. */
  datatype Env = Env(url: string, now: string)

  /** The record a manual-mode click sends:
      `{ [field]: value, url, timestamp, verified: false }`, later keys winning. */
  function ManualItem(field: string, value: Option<string>, env: Env): (r: Item)
    ensures r.Keys == {field, "url", "timestamp", "verified"}
    ensures r["url"] == Str(env.url) && r["timestamp"] == Str(env.now) && r["verified"] == Bool(false)
    ensures field !in {"url", "timestamp", "verified"} ==> r[field] == ValueOf(value)
  {
    map[field := ValueOf(value)]["url" := Str(env.url)]["timestamp" := Str(env.now)]["verified" := Bool(false)]
  }

  /** The classes the engines put on page elements. */
  const SelectedClass: Token := "extractor-selected"
  const SimilarClass: Token := "extractor-similar"
  const HoverClass: Token := "extractor-hover"
  const SelectingClass: Token := "extractor-selecting"

  lemma EngineClassesAreTokens()
    ensures IsToken(SelectedClass) && IsToken(SimilarClass) && IsToken(HoverClass) && IsToken(SelectingClass)
  {
  }

  lemma EngineClassesDistinct()
    ensures SelectedClass != SelectingClass && SelectedClass != SimilarClass && SelectedClass != HoverClass
    ensures SimilarClass != SelectingClass && SimilarClass != HoverClass && HoverClass != SelectingClass
  {
    assert SelectedClass[17] != SelectingClass[17];
    assert SelectedClass[11] != SimilarClass[11];
    assert SelectedClass[10] != HoverClass[10];
    assert SimilarClass[11] != SelectingClass[11];
    assert SimilarClass[10] != HoverClass[10];
    assert HoverClass[10] != SelectingClass[10];
  }

  /** What a script sends to the host. */
  datatype Message =
    | ElementSelected(field: string, value: Option<string>, selector: string)
    | DataExtracted(item: Item)
    | SimilarFound(items: seq<Item>)

  /** The events the scripts listen for; each targets an element of the page. */
  datatype Event = MouseOver(target: Path) | MouseOut(target: Path) | Click(target: Path)

  /** A selection session: idle, or waiting for a click for `field`. */
  datatype Selection = Idle | Selecting(field: string)
}
