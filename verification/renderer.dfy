/** The host window's pure logic: the validation and formatting helpers, the
    store's item reducers, the filling-status counts, the choice of the item a
    manual value lands in, and the click handler of the extraction script the
    host injects into the page. */
module Renderer {
  import opened Wrappers
  import opened Text
  import opened Dom
  import opened Extraction
  import opened Patterns
  import opened Sequences

  // ================================================================ helpers

  /** What calling `trim` on a number or `true` throws. */
  const TrimTypeError: string := "TypeError: str.trim is not a function"

  /** A value `isEmpty` accepts: falsy, or a string of white space. */
  predicate Blank(v: Value) {
    !Truthy(v) || (v.Str? && AllSpace(v.s))
  }

  /** `isEmpty(str)`: `!str || str.trim().length === 0`. A truthy value that is
      not a string has no `trim`, and the call throws. A string trims to
      nothing exactly when it is all white space (see `Text.Trim`). */
  function IsEmpty(v: Value): (r: Result<bool, string>)
    ensures r.Failure? <==> Truthy(v) && !v.Str?
    ensures r.Success? ==> (r.value <==> Blank(v))
  {
    if !Truthy(v) then Success(true)
    else if v.Str? then Success(AllSpace(v.s))
    else Failure(TrimTypeError)
  }

  /** The emptiness test on a string is the one `trim` gives. */
  lemma IsEmptyIsTrimTest(s: string)
    requires s != ""
    ensures IsEmpty(Str(s)) == Success(Trim(s) == "")
  {
  }

  /** Title, description, image and price are all empty. */
  predicate AllBlank(item: Item) {
    Blank(Prop(item, "title")) && Blank(Prop(item, "description")) && Blank(Prop(item, "image")) && Blank(Prop(item, "price"))
  }

  /** The content fields `isItemEmpty` looks at, in the order it looks. */
  const ContentKeys: seq<string> := ["title", "description", "image", "price"]

  /** The `k`-th content field is the first that `isEmpty` does not accept. */
  predicate FirstNonBlankAt(item: Item, k: int) {
    0 <= k < |ContentKeys| && !Blank(Prop(item, ContentKeys[k]))
    && forall l :: 0 <= l < k ==> Blank(Prop(item, ContentKeys[l]))
  }

  /** `isItemEmpty(item)`: `every` over title, description, image and price,
      which stops at the first field that is not empty and passes on what
      `isEmpty` throws. */
  function IsItemEmpty(item: Item): (r: Result<bool, string>)
    ensures r == Success(true) <==> AllBlank(item)
    ensures r == Success(false) <==> !AllBlank(item) && forall k :: FirstNonBlankAt(item, k) ==> Prop(item, ContentKeys[k]).Str?
    ensures r.Failure? <==> !AllBlank(item) && forall k :: FirstNonBlankAt(item, k) ==> !Prop(item, ContentKeys[k]).Str?
    ensures r.Failure? ==> r.error == TrimTypeError
  {
    var title := IsEmpty(Prop(item, "title"));
    if title != Success(true) then
      FirstNonBlankUnique(item, 0);
      title
    else
      var description := IsEmpty(Prop(item, "description"));
      if description != Success(true) then
        FirstNonBlankUnique(item, 1);
        description
      else
        var image := IsEmpty(Prop(item, "image"));
        if image != Success(true) then
          FirstNonBlankUnique(item, 2);
          image
        else
          var price := IsEmpty(Prop(item, "price"));
          if price != Success(true) then
            FirstNonBlankUnique(item, 3);
            price
          else
            price
  }

  /** At most one field is the first that is not empty. */
  lemma FirstNonBlankUnique(item: Item, k: int)
    requires FirstNonBlankAt(item, k)
    ensures forall j :: FirstNonBlankAt(item, j) ==> j == k
  {
  }

  /** Category, url and every other property play no part in `isItemEmpty`. */
  lemma ItemEmptyIgnoresOtherKeys(item: Item, key: string, v: Value)
    requires key !in {"title", "description", "image", "price"}
    ensures IsItemEmpty(item[key := v]) == IsItemEmpty(item)
  {
    var other := item[key := v];
    assert Prop(other, "title") == Prop(item, "title");
    assert Prop(other, "description") == Prop(item, "description");
    assert Prop(other, "image") == Prop(item, "image");
    assert Prop(other, "price") == Prop(item, "price");
  }

  /** `normalizeUrl(url)`: absent or empty gives ""; otherwise the trimmed
      text, with `https://` put in front unless it already names http or https. */
  function NormalizeUrl(url: Option<string>): (r: string)
    ensures url.None? || url == Some("") ==> r == ""
    ensures url.Some? && url.value != "" ==>
      && (StartsWith(r, "http://") || StartsWith(r, "https://"))
      && EndsWith(r, Trim(url.value))
      && (StartsWith(Trim(url.value), "http://") || StartsWith(Trim(url.value), "https://") ==> r == Trim(url.value))
      && (!StartsWith(Trim(url.value), "http://") && !StartsWith(Trim(url.value), "https://") ==> r == "https://" + Trim(url.value))
    ensures Trim(r) == r
  {
    if url.None? || url.value == "" then ""
    else
      var t := Trim(url.value);
      if !StartsWith(t, "http://") && !StartsWith(t, "https://") then
        var r := "https://" + t;
        assert r[|r| - |t|..] == t;
        TrimOfTrimmed(r);
        r
      else
        TrimIdempotent(url.value);
        assert t[|t| - |t|..] == t;
        t
  }

  /** Normalising a normalised address changes nothing. */
  lemma NormalizeUrlIdempotent(url: Option<string>)
    ensures NormalizeUrl(Some(NormalizeUrl(url))) == NormalizeUrl(url)
  {
  }

  /** The length `substring` clamps `max` to. */
  function Clamp(n: int, hi: nat): (r: nat)
    ensures r <= hi
    ensures 0 <= n <= hi ==> r == n
  {
    if n < 0 then 0 else if n > hi then hi else n
  }

  /** `truncate(text, maxLength)`: absent, empty or short enough text is
      returned as it is; longer text is cut to its first `maxLength`
      characters and gets "..." appended. */
  function Truncate(text: Option<string>, maxLength: int): (r: Option<string>)
    ensures text.None? <==> r.None?
    ensures text == Some("") ==> r == text
    ensures text.Some? && |text.value| <= maxLength ==> r == text
    ensures text.Some? && text.value != "" && |text.value| > maxLength ==>
      && |r.value| == Clamp(maxLength, |text.value|) + 3
      && StartsWith(text.value, r.value[..|r.value| - 3])
      && EndsWith(r.value, "...")
  {
    if text.None? || text.value == "" || |text.value| <= maxLength then text
    else
      var n := Clamp(maxLength, |text.value|);
      var r := text.value[..n] + "...";
      assert r[..|r| - 3] == text.value[..n];
      assert r[|r| - 3..] == "...";
      Some(r)
  }

  /** Truncating a truncated text again with the same bound changes nothing. */
  lemma TruncateIdempotent(text: Option<string>, maxLength: int)
    ensures Truncate(Truncate(text, maxLength), maxLength) == Truncate(text, maxLength)
  {
    if text.Some? && text.value != "" && |text.value| > maxLength {
      var n := Clamp(maxLength, |text.value|);
      var r := text.value[..n] + "...";
      assert Truncate(text, maxLength) == Some(r);
      assert |r| > maxLength;
      assert Clamp(maxLength, |r|) == n;
      assert r[..n] == text.value[..n];
    }
  }

  // ================================================================ store reducers

  /** The id an item is looked up by: `item.id`. */
  function IdOf(item: Item): Value {
    Prop(item, "id")
  }

  /** `findIndex((item) => item.id === id)`. */
  function FindById(items: seq<Item>, id: Value): (r: Option<nat>)
    ensures r.Some? ==> r.value < |items| && IdOf(items[r.value]) == id
    ensures r.Some? ==> forall j :: 0 <= j < r.value ==> IdOf(items[j]) != id
    ensures r.None? ==> forall j :: 0 <= j < |items| ==> IdOf(items[j]) != id
  {
    if |items| == 0 then None
    else if IdOf(items[0]) == id then Some(0)
    else match FindById(items[1..], id)
      case Some(k) => Some(k + 1)
      case None => None
  }

  /** `addExtractedItem(item)`. */
  function AddItem(items: seq<Item>, item: Item): (r: seq<Item>)
    ensures |r| == |items| + 1 && r[..|items|] == items && r[|items|] == item
  {
    items + [item]
  }

  /** `updateExtractedItem(id, updates)`: the first item with the id gets the
      updates' properties, later ones winning; every other item, and the
      length, stay as they were; without such an item nothing changes. */
  function UpdateItem(items: seq<Item>, id: Value, updates: Item): (r: seq<Item>)
    ensures |r| == |items|
    ensures FindById(items, id).None? ==> r == items
    ensures FindById(items, id).Some? ==>
      var i := FindById(items, id).value;
      && r[i].Keys == items[i].Keys + updates.Keys
      && (forall k :: k in updates ==> r[i][k] == updates[k])
      && (forall k :: k in items[i] && k !in updates ==> r[i][k] == items[i][k])
      && (forall j :: 0 <= j < |items| && j != i ==> r[j] == items[j])
  {
    match FindById(items, id)
    case Some(i) => items[i := items[i] + updates]
    case None => items
  }

  /** Updating twice with the same updates is updating once, when the updates
      keep the id. */
  lemma UpdateItemIdempotent(items: seq<Item>, id: Value, updates: Item)
    requires "id" in updates ==> updates["id"] == id
    ensures UpdateItem(UpdateItem(items, id, updates), id, updates) == UpdateItem(items, id, updates)
  {
    var once := UpdateItem(items, id, updates);
    match FindById(items, id)
    case None =>
    case Some(i) =>
      assert IdOf(once[i]) == id;
      assert forall j :: 0 <= j < i ==> once[j] == items[j];
      assert FindById(once, id) == Some(i);
      assert once[i] + updates == once[i];
  }

  /** `removeExtractedItem(id)`: the `filter` that keeps the items without
      that id, in their order. */
  function RemoveItem(items: seq<Item>, id: Value): (r: seq<Item>)
    ensures forall x :: x in r <==> x in items && IdOf(x) != id
    ensures forall x :: multiset(r)[x] == if IdOf(x) == id then 0 else multiset(items)[x]
    ensures |r| <= |items|
    ensures exists idx :: PickedAt(items, SurvivorMask(items, id), r, idx)
  {
    if |items| == 0 then
      assert PickedAt(items, SurvivorMask(items, id), [], []);
      []
    else
      var rest := RemoveItem(items[1..], id);
      var r := if IdOf(items[0]) != id then [items[0]] + rest else rest;
      RemoveItemStep(items, id, rest, r);
      SurvivorStep(items, id, rest, r);
      r
  }

  /** What the filter keeps from the tail, with the first item before it
      when that survives, holds the survivors of the whole list. */
  lemma RemoveItemStep(items: seq<Item>, id: Value, rest: seq<Item>, r: seq<Item>)
    requires |items| > 0
    requires forall x :: x in rest <==> x in items[1..] && IdOf(x) != id
    requires forall x :: multiset(rest)[x] == if IdOf(x) == id then 0 else multiset(items[1..])[x]
    requires |rest| <= |items| - 1
    requires r == if IdOf(items[0]) != id then [items[0]] + rest else rest
    ensures forall x :: x in r <==> x in items && IdOf(x) != id
    ensures forall x :: multiset(r)[x] == if IdOf(x) == id then 0 else multiset(items)[x]
    ensures |r| <= |items|
  {
    assert items == [items[0]] + items[1..];
  }

  /** The survivors of the tail, with the first item before them when it
      survives, are the survivors of the whole list. */
  lemma SurvivorStep(items: seq<Item>, id: Value, rest: seq<Item>, r: seq<Item>)
    requires |items| > 0 && exists idx :: PickedAt(items[1..], SurvivorMask(items[1..], id), rest, idx)
    requires r == if IdOf(items[0]) != id then [items[0]] + rest else rest
    ensures exists idx :: PickedAt(items, SurvivorMask(items, id), r, idx)
  {
    SurvivorMaskCons(items, id);
    ShiftPositions(items, IdOf(items[0]) != id, SurvivorMask(items[1..], id), rest, SurvivorMask(items, id), r);
  }

  /** Which items the filter keeps: those whose id differs. */
  function SurvivorMask(items: seq<Item>, id: Value): (r: seq<bool>)
    ensures |r| == |items| && forall j :: 0 <= j < |items| ==> (r[j] <==> IdOf(items[j]) != id)
  {
    seq(|items|, j requires 0 <= j < |items| => IdOf(items[j]) != id)
  }

  lemma SurvivorMaskCons(items: seq<Item>, id: Value)
    requires |items| > 0
    ensures SurvivorMask(items, id) == [IdOf(items[0]) != id] + SurvivorMask(items[1..], id)
  {
  }

  /** Adding an item with an id and removing that id is removing it from the
      items before the add. */
  lemma RemoveAfterAdd(items: seq<Item>, item: Item, id: Value)
    requires IdOf(item) == id
    ensures RemoveItem(AddItem(items, item), id) == RemoveItem(items, id)
    decreases |items|
  {
    if |items| > 0 {
      assert AddItem(items, item)[1..] == AddItem(items[1..], item);
      RemoveAfterAdd(items[1..], item, id);
    }
  }

  /** Removing twice is removing once. */
  lemma {:induction false} RemoveItemIdempotent(items: seq<Item>, id: Value)
    ensures RemoveItem(RemoveItem(items, id), id) == RemoveItem(items, id)
    decreases |items|
  {
    if |items| > 0 {
      RemoveItemIdempotent(items[1..], id);
      var rest := RemoveItem(items[1..], id);
      if IdOf(items[0]) != id {
        assert ([items[0]] + rest)[1..] == rest;
      }
    }
  }

  // ================================================================ filling status

  /** The numbers `updateFillingStatus` shows: empty items, items with the
      current id, and non-empty items that are not current. */
  datatype Counts = Counts(empty: nat, filling: nat, completed: nat)

  /** Whether every item can be classified without `isEmpty` throwing. */
  predicate Classifiable(items: seq<Item>) {
    forall i :: 0 <= i < |items| ==> IsItemEmpty(items[i]).Success?
  }

  /** Which items `filter(isItemEmpty)` keeps. */
  function EmptyMask(items: seq<Item>): (r: seq<bool>)
    ensures |r| == |items| && forall j :: 0 <= j < |items| ==> (r[j] <==> IsItemEmpty(items[j]) == Success(true))
  {
    seq(|items|, j requires 0 <= j < |items| => IsItemEmpty(items[j]) == Success(true))
  }

  /** Which items `filter(item => item.id === currentItemId)` keeps. */
  function FillingMask(items: seq<Item>, current: Value): (r: seq<bool>)
    ensures |r| == |items| && forall j :: 0 <= j < |items| ==> (r[j] <==> IdOf(items[j]) == current)
  {
    seq(|items|, j requires 0 <= j < |items| => IdOf(items[j]) == current)
  }

  /** Which items `filter(item => !isItemEmpty(item) && item.id !== currentItemId)` keeps. */
  function CompletedMask(items: seq<Item>, current: Value): (r: seq<bool>)
    ensures |r| == |items| && forall j :: 0 <= j < |items| ==> (r[j] <==> IsItemEmpty(items[j]) == Success(false) && IdOf(items[j]) != current)
  {
    seq(|items|, j requires 0 <= j < |items| => IsItemEmpty(items[j]) == Success(false) && IdOf(items[j]) != current)
  }

  /** Each of the three numbers is the length of its filter's result. */
  ghost predicate Tallied(items: seq<Item>, current: Value, c: Counts) {
    && CountedAt(items, EmptyMask(items), |items|, c.empty)
    && CountedAt(items, FillingMask(items, current), |items|, c.filling)
    && CountedAt(items, CompletedMask(items, current), |items|, c.completed)
  }

  /** The three filters of `updateFillingStatus`, which throw when `isItemEmpty`
      throws on some item. */
  function FillingCounts(items: seq<Item>, current: Value): (r: Result<Counts, string>)
    ensures r.Success? <==> Classifiable(items)
    ensures r.Success? ==> Tallied(items, current, r.value)
    ensures r.Failure? ==> r.error == TrimTypeError
  {
    if |items| == 0 then
      CountedNone(items, EmptyMask(items));
      CountedNone(items, FillingMask(items, current));
      CountedNone(items, CompletedMask(items, current));
      Success(Counts(0, 0, 0))
    else
      var first := IsItemEmpty(items[0]);
      var rest := FillingCounts(items[1..], current);
      assert forall i :: 0 < i < |items| ==> items[i] == items[1..][i - 1];
      if first.Failure? then Failure(first.error)
      else if rest.Failure? then Failure(rest.error)
      else
        var isEmpty := first.value;
        var isCurrent := IdOf(items[0]) == current;
        var c := rest.value;
        var r := Counts(
          c.empty + (if isEmpty then 1 else 0),
          c.filling + (if isCurrent then 1 else 0),
          c.completed + (if !isEmpty && !isCurrent then 1 else 0));
        TalliedCons(items, current, c, r);
        Success(r)
  }

  /** Each mask of a list is the first item's bit before the tail's mask. */
  lemma EmptyMaskCons(items: seq<Item>)
    requires |items| > 0
    ensures EmptyMask(items) == [IsItemEmpty(items[0]) == Success(true)] + EmptyMask(items[1..])
  {
    var a, b := EmptyMask(items), [IsItemEmpty(items[0]) == Success(true)] + EmptyMask(items[1..]);
    assert forall j :: 0 < j < |items| ==> a[j] == b[j] by {
      assert forall j :: 0 < j < |items| ==> items[j] == items[1..][j - 1];
    }
  }

  lemma FillingMaskCons(items: seq<Item>, current: Value)
    requires |items| > 0
    ensures FillingMask(items, current) == [IdOf(items[0]) == current] + FillingMask(items[1..], current)
  {
  }

  lemma CompletedMaskCons(items: seq<Item>, current: Value)
    requires |items| > 0
    ensures CompletedMask(items, current)
      == [IsItemEmpty(items[0]) == Success(false) && IdOf(items[0]) != current] + CompletedMask(items[1..], current)
  {
    var a, b := CompletedMask(items, current), [IsItemEmpty(items[0]) == Success(false) && IdOf(items[0]) != current] + CompletedMask(items[1..], current);
    assert forall j :: 0 < j < |items| ==> a[j] == b[j] by {
      assert forall j :: 0 < j < |items| ==> items[j] == items[1..][j - 1];
    }
  }

  lemma TalliedCons(items: seq<Item>, current: Value, c: Counts, r: Counts)
    requires |items| > 0 && IsItemEmpty(items[0]).Success? && Tallied(items[1..], current, c)
    requires var e := IsItemEmpty(items[0]).value; var f := IdOf(items[0]) == current;
      r == Counts(c.empty + (if e then 1 else 0), c.filling + (if f then 1 else 0), c.completed + (if !e && !f then 1 else 0))
    ensures Tallied(items, current, r)
  {
    EmptyMaskCons(items);
    FillingMaskCons(items, current);
    CompletedMaskCons(items, current);
    var e := IsItemEmpty(items[0]).value;
    var f := IdOf(items[0]) == current;
    CountedCons(items, e, EmptyMask(items[1..]), EmptyMask(items), c.empty);
    CountedCons(items, f, FillingMask(items[1..], current), FillingMask(items, current), c.filling);
    CountedCons(items, !e && !f, CompletedMask(items[1..], current), CompletedMask(items, current), c.completed);
  }

  /** Every item is counted as empty or as completed, except a non-empty item
      that is current: the two counts cover the list exactly when every
      current item is empty, in particular when there is none. */
  lemma {:induction false} CountsPartition(items: seq<Item>, current: Value)
    requires Classifiable(items)
    ensures var c := FillingCounts(items, current).value;
      && c.empty + c.completed <= |items|
      && c.filling <= |items|
      && (c.empty + c.completed == |items| <==>
           forall i :: 0 <= i < |items| && IdOf(items[i]) == current ==> IsItemEmpty(items[i]) == Success(true))
    decreases |items|
  {
    if |items| > 0 {
      assert forall i :: 0 < i < |items| ==> items[i] == items[1..][i - 1];
      assert Classifiable(items[1..]);
      CountsPartition(items[1..], current);
    }
  }

  // ================================================================ manual values

  /** A message payload: its properties in `Object.keys` order, no key twice. */
  type Payload = seq<(string, Value)>

  predicate DistinctKeys(p: Payload) {
    forall i, j :: 0 <= i < j < |p| ==> p[i].0 != p[j].0
  }

  /** `data[key]`: the value of the first property with that key, or undefined. */
  function Get(p: Payload, key: string): Value {
    if |p| == 0 then Undefined
    else if p[0].0 == key then p[0].1
    else Get(p[1..], key)
  }

  /** `Object.keys(data).find((key) => key !== 'url' && key !== 'timestamp')`. */
  function FieldOf(p: Payload): (r: Option<string>)
    ensures r.Some? ==> r.value != "url" && r.value != "timestamp" && exists i :: 0 <= i < |p| && p[i].0 == r.value
    ensures r.Some? ==> exists i :: 0 <= i < |p| && p[i].0 == r.value && forall j :: 0 <= j < i ==> p[j].0 in {"url", "timestamp"}
    ensures r.None? <==> forall i :: 0 <= i < |p| ==> p[i].0 in {"url", "timestamp"}
  {
    if |p| == 0 then None
    else if p[0].0 != "url" && p[0].0 != "timestamp" then Some(p[0].0)
    else
      var r := FieldOf(p[1..]);
      assert forall i :: 0 < i < |p| ==> p[i] == p[1..][i - 1];
      assert r.Some? ==> exists i :: 0 <= i < |p| && p[i].0 == r.value && forall j :: 0 <= j < i ==> p[j].0 in {"url", "timestamp"} by {
        if r.Some? {
          var i :| 0 <= i < |p[1..]| && p[1..][i].0 == r.value && forall j :: 0 <= j < i ==> p[1..][j].0 in {"url", "timestamp"};
          assert p[i + 1].0 == r.value;
        }
      }
      r
  }

  /** The host's view of the extraction: the items, the mode and the current item id. */
  datatype HostState = HostState(items: seq<Item>, mode: string, current: Value)

  /** What `handleExtractedData` does with a payload. */
  datatype Decision =
      /** no property besides url and timestamp: nothing happens */
    | Ignore
      /** not in manual mode: the payload is saved as new records */
    | SaveAsRecords
      /** the value of `field` goes into the item at `index`, which becomes
          current when `adopt` holds */
    | Fill(field: string, index: nat, adopt: bool)
      /** no current and no empty item: a fresh item is created and the value dropped */
    | CreateItem(field: string)
      /** `isItemEmpty` threw while looking for an empty item */
    | Fail(message: string)

  /** `isItemEmpty` throws on `items[j]` and on none of the items before it,
      each of which it finds not empty. */
  predicate FirstThrowAt(items: seq<Item>, j: int) {
    0 <= j < |items| && IsItemEmpty(items[j]).Failure?
    && forall l :: 0 <= l < j ==> IsItemEmpty(items[l]) == Success(false)
  }

  /** `items.find((item) => isItemEmpty(item))`, which throws when the
      predicate throws before an empty item is found. */
  function FindEmpty(items: seq<Item>): (r: Result<Option<nat>, string>)
    ensures r.Success? && r.value.Some? ==> r.value.value < |items| && IsItemEmpty(items[r.value.value]) == Success(true)
    ensures r.Success? && r.value.Some? ==> forall j :: 0 <= j < r.value.value ==> IsItemEmpty(items[j]) == Success(false)
    ensures r.Success? && r.value.None? ==> forall j :: 0 <= j < |items| ==> IsItemEmpty(items[j]) == Success(false)
    ensures r.Failure? ==> exists j :: FirstThrowAt(items, j) && r.error == IsItemEmpty(items[j]).error
  {
    if |items| == 0 then Success(None)
    else
      var first := IsItemEmpty(items[0]);
      if first.Failure? then
        assert FirstThrowAt(items, 0);
        Failure(first.error)
      else if first.value then Success(Some(0))
      else
        var rest := FindEmpty(items[1..]);
        assert forall j :: 0 < j < |items| ==> items[j] == items[1..][j - 1];
        if rest.Failure? then
          assert exists j :: FirstThrowAt(items, j) && rest.error == IsItemEmpty(items[j]).error by {
            var j :| FirstThrowAt(items[1..], j) && rest.error == IsItemEmpty(items[1..][j]).error;
            assert FirstThrowAt(items, j + 1);
          }
          Failure(rest.error)
        else if rest.value.None? then Success(None)
        else Success(Some(rest.value.value + 1))
  }

  /** The scan stops at the first item it finds empty or throws on, and
      finds none only when every item is found not empty. */
  lemma FindEmptyStopsFirst(items: seq<Item>)
    ensures forall j :: FirstEmptyAt(items, j) ==> FindEmpty(items) == Success(Some(j))
    ensures (forall j :: 0 <= j < |items| ==> IsItemEmpty(items[j]) == Success(false)) ==> FindEmpty(items) == Success(None)
    ensures forall j :: FirstThrowAt(items, j) ==> FindEmpty(items) == Failure(IsItemEmpty(items[j]).error)
  {
    var r := FindEmpty(items);
    if r.Success? && r.value.Some? {
      var k := r.value.value;
      assert FirstEmptyAt(items, k);
      forall j | FirstEmptyAt(items, j) || FirstThrowAt(items, j)
        ensures j == k
      {
        FirstStopUnique(items, j, k);
      }
    } else if r.Failure? {
      var k :| FirstThrowAt(items, k) && r.error == IsItemEmpty(items[k]).error;
      forall j | FirstEmptyAt(items, j) || FirstThrowAt(items, j)
        ensures j == k
      {
        FirstStopUnique(items, j, k);
      }
    }
  }

  /** At most one item is where the scan stops. */
  lemma FirstStopUnique(items: seq<Item>, j: int, k: int)
    requires FirstEmptyAt(items, j) || FirstThrowAt(items, j)
    requires FirstEmptyAt(items, k) || FirstThrowAt(items, k)
    ensures j == k
  {
  }

  /** `items[j]` is the first item `isItemEmpty` finds empty, having found
      every item before it not empty. */
  predicate FirstEmptyAt(items: seq<Item>, j: int) {
    0 <= j < |items| && IsItemEmpty(items[j]) == Success(true)
    && forall l :: 0 <= l < j ==> IsItemEmpty(items[l]) == Success(false)
  }

  /** `if (!field) return`: the key `find` gives passes when it exists and is
      not the empty string, which is falsy. */
  predicate HasField(data: Payload) {
    FieldOf(data).Some? && FieldOf(data).value != ""
  }

  /** `handleExtractedData` and `handleManualExtraction` up to the update. */
  function Decide(st: HostState, data: Payload): (r: Decision)
    ensures !HasField(data) <==> r == Ignore
    ensures (FieldOf(data).None? || FieldOf(data) == Some("")) ==> r == Ignore
    ensures HasField(data) && st.mode != "manual" ==> r == SaveAsRecords
    ensures st.mode == "manual" && HasField(data) && FindById(st.items, st.current).Some? ==>
      r == Fill(FieldOf(data).value, FindById(st.items, st.current).value, false)
    ensures r.Fill? && r.adopt ==>
      && FindById(st.items, st.current).None?
      && r.index < |st.items| && IsItemEmpty(st.items[r.index]) == Success(true)
      && forall j :: 0 <= j < r.index ==> IsItemEmpty(st.items[j]) == Success(false)
    ensures r.CreateItem? ==>
      && FindById(st.items, st.current).None?
      && forall j :: 0 <= j < |st.items| ==> IsItemEmpty(st.items[j]) == Success(false)
    ensures r.Fill? ==> r.index < |st.items| && r.field != ""
    ensures st.mode == "manual" && HasField(data) && FindById(st.items, st.current).None? ==>
      && (forall j :: FirstEmptyAt(st.items, j) ==> r == Fill(FieldOf(data).value, j, true))
      && ((forall j :: 0 <= j < |st.items| ==> IsItemEmpty(st.items[j]) == Success(false)) ==> r == CreateItem(FieldOf(data).value))
      && (forall j :: FirstThrowAt(st.items, j) ==> r == Fail(IsItemEmpty(st.items[j]).error))
  {
    match FieldOf(data)
    case None => Ignore
    case Some(field) =>
      if field == "" then Ignore
      else if st.mode != "manual" then SaveAsRecords
      else match FindById(st.items, st.current)
        case Some(i) => Fill(field, i, false)
        case None =>
          FindEmptyStopsFirst(st.items);
          match FindEmpty(st.items)
          case Failure(e) => Fail(e)
          case Success(Some(j)) => Fill(field, j, true)
          case Success(None) => CreateItem(field)
  }

  /** A payload whose first field key is the empty string is dropped, as
      `if (!field) return` drops it. */
  lemma EmptyKeyIgnored(st: HostState, v: Value, rest: Payload)
    ensures Decide(st, [("", v)] + rest) == Ignore
  {
    assert FieldOf([("", v)] + rest) == Some("");
  }

  /** `{ ...targetItem, [field]: data[field], url: data.url || targetItem.url, timestamp }`. */
  function Filled(target: Item, data: Payload, field: string, now: string): (r: Item)
    requires field != "url" && field != "timestamp"
    ensures r.Keys == target.Keys + {field, "url", "timestamp"}
    ensures r[field] == Get(data, field) && r["timestamp"] == Str(now)
    ensures r["url"] == if Truthy(Get(data, "url")) then Get(data, "url") else Prop(target, "url")
    ensures forall k :: k in target && k !in {field, "url", "timestamp"} ==> r[k] == target[k]
  {
    var url := Get(data, "url");
    target[field := Get(data, field)]["url" := if Truthy(url) then url else Prop(target, "url")]["timestamp" := Str(now)]
  }

  /** The host state after a `Fill` decision: the item is updated through
      `updateExtractedItem` with its own id, and made current when adopted. */
  function ApplyFill(st: HostState, data: Payload, field: string, index: nat, adopt: bool, now: string): (r: HostState)
    requires index < |st.items| && field != "url" && field != "timestamp"
    ensures |r.items| == |st.items| && r.mode == st.mode
    ensures r.current == if adopt then IdOf(st.items[index]) else st.current
  {
    var target := st.items[index];
    var updated := Filled(target, data, field, now);
    HostState(UpdateItem(st.items, IdOf(target), updated), st.mode, if adopt then IdOf(target) else st.current)
  }

  /** Ids in the host's list are distinct. */
  predicate UniqueIds(items: seq<Item>) {
    forall i, j :: 0 <= i < j < |items| ==> IdOf(items[i]) != IdOf(items[j])
  }

  /** With distinct ids the value lands in the decided item, under the field's
      name, and no other item changes. */
  lemma FillLandsInTarget(st: HostState, data: Payload, field: string, index: nat, adopt: bool, now: string)
    requires index < |st.items| && field != "url" && field != "timestamp"
    requires UniqueIds(st.items)
    ensures var r := ApplyFill(st, data, field, index, adopt, now);
      && r.items[index][field] == Get(data, field)
      && r.items[index] == Filled(st.items[index], data, field, now)
      && forall j :: 0 <= j < |st.items| && j != index ==> r.items[j] == st.items[j]
  {
    var id := IdOf(st.items[index]);
    assert FindById(st.items, id) == Some(index);
    var updated := Filled(st.items[index], data, field, now);
    assert st.items[index] + updated == updated;
  }

  // ================================================================ the injected click handler

  predicate IsPriceSymbol(c: char) {
    c == '$' || c == '€' || c == '£' || c == '¥'
  }

  /** End of `[\d,]+\.?\d*` once the run of digits and commas from `i` is known to start. */
  function AmountTail(s: string, i: nat): (r: nat)
    requires i < |s| && IsNumChar(s[i])
    ensures i < r <= |s|
    ensures forall k :: i <= k < r ==> IsNumChar(s[k]) || s[k] == '.'
  {
    var n := NumEnd(s, i);
    var d := if n < |s| && s[n] == '.' then n + 1 else n;
    DigitEnd(s, d)
  }

  /** The end of the match of `[$€£¥]?[\d,]+\.?\d*` at `i`: the symbol is taken
      when digits or commas follow it; otherwise the match must start with one. */
  function InjectedPriceAt(s: string, i: nat): (r: Option<nat>)
    ensures r.Some? ==> i < r.value <= |s|
    ensures r.Some? <==> i < |s| && (IsNumChar(s[i]) || (IsPriceSymbol(s[i]) && i + 1 < |s| && IsNumChar(s[i + 1])))
    ensures r.Some? ==> forall k :: i <= k < r.value ==> IsNumChar(s[k]) || s[k] == '.' || IsPriceSymbol(s[k])
  {
    if i < |s| && IsPriceSymbol(s[i]) && i + 1 < |s| && IsNumChar(s[i + 1]) then Some(AmountTail(s, i + 1))
    else if i < |s| && IsNumChar(s[i]) then Some(AmountTail(s, i))
    else None
  }

  /** `text.match(...)`: the leftmost match of the price pattern, its start and end. */
  function InjectedPriceMatch(s: string, i: nat): (r: Option<(nat, nat)>)
    requires i <= |s|
    ensures r.Some? ==> i <= r.value.0 && InjectedPriceAt(s, r.value.0) == Some(r.value.1)
    ensures r.Some? ==> forall k :: i <= k < r.value.0 ==> InjectedPriceAt(s, k).None?
    ensures r.None? ==> forall k :: i <= k < |s| ==> InjectedPriceAt(s, k).None?
    decreases |s| - i
  {
    if i == |s| then None
    else if InjectedPriceAt(s, i).Some? then Some((i, InjectedPriceAt(s, i).value))
    else InjectedPriceMatch(s, i + 1)
  }

  /** The text has a match exactly when it holds a digit or a comma. */
  lemma PriceMatchIffNumChar(s: string)
    ensures InjectedPriceMatch(s, 0).Some? <==> exists k :: 0 <= k < |s| && IsNumChar(s[k])
  {
    if InjectedPriceMatch(s, 0).Some? {
      var a := InjectedPriceMatch(s, 0).value.0;
      if !IsNumChar(s[a]) {
        assert IsNumChar(s[a + 1]);
      }
    } else {
      forall k | 0 <= k < |s| ensures !IsNumChar(s[k]) {
        assert InjectedPriceAt(s, k).None?;
      }
    }
  }

  /** The characters a price match is made of. */
  predicate IsPriceChar(c: char) {
    IsNumChar(c) || c == '.' || IsPriceSymbol(c)
  }

  /** The first match of the pattern in `text`, when there is one. */
  function InjectedPriceFound(text: string): (r: Option<string>)
    ensures r.Some? <==> exists k :: 0 <= k < |text| && IsNumChar(text[k])
    ensures r.Some? ==> IsInfix(r.value, text) && r.value != ""
    ensures r.Some? ==> forall k :: 0 <= k < |r.value| ==> IsPriceChar(r.value[k])
  {
    PriceMatchIffNumChar(text);
    match InjectedPriceMatch(text, 0)
    case Some((a, b)) =>
      var m := text[a..b];
      assert InfixAt(m, text, a);
      assert forall k :: 0 <= k < |m| ==> m[k] == text[a + k];
      Some(m)
    case None => None
  }

  /** The price branch: the match, or the trimmed text when nothing matches. */
  function InjectedPrice(text: string): (r: string)
    ensures IsInfix(r, text)
    ensures Trim(r) == r
    ensures (exists k :: 0 <= k < |text| && IsNumChar(text[k])) ==> r != "" && forall k :: 0 <= k < |r| ==> IsPriceChar(r[k])
    ensures (forall k :: 0 <= k < |text| ==> !IsNumChar(text[k])) ==> r == Trim(text)
  {
    match InjectedPriceFound(text)
    case Some(m) =>
      PriceCharsTrimmed(m);
      m
    case None =>
      TrimIdempotent(text);
      Trim(text)
  }

  /** Price characters are not spaces, so a run of them has nothing to trim. */
  lemma PriceCharsTrimmed(m: string)
    requires m != "" && forall k :: 0 <= k < |m| ==> IsPriceChar(m[k])
    ensures Trim(m) == m
  {
    assert IsPriceChar(m[0]) && IsPriceChar(m[|m| - 1]);
    assert !IsSpace(m[0]) && !IsSpace(m[|m| - 1]);
    TrimOfTrimmed(m);
  }

  /** A lone comma is a price to this pattern. */
  lemma LoneCommaIsPrice()
    ensures InjectedPrice("a , b") == ","
  {
    assert InjectedPriceAt("a , b", 0).None? && InjectedPriceAt("a , b", 1).None?;
    assert InjectedPriceMatch("a , b", 0) == Some((2, 3));
  }

  /** `src || getAttribute('data-src') || ''` of an image. */
  function InjectedImageChain(e: Element): (r: string)
    ensures IsFirstNonEmpty(r, [AttrOr(e, "src"), AttrOr(e, "data-src")])
  {
    FirstNonEmpty([AttrOr(e, "src"), AttrOr(e, "data-src")])
  }

  /** The value `handleExtractClick` reads off the clicked element, before `trim`. */
  function InjectedValue(page: Element, p: Path, field: string): (r: string)
    requires Valid(page, p)
    ensures field == "image" && Node(page, p).tag == "IMG" ==> r == InjectedImageChain(Node(page, p))
    ensures field == "image" && Node(page, p).tag != "IMG" && FirstImg(page, p).None? ==> r == ""
    ensures var d := Descendants(page, p);
      field == "image" && Node(page, p).tag != "IMG" ==>
        forall k :: FirstTagAt(d, page, "IMG", k) ==> r == InjectedImageChain(Node(page, d[k]))
    ensures field == "price" ==> IsInfix(r, TextContent(Node(page, p))) && Trim(r) == r
    ensures field != "image" && field != "price" ==>
      IsFirstNonEmpty(r, [TextContent(Node(page, p)), Node(page, p).value])
  {
    var e := Node(page, p);
    if field == "image" then
      if e.tag == "IMG" then InjectedImageChain(e)
      else match FirstImg(page, p)
        case Some(q) =>
          var d := Descendants(page, p);
          assert forall k :: FirstTagAt(d, page, "IMG", k) ==> d[k] == q by {
            var k0 :| FirstTagAt(d, page, "IMG", k0) && d[k0] == q;
            forall k | FirstTagAt(d, page, "IMG", k)
              ensures k == k0
            {
            }
          }
          InjectedImageChain(Node(page, q))
        case None => ""
    else if field == "price" then
      InjectedPrice(TextContent(e))
    else FirstNonEmpty([TextContent(e), e.value])
  }

  /** The payload `{ [field]: value.trim(), url, timestamp }` the click sends.
      A field named url or timestamp keeps its first place in the literal and
      takes the later value. */
  function ClickPayload(field: string, value: string, env: Env): (r: Payload)
    ensures DistinctKeys(r)
    ensures Get(r, "url") == Str(env.url) && Get(r, "timestamp") == Str(env.now)
    ensures field != "url" && field != "timestamp" ==> Get(r, field) == Str(Trim(value))
    ensures r[0].0 == field
  {
    if field == "url" then [("url", Str(env.url)), ("timestamp", Str(env.now))]
    else if field == "timestamp" then [("timestamp", Str(env.now)), ("url", Str(env.url))]
    else
      var r := [(field, Str(Trim(value))), ("url", Str(env.url)), ("timestamp", Str(env.now))];
      assert r[1..][1..] == [("timestamp", Str(env.now))];
      assert Get(r, "timestamp") == Get(r[1..], "timestamp") == Get(r[1..][1..], "timestamp");
      r
  }

  /** The host reads the clicked field and its trimmed value back from the
      payload, unless the field is called url or timestamp, whose values the
      later properties overwrite. */
  lemma ClickPayloadField(field: string, value: string, env: Env)
    ensures field != "url" && field != "timestamp" ==>
      FieldOf(ClickPayload(field, value, env)) == Some(field) && Get(ClickPayload(field, value, env), field) == Str(Trim(value))
    ensures field == "url" || field == "timestamp" ==> FieldOf(ClickPayload(field, value, env)).None?
  {
  }
}
