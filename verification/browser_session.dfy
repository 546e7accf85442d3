/** The state the browser preload script keeps between events, and the
    operations the main process and the page's events drive: starting and
    stopping a selection, the mouse handlers, the click that extracts a field,
    finding similar records from a template, and clearing the highlights. */
module BrowserSession {
  import opened Wrappers
  import opened Text
  import opened Dom
  import opened Css
  import opened Extraction
  import opened BrowserEngine
  import opened PageMarks
  import opened Sequences

  /** The module-level variables of the script, with the page they act on and
      the messages sent so far. `highlighted` may list an element twice. */
  datatype Session = Session(
    page: Element,
    selection: Selection,
    highlighted: seq<Path>,
    extracted: seq<Item>,
    template: Template,
    mode: string,
    sent: seq<Message>)

  /** The state when the script loads. */
  function Init(page: Element): (r: Session)
    ensures Live(r) && r.highlighted == [] && r.extracted == [] && r.selection == Idle
    ensures BoundFields(r.template) == [] && r.mode == "manual"
  {
    Session(page, Idle, [], [], EmptyTemplate, "manual", [])
  }

  // ---------------------------------------------------------------- invariants

  /** The references the script holds point at elements of the page. */
  predicate Live(st: Session) {
    && WellFormedTemplate(st.template)
    && (forall f :: f in st.template.bound ==> Valid(st.page, st.template.bound[f].element))
    && (forall k :: 0 <= k < |st.highlighted| ==> Valid(st.page, st.highlighted[k]))
  }

  /** Every element carrying a selection or similarity mark is in
      `highlightedElements`, so that clearing them reaches it. */
  ghost predicate Tracked(st: Session) {
    forall q :: (HasClassAt(st.page, q, SelectedClass) || HasClassAt(st.page, q, SimilarClass)) ==> q in st.highlighted
  }

  lemma LiveOnSameShape(st: Session, page: Element)
    requires Live(st) && SameShape(st.page, page)
    ensures Live(st.(page := page))
  {
  }

  // ---------------------------------------------------------------- selection

  /** `startSelection(field)`. */
  function StartSelection(st: Session, field: string): (r: Session)
    ensures r.selection == Selecting(field)
    ensures r == st.(page := r.page, selection := Selecting(field))
    ensures SameShape(st.page, r.page)
    ensures BodyPath(st.page).Some? ==> HasClassAt(r.page, BodyPath(st.page).value, SelectingClass)
    ensures forall q, d :: !(Some(q) == BodyPath(st.page) && d == SelectingClass) ==>
      (HasClassAt(r.page, q, d) <==> HasClassAt(st.page, q, d))
    ensures Live(st) ==> Live(r)
    ensures Tracked(st) ==> Tracked(r)
  {
    EngineClassesAreTokens();
    var page := BodyClass(st.page, true, SelectingClass);
    LiveImpliesOnShape(st, page);
    st.(page := page, selection := Selecting(field))
  }

  /** `stopSelection()`. */
  function StopSelection(st: Session): (r: Session)
    ensures r.selection == Idle
    ensures r == st.(page := r.page, selection := Idle)
    ensures SameShape(st.page, r.page)
    ensures BodyPath(st.page).Some? ==> !HasClassAt(r.page, BodyPath(st.page).value, SelectingClass)
    ensures forall q, d :: !(Some(q) == BodyPath(st.page) && d == SelectingClass) ==>
      (HasClassAt(r.page, q, d) <==> HasClassAt(st.page, q, d))
    ensures forall q :: Outlined(r.page, q) <==> Outlined(st.page, q)
    ensures Live(st) ==> Live(r)
    ensures Tracked(st) ==> Tracked(r)
  {
    EngineClassesAreTokens();
    var page := BodyClass(st.page, false, SelectingClass);
    LiveImpliesOnShape(st, page);
    st.(page := page, selection := Idle)
  }

  lemma LiveImpliesOnShape(st: Session, page: Element)
    requires SameShape(st.page, page)
    ensures Live(st) ==> Live(st.(page := page))
  {
  }

  /** Stopping right after starting gives back the page, when the body did not
      already carry the selecting class. */
  lemma StopUndoesStart(st: Session, field: string)
    requires BodyPath(st.page).None? || !HasClassAt(st.page, BodyPath(st.page).value, SelectingClass)
    ensures var r := StopSelection(StartSelection(st, field));
      r.selection == Idle && SameShape(r.page, st.page) &&
      forall q, d :: HasClassAt(r.page, q, d) <==> HasClassAt(st.page, q, d)
  {
    var mid := StartSelection(st, field);
    assert BodyPath(mid.page) == BodyPath(st.page) by {
      EngineClassesAreTokens();
      BodyPathOnSameShape(st.page, mid.page, SelectingClass);
    }
  }

  /** `setExtractionMode(mode)`. */
  function SetExtractionMode(st: Session, mode: string): (r: Session)
    ensures r.mode == mode && r == st.(mode := mode)
  {
    st.(mode := mode)
  }

  // ---------------------------------------------------------------- events

  predicate IsBodyOrRoot(page: Element, p: Path) {
    p == [] || BodyPath(page) == Some(p)
  }

  /** The page's mouseover, mouseout and click listeners (capturing). The
      result says whether the event's default action was prevented. */
  method HandleEvent(st: Session, ev: Event, env: Env) returns (r: Session, prevented: bool)
    requires Live(st) && Valid(st.page, ev.target)
    ensures !st.selection.Selecting? ==> r == st && !prevented
    ensures st.selection.Selecting? && ev.MouseOver? ==>
      prevented && r == st.(page := r.page) && SameShape(st.page, r.page)
      && (forall q, d :: HasClassAt(r.page, q, d) <==> HasClassAt(st.page, q, d))
      && (forall q :: q != ev.target ==> (Outlined(r.page, q) <==> Outlined(st.page, q)))
      && (Outlined(r.page, ev.target) <==> (Outlined(st.page, ev.target) || !IsBodyOrRoot(st.page, ev.target)))
    ensures st.selection.Selecting? && ev.MouseOut? ==>
      !prevented && r == st.(page := r.page) && SameShape(st.page, r.page)
      && (forall q, d :: HasClassAt(r.page, q, d) <==> HasClassAt(st.page, q, d))
      && (forall q :: q != ev.target ==> (Outlined(r.page, q) <==> Outlined(st.page, q)))
      && !Outlined(r.page, ev.target)
    ensures st.selection.Selecting? && ev.Click? ==>
      prevented && r.selection == Idle && r.highlighted == st.highlighted + [ev.target]
      && HasClassAt(r.page, ev.target, SelectedClass)
      && (forall q :: Outlined(r.page, q) <==> Outlined(st.page, q))
    ensures st.selection.Selecting? && ev.Click? ==>
      Committed(st, ev.target, ExtractValue(st.page, ev.target, st.selection.field), env, r)
    ensures st.selection.Selecting? && ev.Click? && st.mode == "template" ==>
      r.template.bound[st.selection.field].selector == SelectorOf(st.page, ev.target)
    ensures Live(r)
    ensures Tracked(st) ==> Tracked(r)
  {
    if !st.selection.Selecting? {
      return st, false;
    }
    match ev
    case MouseOver(p) =>
      prevented := true;
      if IsBodyOrRoot(st.page, p) {
        r := st;
      } else {
        OutlineShape(st.page, p, true);
        r := st.(page := SetOutlineAt(st.page, p, true));
      }
    case MouseOut(p) =>
      prevented := false;
      OutlineShape(st.page, p, false);
      r := st.(page := SetOutlineAt(st.page, p, false));
    case Click(p) =>
      prevented := true;
      r := ExtractData(st, p, env);
  }

  /** `extractDataFromElement(element)`: the value and selector of the clicked
      element are bound to the field (template mode) or recorded as a new item
      (any other mode), the element is marked selected and selection stops. */
  method ExtractData(st: Session, p: Path, env: Env) returns (r: Session)
    requires Live(st) && st.selection.Selecting? && Valid(st.page, p)
    ensures Committed(st, p, ExtractValue(st.page, p, st.selection.field), env, r)
    ensures st.mode == "template" ==> r.template.bound[st.selection.field].selector == SelectorOf(st.page, p)
  {
    var field := st.selection.field;
    var value := ExtractValue(st.page, p, field);
    var selector := GenerateSelector(st.page, p);
    r := Commit(st, p, value, selector, env);
  }

  /** What a click while selecting does, given the value read from the
      element: in template mode the field is bound to the element, otherwise a
      record is extracted; either way the element gets the selection mark and
      is recorded, selection mode ends, and no other class changes. */
  ghost predicate Committed(st: Session, p: Path, value: Option<string>, env: Env, r: Session)
    requires st.selection.Selecting? && WellFormedTemplate(st.template)
  {
    CommittedData(st, p, value, env, r) && CommittedPage(st, p, r)
  }

  /** The template or the extracted records, and the messages. */
  ghost predicate CommittedData(st: Session, p: Path, value: Option<string>, env: Env, r: Session)
    requires st.selection.Selecting? && WellFormedTemplate(st.template)
  {
    var field := st.selection.field;
    && (st.mode == "template" ==>
        && field in r.template.bound
        && r.template.bound[field].element == p && r.template.bound[field].value == value
        && r.template == Bind(st.template, field, r.template.bound[field])
        && r.sent == st.sent + [ElementSelected(field, value, r.template.bound[field].selector)]
        && r.extracted == st.extracted)
    && (st.mode != "template" ==>
        && r.extracted == st.extracted + [ManualItem(field, value, env)]
        && r.sent == st.sent + [DataExtracted(ManualItem(field, value, env))]
        && r.template == st.template)
    && r.selection == Idle && r.mode == st.mode
    && r.highlighted == st.highlighted + [p]
  }

  /** The marks on the page and the references into it. */
  ghost predicate CommittedPage(st: Session, p: Path, r: Session) {
    && HasClassAt(r.page, p, SelectedClass)
    && SameShape(st.page, r.page)
    && (forall q, d :: d != SelectedClass && d != SelectingClass ==> (HasClassAt(r.page, q, d) <==> HasClassAt(st.page, q, d)))
    && (forall q :: Outlined(r.page, q) <==> Outlined(st.page, q))
    && Live(r)
    && (Tracked(st) ==> Tracked(r))
  }

  function Commit(st: Session, p: Path, value: Option<string>, selector: string, env: Env): (r: Session)
    requires Live(st) && st.selection.Selecting? && Valid(st.page, p)
    ensures Committed(st, p, value, env, r)
  {
    var s := Record(st, p, st.selection.field, value, selector, env);
    CommitData(st, p, value, selector, env);
    CommitPage(st, p, value, selector, env);
    StopSelection(MarkSelected(s, p))
  }

  lemma CommitData(st: Session, p: Path, value: Option<string>, selector: string, env: Env)
    requires Live(st) && st.selection.Selecting? && Valid(st.page, p)
    ensures var s := Record(st, p, st.selection.field, value, selector, env);
      CommittedData(st, p, value, env, StopSelection(MarkSelected(s, p)))
  {
  }

  lemma CommitPage(st: Session, p: Path, value: Option<string>, selector: string, env: Env)
    requires Live(st) && st.selection.Selecting? && Valid(st.page, p)
    ensures var s := Record(st, p, st.selection.field, value, selector, env);
      CommittedPage(st, p, StopSelection(MarkSelected(s, p)))
  {
    var s := Record(st, p, st.selection.field, value, selector, env);
    var m := MarkSelected(s, p);
    var r := StopSelection(m);
    assert s.page == st.page;
    MarkSelectedKeeps(s, p);
    EngineClassesDistinct();
    assert HasClassAt(m.page, p, SelectedClass);
    assert HasClassAt(r.page, p, SelectedClass);
    forall q, d | d != SelectedClass && d != SelectingClass
      ensures HasClassAt(r.page, q, d) <==> HasClassAt(st.page, q, d)
    {
      assert HasClassAt(r.page, q, d) <==> HasClassAt(m.page, q, d);
    }
    forall q ensures Valid(st.page, q) <==> Valid(r.page, q) {
      assert Valid(s.page, q) <==> Valid(m.page, q);
      assert Valid(m.page, q) <==> Valid(r.page, q);
    }
    assert Live(r);
    if Tracked(st) {
      assert Tracked(s);
      assert Tracked(m);
    }
  }



  /** The template binding (template mode) or the new record (any other mode)
      of one clicked value, with the message that announces it. */
  function Record(st: Session, p: Path, field: string, value: Option<string>, selector: string, env: Env): (r: Session)
    requires Live(st) && Valid(st.page, p)
    ensures st.mode == "template" ==>
      && r.template == Bind(st.template, field, Binding(p, selector, value))
      && r.sent == st.sent + [ElementSelected(field, value, selector)]
      && r.extracted == st.extracted
    ensures st.mode != "template" ==>
      && r.extracted == st.extracted + [ManualItem(field, value, env)]
      && r.sent == st.sent + [DataExtracted(ManualItem(field, value, env))]
      && r.template == st.template
    ensures r == st.(template := r.template, extracted := r.extracted, sent := r.sent)
    ensures Live(r)
  {
    if st.mode == "template" then
      st.(template := Bind(st.template, field, Binding(p, selector, value)),
          sent := st.sent + [ElementSelected(field, value, selector)])
    else
      var item := ManualItem(field, value, env);
      st.(extracted := st.extracted + [item], sent := st.sent + [DataExtracted(item)])
  }

  /** `element.classList.add("extractor-selected")` and
      `highlightedElements.push(element)`. */
  function MarkSelected(st: Session, p: Path): (r: Session)
    requires Live(st) && Valid(st.page, p)
    ensures r == st.(page := r.page, highlighted := st.highlighted + [p])
    ensures SameShape(st.page, r.page)
    ensures forall q, d :: HasClassAt(r.page, q, d) <==> HasClassAt(st.page, q, d) || (q == p && d == SelectedClass)
    ensures forall q :: Outlined(r.page, q) <==> Outlined(st.page, q)
  {
    AddClassShape(st.page, p, SelectedClass);
    st.(page := AddClassAt(st.page, p, SelectedClass), highlighted := st.highlighted + [p])
  }

  /** The selection mark goes on a recorded element, so the references stay
      live and every marked element stays recorded. */
  lemma MarkSelectedKeeps(st: Session, p: Path)
    requires Live(st) && Valid(st.page, p)
    ensures Live(MarkSelected(st, p))
    ensures Tracked(st) ==> Tracked(MarkSelected(st, p))
  {
    var r := MarkSelected(st, p);
    LiveOnSameShape(st, r.page);
    forall k | 0 <= k < |r.highlighted|
      ensures Valid(r.page, r.highlighted[k])
    {
      if k < |st.highlighted| {
        assert r.highlighted[k] == st.highlighted[k];
      }
    }
    if Tracked(st) {
      forall q | HasClassAt(r.page, q, SelectedClass) || HasClassAt(r.page, q, SimilarClass)
        ensures q in r.highlighted
      {
        if q == p {
          assert r.highlighted[|st.highlighted|] == p;
        } else {
          assert q in st.highlighted;
        }
      }
    }
  }


  // ---------------------------------------------------------------- clearing

  /** `element.classList.remove("extractor-selected", "extractor-similar")`
      and `removeHighlight(element)` on each element in turn. */
  function Unhighlight(page: Element, ps: seq<Path>): (r: Element)
    ensures SameShape(page, r)
    ensures forall q, d :: HasClassAt(r, q, d) <==>
      HasClassAt(page, q, d) && !(q in ps && (d == SelectedClass || d == SimilarClass))
    ensures forall q :: Outlined(r, q) <==> Outlined(page, q) && q !in ps
    decreases |ps|
  {
    if |ps| == 0 then page
    else
      var p := ps[0];
      var a := RemoveClassAt(page, p, SelectedClass);
      var b := RemoveClassAt(a, p, SimilarClass);
      var c := SetOutlineAt(b, p, false);
      RemoveClassShape(page, p, SelectedClass);
      RemoveClassShape(a, p, SimilarClass);
      OutlineShape(b, p, false);
      var r := Unhighlight(c, ps[1..]);
      assert forall q :: q in ps <==> q == p || q in ps[1..];
      r
  }

  /** `clearHighlights()`: every highlighted element loses its marks and inline
      outline, and the list, the extracted records and the template are reset. */
  function ClearHighlights(st: Session): (r: Session)
    ensures r.highlighted == [] && r.extracted == [] && r.template == EmptyTemplate
    ensures r.selection == st.selection && r.mode == st.mode && r.sent == st.sent
    ensures SameShape(st.page, r.page)
    ensures forall q, d :: d != SelectedClass && d != SimilarClass ==> (HasClassAt(r.page, q, d) <==> HasClassAt(st.page, q, d))
    ensures forall q :: q in st.highlighted ==> !Outlined(r.page, q)
    ensures Live(r)
    ensures Tracked(st) ==> Tracked(r)
  {
    var page := Unhighlight(st.page, st.highlighted);
    Session(page, st.selection, [], [], EmptyTemplate, st.mode, st.sent)
  }

  /** Once every mark is tracked, clearing removes all of them. */
  lemma ClearRemovesAllMarks(st: Session)
    requires Tracked(st)
    ensures forall q :: !HasClassAt(ClearHighlights(st).page, q, SelectedClass)
    ensures forall q :: !HasClassAt(ClearHighlights(st).page, q, SimilarClass)
  {
  }

  /** Clearing twice is clearing once. */
  lemma ClearIdempotent(st: Session)
    ensures var once := ClearHighlights(st); var twice := ClearHighlights(once);
      twice == once.(page := twice.page) && SameShape(once.page, twice.page)
      && (forall q, d :: HasClassAt(twice.page, q, d) <==> HasClassAt(once.page, q, d))
      && (forall q :: Outlined(twice.page, q) <==> Outlined(once.page, q))
  {
  }

  // ---------------------------------------------------------------- find similar

  /** A value `value && value.trim()` accepts: a string that is not all
      white space (see `FilledIsTrimmedNonEmpty`). */
  predicate IsFilled(v: Value) {
    v.Str? && !AllSpace(v.s)
  }

  lemma FilledIsTrimmedNonEmpty(v: Value)
    ensures IsFilled(v) <==> v.Str? && Trim(v.s) != ""
  {
    if v.Str? {
      var t := Trim(v.s);
    }
  }

  /** The record `findSimilar` starts from for each container. */
  function Draft(env: Env): (r: Item)
    ensures r.Keys == {"image", "title", "description", "price", "verified", "timestamp", "url"}
    ensures r["image"] == Null && r["title"] == Null && r["description"] == Null && r["price"] == Null
    ensures r["verified"] == Bool(false) && r["timestamp"] == Str(env.now) && r["url"] == Str(env.url)
  {
    map["image" := Null, "title" := Null, "description" := Null, "price" := Null,
        "verified" := Bool(false), "timestamp" := Str(env.now), "url" := Str(env.url)]
  }

  /** What the replay of the template over one container has built so far: the
      page, the record, whether a field was filled, and the elements marked. */
  datatype Replay = Replay(page: Element, item: Item, valid: bool, marked: seq<Path>)

  /** Only keys of `fields` changed from `before` to `after`, each to a filled
      value, and filled values stay filled. */
  predicate FilledOnly(before: Item, after: Item, fields: seq<string>) {
    && (forall key :: key in before ==> key in after)
    && (forall key :: key in after ==> key in before || key in fields)
    && (forall key :: key in after && !(key in before && after[key] == before[key]) ==> key in fields && IsFilled(after[key]))
  }

  /** Classes only grew, and only by the similarity mark on elements of `marks`. */
  ghost predicate MarkedOnly(before: Element, after: Element, marks: seq<Path>) {
    && (forall q, d :: HasClassAt(before, q, d) ==> HasClassAt(after, q, d))
    && (forall q, d :: HasClassAt(after, q, d) && !HasClassAt(before, q, d) ==> d == SimilarClass && q in marks)
    && (forall k :: 0 <= k < |marks| ==> HasClassAt(after, marks[k], SimilarClass))
  }

  /** The element `findSimilarElementInContainer` finds for a bound field
      and its value, when that value is filled. */
  function Pick(page: Element, container: Path, b: Binding, f: string): (r: Option<(Path, string)>)
    requires Valid(page, container) && Valid(page, b.element)
    ensures r.Some? ==> Valid(page, r.value.0) && r.value.0 in Descendants(page, container) && IsFilled(Str(r.value.1))
  {
    match FindInContainer(page, container, b)
    case None => None
    case Some(q) =>
      var v := ExtractValue(page, q, f);
      if v.Some? && IsFilled(Str(v.value)) then Some((q, v.value)) else None
  }

  /** `Pick` finds exactly the element `findSimilarElementInContainer`
      returns, when `extractValue` gives it a filled value. */
  lemma PickIsFound(page: Element, container: Path, b: Binding, f: string)
    requires Valid(page, container) && Valid(page, b.element)
    ensures var r := Pick(page, container, b, f);
      && (r.Some? <==>
            && FindInContainer(page, container, b).Some?
            && var v := ExtractValue(page, FindInContainer(page, container, b).value, f);
               v.Some? && IsFilled(Str(v.value)))
      && (r.Some? ==>
            && FindInContainer(page, container, b) == Some(r.value.0)
            && ExtractValue(page, r.value.0, f) == Some(r.value.1))
  {
  }

  /** One field of the template in one container: the element found for it,
      if its value is filled, gives the record's value and is marked similar. */
  function FillField(t: Template, container: Path, f: string, acc: Replay): (r: Replay)
    requires f in t.bound && Valid(acc.page, container) && Valid(acc.page, t.bound[f].element)
    ensures SameShape(acc.page, r.page)
    ensures Pick(acc.page, container, t.bound[f], f).None? ==> r == acc
    ensures Pick(acc.page, container, t.bound[f], f).Some? ==>
      var (q, v) := Pick(acc.page, container, t.bound[f], f).value;
      && r.marked == acc.marked + [q]
      && r.item == acc.item[f := Str(v)]
      && r.page == AddClassAt(acc.page, q, SimilarClass)
      && r.valid
    ensures FilledOnly(acc.item, r.item, [f])
  {
    match Pick(acc.page, container, t.bound[f], f)
    case None => acc
    case Some((q, v)) =>
      EngineClassesAreTokens();
      AddClassKeepsShape(acc.page, q, SimilarClass);
      Replay(AddClassAt(acc.page, q, SimilarClass), acc.item[f := Str(v)], true, acc.marked + [q])
  }

  /** The page changes of one field: the similarity mark on the new element. */
  lemma FillFieldMarks(t: Template, container: Path, f: string, acc: Replay)
    requires f in t.bound && Valid(acc.page, container) && Valid(acc.page, t.bound[f].element)
    ensures var r := FillField(t, container, f, acc);
      && MarkedOnly(acc.page, r.page, r.marked[|acc.marked|..])
      && forall q :: Outlined(r.page, q) <==> Outlined(acc.page, q)
  {
    var r := FillField(t, container, f, acc);
    if r.marked == acc.marked {
      assert r.marked[|acc.marked|..] == [];
      MarkedOnlyRefl(acc.page);
    } else {
      var q := r.marked[|acc.marked|];
      assert r.marked[|acc.marked|..] == [q];
      EngineClassesAreTokens();
      AddClassMarks(acc.page, q);
    }
  }

  /** Adding the similarity mark to a valid element marks only it. */
  lemma AddClassMarks(page: Element, q: Path)
    requires Valid(page, q) && IsToken(SimilarClass)
    ensures MarkedOnly(page, AddClassAt(page, q, SimilarClass), [q])
    ensures forall p :: Outlined(AddClassAt(page, q, SimilarClass), p) <==> Outlined(page, p)
  {
    AddClassShape(page, q, SimilarClass);
  }

  /** The bound fields in turn, as `templateFields.forEach` does. */
  function FillFields(t: Template, container: Path, fields: seq<string>, acc: Replay): (r: Replay)
    requires Valid(acc.page, container)
    requires forall k :: 0 <= k < |fields| ==> fields[k] in t.bound && Valid(acc.page, t.bound[fields[k]].element)
    ensures SameShape(acc.page, r.page)
    ensures |acc.marked| <= |r.marked| && r.marked[..|acc.marked|] == acc.marked
    ensures r.valid == (acc.valid || |r.marked| > |acc.marked|)
    decreases |fields|
  {
    if |fields| == 0 then
      acc
    else
      var next := FillField(t, container, fields[0], acc);
      var r := FillFields(t, container, fields[1..], next);
      MarksAppend(acc.marked, next.marked, r.marked);
      r
  }

  /** The record a replay builds: only template fields change, each to a
      filled value. */
  lemma {:induction false} FillFieldsItem(t: Template, container: Path, fields: seq<string>, acc: Replay)
    requires Valid(acc.page, container)
    requires forall k :: 0 <= k < |fields| ==> fields[k] in t.bound && Valid(acc.page, t.bound[fields[k]].element)
    ensures FilledOnly(acc.item, FillFields(t, container, fields, acc).item, fields)
    decreases |fields|
  {
    if |fields| > 0 {
      var f := fields[0];
      var next := FillField(t, container, f, acc);
      var r := FillFields(t, container, fields[1..], next);
      FillFieldsItem(t, container, fields[1..], next);
      assert fields == [f] + fields[1..];
      FilledOnlyCompose(acc.item, next.item, r.item, [f], fields[1..]);
    }
  }

  /** When a replay becomes valid, some template field of its record is filled. */
  lemma {:induction false} FillFieldsFilled(t: Template, container: Path, fields: seq<string>, acc: Replay)
    requires Valid(acc.page, container)
    requires forall k :: 0 <= k < |fields| ==> fields[k] in t.bound && Valid(acc.page, t.bound[fields[k]].element)
    ensures var r := FillFields(t, container, fields, acc);
      r.valid && !acc.valid ==> exists key :: key in fields && key in r.item && IsFilled(r.item[key])
    decreases |fields|
  {
    if |fields| > 0 {
      var f := fields[0];
      var next := FillField(t, container, f, acc);
      var r := FillFields(t, container, fields[1..], next);
      if next.valid && !acc.valid {
        FillFieldsItem(t, container, fields[1..], next);
        FilledStays(next.item, r.item, fields[1..], f);
        assert f in fields;
      } else {
        FillFieldsFilled(t, container, fields[1..], next);
        forall key | key in fields[1..] ensures key in fields {
        }
      }
    }
  }

  /** The page a replay builds: only the similarity mark is added, on the
      elements recorded as marked, and no outline changes. */
  lemma {:induction false} FillFieldsMarks(t: Template, container: Path, fields: seq<string>, acc: Replay)
    requires Valid(acc.page, container)
    requires forall k :: 0 <= k < |fields| ==> fields[k] in t.bound && Valid(acc.page, t.bound[fields[k]].element)
    ensures var r := FillFields(t, container, fields, acc);
      && MarkedOnly(acc.page, r.page, r.marked[|acc.marked|..])
      && forall q :: Outlined(r.page, q) <==> Outlined(acc.page, q)
    decreases |fields|
  {
    if |fields| == 0 {
      assert acc.marked[|acc.marked|..] == [];
      MarkedOnlyRefl(acc.page);
    } else {
      var next := FillField(t, container, fields[0], acc);
      var r := FillFields(t, container, fields[1..], next);
      FillFieldMarks(t, container, fields[0], acc);
      FillFieldsMarks(t, container, fields[1..], next);
      MarksAppend(acc.marked, next.marked, r.marked);
      MarkedOnlyCompose(acc.page, next.page, r.page, next.marked[|acc.marked|..], r.marked[|next.marked|..]);
    }
  }

  /** Extending a list twice extends it once. */
  lemma MarksAppend(a: seq<Path>, b: seq<Path>, c: seq<Path>)
    requires |a| <= |b| && b[..|a|] == a
    requires |b| <= |c| && c[..|b|] == b
    ensures |a| <= |c| && c[..|a|] == a
    ensures c[|a|..] == b[|a|..] + c[|b|..]
  {
    assert c[..|a|] == c[..|b|][..|a|];
  }

  lemma FilledOnlyCompose(a: Item, b: Item, c: Item, fs: seq<string>, gs: seq<string>)
    requires FilledOnly(a, b, fs) && FilledOnly(b, c, gs)
    ensures FilledOnly(a, c, fs + gs)
  {
    forall key | key in c && !(key in a && c[key] == a[key])
      ensures key in fs + gs && IsFilled(c[key])
    {
      if key in b && c[key] == b[key] {
        assert key in fs;
      } else {
        assert key in gs;
      }
    }
  }

  /** A filled key stays filled. */
  lemma FilledStays(a: Item, b: Item, fields: seq<string>, key: string)
    requires FilledOnly(a, b, fields)
    ensures key in a && IsFilled(a[key]) ==> key in b && IsFilled(b[key])
  {
  }

  lemma MarkedOnlyRefl(a: Element)
    ensures MarkedOnly(a, a, [])
  {
  }

  lemma MarkedOnlyCompose(a: Element, b: Element, c: Element, m1: seq<Path>, m2: seq<Path>)
    requires MarkedOnly(a, b, m1) && MarkedOnly(b, c, m2)
    ensures MarkedOnly(a, c, m1 + m2)
  {
    forall k | 0 <= k < |m1 + m2|
      ensures HasClassAt(c, (m1 + m2)[k], SimilarClass)
    {
      if k < |m1| {
        assert (m1 + m2)[k] == m1[k];
      } else {
        assert (m1 + m2)[k] == m2[k - |m1|];
      }
    }
  }

  /** The replay of the template's `fields` in container `c`, starting from
      `draft` on the session's page. */
  function Replayed(st: Session, c: Path, fields: seq<string>, draft: Item): Replay
    requires Live(st) && Valid(st.page, c)
    requires forall k :: 0 <= k < |fields| ==> fields[k] in st.template.bound
  {
    FillFields(st.template, c, fields, Replay(st.page, draft, false, []))
  }

  /** `findSimilar` keeps a record for container `c` in state `st`: the
      container lacks the selection mark, the replay filled a field, and its
      record duplicates none of the records extracted so far. */
  predicate Keeps(st: Session, c: Path, fields: seq<string>, draft: Item) {
    && Live(st) && Valid(st.page, c)
    && (forall k :: 0 <= k < |fields| ==> fields[k] in st.template.bound)
    && !HasClassAt(st.page, c, SelectedClass)
    && Replayed(st, c, fields, draft).valid
    && !IsDuplicate(st.extracted, Replayed(st, c, fields, draft).item)
  }

  /** The state after container `c` is handled in state `a`: unchanged for a
      selected container, otherwise the replay's marks are on the page and in
      the highlights, and its record is appended when it is kept. */
  ghost predicate ReplayStep(a: Session, c: Path, fields: seq<string>, draft: Item, b: Session) {
    && Live(a) && Valid(a.page, c)
    && (forall k :: 0 <= k < |fields| ==> fields[k] in a.template.bound)
    && if HasClassAt(a.page, c, SelectedClass) then b == a
       else
         var res := Replayed(a, c, fields, draft);
         b == a.(page := res.page, highlighted := a.highlighted + res.marked,
                 extracted := a.extracted + if Keeps(a, c, fields, draft) then [res.item] else [])
  }

  /** One container of `findSimilar`: skipped when it carries the selection
      mark, otherwise the template is replayed in it and the record kept when
      a field was filled and it duplicates no record so far. */
  method ReplayContainer(st: Session, c: Path, fields: seq<string>, draft: Item) returns (r: Session, kept: Option<Item>)
    requires Live(st) && Valid(st.page, c)
    requires forall k :: 0 <= k < |fields| ==> fields[k] in st.template.bound
    ensures HasClassAt(st.page, c, SelectedClass) ==> r == st && kept.None?
    ensures kept.Some? <==> Keeps(st, c, fields, draft)
    ensures kept.Some? ==> kept.value == Replayed(st, c, fields, draft).item
    ensures ReplayStep(st, c, fields, draft, r)
    ensures Steady(st, r)
    ensures SameShape(st.page, r.page) && Live(r)
    ensures |st.highlighted| <= |r.highlighted| && r.highlighted[..|st.highlighted|] == st.highlighted
    ensures MarkedOnly(st.page, r.page, r.highlighted[|st.highlighted|..])
    ensures forall q :: Outlined(r.page, q) <==> Outlined(st.page, q)
    ensures kept.None? ==> r.extracted == st.extracted
    ensures kept.Some? ==>
      && r.extracted == st.extracted + [kept.value]
      && !HasClassAt(st.page, c, SelectedClass)
      && !IsDuplicate(st.extracted, kept.value)
      && FilledRecord(kept.value, fields, draft)
  {
    if HasClassAt(st.page, c, SelectedClass) {
      assert st.highlighted[|st.highlighted|..] == [];
      assert st.highlighted[..|st.highlighted|] == st.highlighted;
      MarkedOnlyRefl(st.page);
      return st, None;
    }
    var res := Replayed(st, c, fields, draft);
    r := st.(page := res.page, highlighted := st.highlighted + res.marked);
    ReplayMarked(st, c, fields, draft, r);
    if res.valid && !IsDuplicate(st.extracted, res.item) {
      kept := Some(res.item);
      r := r.(extracted := st.extracted + [res.item]);
    } else {
      kept := None;
    }
  }

  /** The session with a replay's marks added: the page keeps its shape and
      outlines, only the new highlights gain a mark, and a filled replay holds
      a filled record. */
  lemma ReplayMarked(st: Session, c: Path, fields: seq<string>, draft: Item, r: Session)
    requires Live(st) && Valid(st.page, c)
    requires forall k :: 0 <= k < |fields| ==> fields[k] in st.template.bound
    requires r == st.(page := Replayed(st, c, fields, draft).page,
                      highlighted := st.highlighted + Replayed(st, c, fields, draft).marked)
    ensures SameShape(st.page, r.page) && Live(r)
    ensures |st.highlighted| <= |r.highlighted| && r.highlighted[..|st.highlighted|] == st.highlighted
    ensures MarkedOnly(st.page, r.page, r.highlighted[|st.highlighted|..])
    ensures forall q :: Outlined(r.page, q) <==> Outlined(st.page, q)
    ensures Replayed(st, c, fields, draft).valid ==> FilledRecord(Replayed(st, c, fields, draft).item, fields, draft)
  {
    var acc := Replay(st.page, draft, false, []);
    var res := FillFields(st.template, c, fields, acc);
    FillFieldsItem(st.template, c, fields, acc);
    FillFieldsFilled(st.template, c, fields, acc);
    FillFieldsMarks(st.template, c, fields, acc);
    assert res.marked[0..] == res.marked;
    LiveAfterMarks(st, r, res.marked);
    assert r.highlighted[|st.highlighted|..] == res.marked;
    assert r.highlighted[..|st.highlighted|] == st.highlighted;
  }

  /** The references stay live when the page keeps its shape and the new
      highlights are marked elements. */
  lemma LiveAfterMarks(st: Session, r: Session, marks: seq<Path>)
    requires Live(st) && SameShape(st.page, r.page)
    requires r == st.(page := r.page, highlighted := st.highlighted + marks)
    requires MarkedOnly(st.page, r.page, marks)
    ensures Live(r)
  {
    forall k | 0 <= k < |r.highlighted|
      ensures Valid(r.page, r.highlighted[k])
    {
      if k < |st.highlighted| {
        assert r.highlighted[k] == st.highlighted[k];
      } else {
        assert r.highlighted[k] == marks[k - |st.highlighted|];
        assert HasClassAt(r.page, marks[k - |st.highlighted|], SimilarClass);
      }
    }
  }

  /** Tracking survives marks that are all recorded in the highlight list. */
  lemma TrackedAfterMarks(st: Session, r: Session)
    requires Tracked(st)
    requires |st.highlighted| <= |r.highlighted| && r.highlighted[..|st.highlighted|] == st.highlighted
    requires MarkedOnly(st.page, r.page, r.highlighted[|st.highlighted|..])
    ensures Tracked(r)
  {
    forall q | HasClassAt(r.page, q, SelectedClass) || HasClassAt(r.page, q, SimilarClass)
      ensures q in r.highlighted
    {
      if HasClassAt(st.page, q, SelectedClass) || HasClassAt(st.page, q, SimilarClass) {
        assert q in st.highlighted;
        var k :| 0 <= k < |st.highlighted| && st.highlighted[k] == q;
        assert r.highlighted[k] == q;
      } else {
        assert q in r.highlighted[|st.highlighted|..];
      }
    }
  }

  /** A record built from the draft by filling template fields, with at least
      one field filled. */
  ghost predicate FilledRecord(item: Item, fields: seq<string>, draft: Item) {
    && FilledOnly(draft, item, fields)
    && exists key :: key in fields && key in item && IsFilled(item[key])
  }

  /** Each record of `batch` duplicates none of the existing records and none
      of the ones before it in the batch. */
  predicate FreshBatch(existing: seq<Item>, batch: seq<Item>)
    decreases |batch|
  {
    |batch| == 0 ||
      var prior := batch[..|batch| - 1];
      FreshBatch(existing, prior) && !IsDuplicate(existing + prior, batch[|batch| - 1])
  }

  lemma FreshBatchAppend(existing: seq<Item>, batch: seq<Item>, item: Item)
    requires FreshBatch(existing, batch) && !IsDuplicate(existing + batch, item)
    ensures FreshBatch(existing, batch + [item])
  {
    assert (batch + [item])[..|batch|] == batch;
  }

  /** `findSimilar()`: in template mode with a bound field, every element the
      container selector of the first bound field's element matches is
      replayed in document order; the records kept are appended to the
      extracted data and sent together. */
  method FindSimilar(st: Session, env: Env) returns (r: Session, batch: seq<Item>, containers: seq<Path>)
    requires Live(st)
    ensures st.mode != "template" || BoundFields(st.template) == [] ==> r == st && batch == []
    ensures r.extracted == st.extracted + batch
    ensures FreshBatch(st.extracted, batch)
    ensures forall k :: 0 <= k < |batch| ==> FilledRecord(batch[k], BoundFields(st.template), Draft(env))
    ensures |containers| == |batch|
    ensures Unselected(st.page, containers)
    ensures r.sent == if batch == [] then st.sent else st.sent + [SimilarFound(batch)]
    ensures r.template == st.template && r.selection == st.selection && r.mode == st.mode
    ensures SameShape(st.page, r.page) && Live(r)
    ensures |st.highlighted| <= |r.highlighted| && r.highlighted[..|st.highlighted|] == st.highlighted
    ensures MarkedOnly(st.page, r.page, r.highlighted[|st.highlighted|..])
    ensures Tracked(st) ==> Tracked(r)
    ensures st.mode == "template" && BoundFields(st.template) != [] ==>
      var fields := BoundFields(st.template);
      var found := ContainersLike(st.page, st.template.bound[fields[0]].element);
      && (found.None? ==> r == st && batch == [])
      && (found.Some? ==> exists trail :: ScanTrace(st, found.value, fields, Draft(env), trail, containers) && trail[|found.value|] == r.(sent := st.sent))
  {
    r, batch, containers := st, [], [];
    assert r.highlighted[..|st.highlighted|] == st.highlighted;
    assert r.highlighted[|st.highlighted|..] == [];
    MarkedOnlyRefl(st.page);
    var fields := BoundFields(st.template);
    var draft := Draft(env);
    if st.mode != "template" || fields == [] {
      return;
    }
    var reference := st.template.bound[fields[0]].element;
    var found := ContainersLike(st.page, reference);
    if found.None? {
      return;
    }
    var scanned;
    scanned, batch, containers := ScanAll(st, found.value, fields, draft);
    r := if batch == [] then scanned else scanned.(sent := st.sent + [SimilarFound(batch)]);
    Announce(st, scanned, batch, containers, fields, draft, r);
    assert r.(sent := st.sent) == scanned;
  }

  /** Sending the batch after the pass: only `sent` changes, so everything
      the pass established carries over. */
  lemma Announce(st: Session, scanned: Session, batch: seq<Item>, containers: seq<Path>, fields: seq<string>, draft: Item, r: Session)
    requires Pass(st, scanned, batch, containers, fields, draft)
    requires r == if batch == [] then scanned else scanned.(sent := st.sent + [SimilarFound(batch)])
    ensures BatchPass(st, r, batch, containers, fields, draft)
    ensures r.sent == if batch == [] then st.sent else st.sent + [SimilarFound(batch)]
    ensures r.template == st.template && r.selection == st.selection && r.mode == st.mode
    ensures SameShape(st.page, r.page) && Live(r)
    ensures |st.highlighted| <= |r.highlighted| && r.highlighted[..|st.highlighted|] == st.highlighted
    ensures MarkedOnly(st.page, r.page, r.highlighted[|st.highlighted|..])
    ensures Tracked(st) ==> Tracked(r)
    ensures r.(sent := st.sent) == scanned
  {
    if Tracked(st) {
      TrackedAfterMarks(st, r);
    }
  }

  /** `document.querySelectorAll(containerSelector)` for the container
      selector built from the reference element: none when that selector does
      not parse, else elements of the page. */
  function ContainersLike(page: Element, reference: Path): (r: Option<seq<Path>>)
    requires Valid(page, reference)
    ensures r.None? <==> Parse(ContainerSelector(page, reference)).None?
    ensures r.Some? ==> forall k :: 0 <= k < |r.value| ==> Valid(page, r.value[k])
  {
    var found := QuerySelectorAll(page, ContainerSelector(page, reference));
    if found.None? then None
    else
      var all := found.value;
      assert forall k :: 0 <= k < |all| ==> Valid(page, all[k]) by {
        forall k | 0 <= k < |all| ensures Valid(page, all[k]) {
          MatchesIsValid(page, all[k], Parse(ContainerSelector(page, reference)).value);
        }
      }
      Some(all)
  }

  /** Which of the containers `all` are kept along the states `trail`. */
  ghost function KeptAlong(trail: seq<Session>, all: seq<Path>, fields: seq<string>, draft: Item): (r: seq<bool>)
    requires |all| <= |trail|
    ensures |r| == |all| && forall j :: 0 <= j < |all| ==> (r[j] <==> Keeps(trail[j], all[j], fields, draft))
  {
    seq(|all|, j requires 0 <= j < |all| => Keeps(trail[j], all[j], fields, draft))
  }

  /** `trail` lists the states of a pass over the containers `all` from `st`,
      one step per container, and `containers` are, in order, the containers
      whose record was kept. */
  ghost predicate ScanTrace(st: Session, all: seq<Path>, fields: seq<string>, draft: Item, trail: seq<Session>, containers: seq<Path>) {
    && |trail| == |all| + 1 && trail[0] == st
    && Steps(trail, all, fields, draft)
    && exists idx :: PickedAt(all, KeptAlong(trail, all, fields, draft), containers, idx)
  }

  /** Each state of `trail` follows from the one before by the step for the
      matching container of `all`. */
  ghost predicate Steps(trail: seq<Session>, all: seq<Path>, fields: seq<string>, draft: Item)
    requires |trail| == |all| + 1
  {
    forall j :: 0 <= j < |all| ==> ReplayStep(trail[j], all[j], fields, draft, trail[j + 1])
  }

  lemma StepsSnoc(trail: seq<Session>, front: seq<Path>, next: Session, c: Path, fields: seq<string>, draft: Item)
    requires |trail| == |front| + 1 && Steps(trail, front, fields, draft)
    requires ReplayStep(trail[|front|], c, fields, draft, next)
    ensures Steps(trail + [next], front + [c], fields, draft)
  {
    var trail', all' := trail + [next], front + [c];
    forall j | 0 <= j < |all'|
      ensures ReplayStep(trail'[j], all'[j], fields, draft, trail'[j + 1])
    {
      if j < |front| {
        assert trail'[j] == trail[j] && trail'[j + 1] == trail[j + 1] && all'[j] == front[j];
      } else {
        assert trail'[j] == trail[j] && trail'[j + 1] == next && all'[j] == c;
      }
    }
  }

  lemma KeptAlongSnoc(trail: seq<Session>, front: seq<Path>, next: Session, c: Path, fields: seq<string>, draft: Item)
    requires |trail| == |front| + 1
    ensures KeptAlong(trail + [next], front + [c], fields, draft)
      == KeptAlong(trail, front, fields, draft) + [Keeps(trail[|front|], c, fields, draft)]
  {
    var a := KeptAlong(trail + [next], front + [c], fields, draft);
    var b := KeptAlong(trail, front, fields, draft) + [Keeps(trail[|front|], c, fields, draft)];
    forall j | 0 <= j < |a|
      ensures a[j] == b[j]
    {
      if j < |front| {
        assert (trail + [next])[j] == trail[j] && (front + [c])[j] == front[j];
      } else {
        assert (trail + [next])[j] == trail[|front|] && (front + [c])[j] == c;
      }
    }
  }

  /** A pass over the first `i + 1` containers extends the trace by the step of
      container `i`. */
  lemma ScanTraceSnoc(st: Session, all: seq<Path>, i: nat, fields: seq<string>, draft: Item, trail: seq<Session>, containers: seq<Path>, next: Session)
    requires i < |all| && ScanTrace(st, all[..i], fields, draft, trail, containers)
    requires ReplayStep(trail[i], all[i], fields, draft, next)
    ensures ScanTrace(st, all[..i + 1], fields, draft, trail + [next],
      containers + if Keeps(trail[i], all[i], fields, draft) then [all[i]] else [])
  {
    assert all[..i + 1] == all[..i] + [all[i]];
    ScanTraceExtend(st, all[..i], all[i], fields, draft, trail, containers, next);
  }

  /** A pass over one more container extends the trace by its step. */
  lemma ScanTraceExtend(st: Session, front: seq<Path>, c: Path, fields: seq<string>, draft: Item, trail: seq<Session>, containers: seq<Path>, next: Session)
    requires ScanTrace(st, front, fields, draft, trail, containers)
    requires ReplayStep(trail[|front|], c, fields, draft, next)
    ensures ScanTrace(st, front + [c], fields, draft, trail + [next],
      containers + if Keeps(trail[|front|], c, fields, draft) then [c] else [])
  {
    StepsSnoc(trail, front, next, c, fields, draft);
    var m := Keeps(trail[|front|], c, fields, draft);
    KeptAlongSnoc(trail, front, next, c, fields, draft);
    PickedExtend(front, KeptAlong(trail, front, fields, draft), containers, c, m,
      front + [c], KeptAlong(trail + [next], front + [c], fields, draft), containers + if m then [c] else []);
  }

  /** The loop invariant of `ScanAll` after the first `i` containers. */
  ghost predicate Scanned(st: Session, all: seq<Path>, i: nat, fields: seq<string>, draft: Item, trail: seq<Session>,
                          r: Session, batch: seq<Item>, containers: seq<Path>) {
    && i <= |all|
    && Pass(st, r, batch, containers, fields, draft)
    && ScanTrace(st, all[..i], fields, draft, trail, containers) && trail[i] == r
  }

  /** The `containers.forEach` loop over the matched containers. */
  method ScanAll(st: Session, all: seq<Path>, fields: seq<string>, draft: Item)
    returns (r: Session, batch: seq<Item>, containers: seq<Path>)
    requires Live(st)
    requires forall k :: 0 <= k < |fields| ==> fields[k] in st.template.bound
    requires forall k :: 0 <= k < |all| ==> Valid(st.page, all[k])
    ensures Pass(st, r, batch, containers, fields, draft)
    ensures exists trail :: ScanTrace(st, all, fields, draft, trail, containers) && trail[|all|] == r
  {
    r, batch, containers := st, [], [];
    ghost var trail := [st];
    ScanStart(st, all, fields, draft);
    var i := 0;
    while i < |all|
      invariant Scanned(st, all, i, fields, draft, trail, r, batch, containers)
    {
      ghost var before, seen := r, containers;
      r, batch, containers := ScanContainer(st, r, batch, containers, all[i], fields, draft);
      ScanNext(st, all, i, fields, draft, trail, before, seen, r, batch, containers);
      trail := trail + [r];
      i := i + 1;
    }
    ScanDone(st, all, fields, draft, trail, r, batch, containers);
  }

  /** Before the first container: nothing changed and nothing was kept. */
  lemma ScanStart(st: Session, all: seq<Path>, fields: seq<string>, draft: Item)
    requires Live(st)
    requires forall k :: 0 <= k < |fields| ==> fields[k] in st.template.bound
    ensures Scanned(st, all, 0, fields, draft, [st], st, [], [])
  {
    assert st.highlighted[..|st.highlighted|] == st.highlighted;
    assert st.highlighted[|st.highlighted|..] == [];
    MarkedOnlyRefl(st.page);
    assert PickedAt(all[..0], KeptAlong([st], all[..0], fields, draft), [], []);
  }

  /** The loop step of `ScanAll`. */
  lemma ScanNext(st: Session, all: seq<Path>, i: nat, fields: seq<string>, draft: Item, trail: seq<Session>,
                 before: Session, seen: seq<Path>, r: Session, batch: seq<Item>, containers: seq<Path>)
    requires i < |all| && i <= |all| && ScanTrace(st, all[..i], fields, draft, trail, seen) && trail[i] == before
    requires Pass(st, r, batch, containers, fields, draft)
    requires ReplayStep(before, all[i], fields, draft, r)
    requires containers == seen + if Keeps(before, all[i], fields, draft) then [all[i]] else []
    ensures Scanned(st, all, i + 1, fields, draft, trail + [r], r, batch, containers)
  {
    ScanTraceSnoc(st, all, i, fields, draft, trail, seen, r);
  }

  /** After the last container the trace covers all of them. */
  lemma ScanDone(st: Session, all: seq<Path>, fields: seq<string>, draft: Item, trail: seq<Session>,
                 r: Session, batch: seq<Item>, containers: seq<Path>)
    requires Scanned(st, all, |all|, fields, draft, trail, r, batch, containers)
    ensures Pass(st, r, batch, containers, fields, draft)
    ensures exists trail :: ScanTrace(st, all, fields, draft, trail, containers) && trail[|all|] == r
  {
    assert all[..|all|] == all;
  }

  /** What holds of a `findSimilar` pass from `st` after some containers:
      only extraction data, highlights and the page changed, the page only by
      marks on the new highlights, and the records kept so far are fresh,
      filled, and come from unselected containers. */
  ghost predicate Pass(st: Session, r: Session, batch: seq<Item>, containers: seq<Path>, fields: seq<string>, draft: Item) {
    PagePass(st, r, fields) && BatchPass(st, r, batch, containers, fields, draft)
  }

  /** The page half of `Pass`. */
  ghost predicate PagePass(st: Session, r: Session, fields: seq<string>) {
    && (forall k :: 0 <= k < |fields| ==> fields[k] in st.template.bound)
    && Steady(st, r)
    && SameShape(st.page, r.page) && Live(r)
    && |st.highlighted| <= |r.highlighted| && r.highlighted[..|st.highlighted|] == st.highlighted
    && MarkedOnly(st.page, r.page, r.highlighted[|st.highlighted|..])
  }

  /** The records half of `Pass`. */
  ghost predicate BatchPass(st: Session, r: Session, batch: seq<Item>, containers: seq<Path>, fields: seq<string>, draft: Item) {
    && r.extracted == st.extracted + batch
    && FreshBatch(st.extracted, batch)
    && (forall k :: 0 <= k < |batch| ==> FilledRecord(batch[k], fields, draft))
    && |containers| == |batch|
    && Unselected(st.page, containers)
  }

  /** One iteration of the `containers.forEach` loop. */
  method ScanContainer(st: Session, r0: Session, batch0: seq<Item>, containers0: seq<Path>, c: Path, fields: seq<string>, draft: Item)
    returns (r: Session, batch: seq<Item>, containers: seq<Path>)
    requires Pass(st, r0, batch0, containers0, fields, draft) && Valid(st.page, c)
    ensures Pass(st, r, batch, containers, fields, draft)
    ensures ReplayStep(r0, c, fields, draft, r)
    ensures containers == containers0 + if Keeps(r0, c, fields, draft) then [c] else []
  {
    assert Valid(r0.page, c);
    var kept;
    r, kept := ReplayContainer(r0, c, fields, draft);
    ScanStep(st, r0, batch0, containers0, c, fields, draft, r, kept);
    batch := batch0 + Opt(kept);
    containers := containers0 + if kept.Some? then [c] else [];
  }

  function Opt(kept: Option<Item>): seq<Item> {
    if kept.Some? then [kept.value] else []
  }

  lemma ScanStep(st: Session, r0: Session, batch0: seq<Item>, containers0: seq<Path>, c: Path, fields: seq<string>, draft: Item, r: Session, kept: Option<Item>)
    requires Pass(st, r0, batch0, containers0, fields, draft) && Valid(st.page, c)
    requires Steady(r0, r)
    requires SameShape(r0.page, r.page) && Live(r)
    requires |r0.highlighted| <= |r.highlighted| && r.highlighted[..|r0.highlighted|] == r0.highlighted
    requires MarkedOnly(r0.page, r.page, r.highlighted[|r0.highlighted|..])
    requires kept.None? ==> r.extracted == r0.extracted
    requires kept.Some? ==>
      && r.extracted == r0.extracted + [kept.value]
      && !HasClassAt(r0.page, c, SelectedClass)
      && !IsDuplicate(r0.extracted, kept.value)
      && FilledRecord(kept.value, fields, draft)
    ensures Pass(st, r, batch0 + Opt(kept), containers0 + (if kept.Some? then [c] else []), fields, draft)
  {
    PageStep(st, r0, r, fields);
    if kept.Some? {
      SelectedUnchanged(st, r0, c);
      BatchStep(st, r0, r, batch0, containers0, c, fields, draft, kept.value);
    } else {
      assert batch0 + Opt(kept) == batch0;
      assert containers0 + [] == containers0;
    }
  }

  lemma PageStep(st: Session, r0: Session, r: Session, fields: seq<string>)
    requires PagePass(st, r0, fields)
    requires Steady(r0, r)
    requires SameShape(r0.page, r.page) && Live(r)
    requires |r0.highlighted| <= |r.highlighted| && r.highlighted[..|r0.highlighted|] == r0.highlighted
    requires MarkedOnly(r0.page, r.page, r.highlighted[|r0.highlighted|..])
    ensures PagePass(st, r, fields)
  {
    MarksCompose(st, r0, r);
  }

  lemma BatchStep(st: Session, r0: Session, r: Session, batch0: seq<Item>, containers0: seq<Path>, c: Path, fields: seq<string>, draft: Item, item: Item)
    requires BatchPass(st, r0, batch0, containers0, fields, draft)
    requires Valid(st.page, c) && !HasClassAt(st.page, c, SelectedClass)
    requires r.extracted == r0.extracted + [item]
    requires !IsDuplicate(r0.extracted, item)
    requires FilledRecord(item, fields, draft)
    ensures BatchPass(st, r, batch0 + [item], containers0 + [c], fields, draft)
  {
    FreshBatchAppend(st.extracted, batch0, item);
    UnselectedAppend(st.page, containers0, c);
    FilledAppend(batch0, item, fields, draft);
  }

  lemma FilledAppend(batch: seq<Item>, item: Item, fields: seq<string>, draft: Item)
    requires forall k :: 0 <= k < |batch| ==> FilledRecord(batch[k], fields, draft)
    requires FilledRecord(item, fields, draft)
    ensures forall k :: 0 <= k < |batch + [item]| ==> FilledRecord((batch + [item])[k], fields, draft)
  {
    forall k | 0 <= k < |batch + [item]|
      ensures FilledRecord((batch + [item])[k], fields, draft)
    {
      if k < |batch| {
        assert (batch + [item])[k] == batch[k];
      }
    }
  }

  /** Only the page, the highlights and the extracted records differ. */
  predicate Steady(a: Session, b: Session) {
    a.selection == b.selection && a.template == b.template && a.mode == b.mode && a.sent == b.sent
  }

  /** Elements of the page none of which carries the selection mark. */
  predicate Unselected(page: Element, cs: seq<Path>) {
    forall k :: 0 <= k < |cs| ==> Valid(page, cs[k]) && !HasClassAt(page, cs[k], SelectedClass)
  }

  lemma UnselectedAppend(page: Element, cs: seq<Path>, c: Path)
    requires Unselected(page, cs) && Valid(page, c) && !HasClassAt(page, c, SelectedClass)
    ensures Unselected(page, cs + [c])
  {
  }

  /** The selection mark is never added during the pass. */
  lemma SelectedUnchanged(st: Session, mid: Session, c: Path)
    requires |st.highlighted| <= |mid.highlighted|
    requires MarkedOnly(st.page, mid.page, mid.highlighted[|st.highlighted|..])
    requires !HasClassAt(mid.page, c, SelectedClass)
    ensures !HasClassAt(st.page, c, SelectedClass)
  {
  }

  /** Marks made in two stretches of the pass are marks of the whole pass. */
  lemma MarksCompose(st: Session, mid: Session, r: Session)
    requires |st.highlighted| <= |mid.highlighted| && mid.highlighted[..|st.highlighted|] == st.highlighted
    requires MarkedOnly(st.page, mid.page, mid.highlighted[|st.highlighted|..])
    requires |mid.highlighted| <= |r.highlighted| && r.highlighted[..|mid.highlighted|] == mid.highlighted
    requires MarkedOnly(mid.page, r.page, r.highlighted[|mid.highlighted|..])
    ensures |st.highlighted| <= |r.highlighted| && r.highlighted[..|st.highlighted|] == st.highlighted
    ensures MarkedOnly(st.page, r.page, r.highlighted[|st.highlighted|..])
  {
    MarksAppend(st.highlighted, mid.highlighted, r.highlighted);
    MarkedOnlyCompose(st.page, mid.page, r.page, mid.highlighted[|st.highlighted|..], r.highlighted[|mid.highlighted|..]);
  }

  /** No two records kept by one pass duplicate each other. */
  lemma {:induction false} BatchPairwiseDistinct(existing: seq<Item>, batch: seq<Item>)
    requires FreshBatch(existing, batch)
    ensures forall i, j :: 0 <= i < j < |batch| ==> !DupOf(batch[i], batch[j]) && !DupOf(batch[j], batch[i])
    decreases |batch|
  {
    if |batch| > 0 {
      var n := |batch| - 1;
      var prior := batch[..n];
      BatchPairwiseDistinct(existing, prior);
      forall i, j | 0 <= i < j < |batch|
        ensures !DupOf(batch[i], batch[j]) && !DupOf(batch[j], batch[i])
      {
        DupOfSymmetric(batch[i], batch[j]);
        if j < n {
          assert batch[i] == prior[i] && batch[j] == prior[j];
        } else {
          assert !IsDuplicate(existing + prior, batch[j]);
          assert (existing + prior)[|existing| + i] == batch[i];
        }
      }
    }
  }
}
