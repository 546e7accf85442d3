/** The state the webview extraction script keeps between events, and the
    operations the host and the page's events drive: registering the listeners,
    starting and stopping a selection, the hover handlers with their single
    tracked element, the click that extracts one field and ends the selection,
    and clearing the highlights. */
module WebviewSession {
  import opened Wrappers
  import opened Text
  import opened Dom
  import opened Extraction
  import opened PageMarks
  import opened WebviewEngine

  /** The module-level variables of the script (`lastHoveredElement` is
      `hovered`), with the page they act on and the messages sent so far. */
  datatype WebSession = WebSession(
    page: Element,
    selection: Selection,
    hovered: Option<Path>,
    highlighted: seq<Path>,
    extracted: seq<Item>,
    template: Template,
    mode: string,
    sent: seq<Message>)

  /** The state when the script loads. */
  function WebInit(page: Element): (r: WebSession)
    ensures r.selection == Idle && r.hovered == None && r.highlighted == [] && r.extracted == []
    ensures BoundFields(r.template) == [] && r.mode == "manual"
  {
    WebSession(page, Idle, None, [], [], EmptyTemplate, "manual", [])
  }

  // ---------------------------------------------------------------- invariants

  /** The references the script holds point at elements of the page. */
  predicate WebLive(st: WebSession) {
    && WellFormedTemplate(st.template)
    && (forall f :: f in st.template.bound ==> Valid(st.page, st.template.bound[f].element))
    && (forall k :: 0 <= k < |st.highlighted| ==> Valid(st.page, st.highlighted[k]))
    && (st.hovered.Some? ==> Valid(st.page, st.hovered.value))
  }

  /** At most one element carries the hover mark: the tracked one. */
  ghost predicate HoverTracked(st: WebSession) {
    forall q :: HasClassAt(st.page, q, HoverClass) ==> st.hovered == Some(q)
  }

  /** Every element carrying a selection or similarity mark is in
      `highlightedElements`. */
  ghost predicate MarksTracked(st: WebSession) {
    forall q :: (HasClassAt(st.page, q, SelectedClass) || HasClassAt(st.page, q, SimilarClass)) ==> q in st.highlighted
  }

  ghost predicate WebInv(st: WebSession) {
    WebLive(st) && HoverTracked(st) && MarksTracked(st)
  }

  /** A page none of whose elements carries a mark of the script. */
  ghost predicate Unmarked(page: Element) {
    forall q :: !HasClassAt(page, q, SelectedClass) && !HasClassAt(page, q, SimilarClass) && !HasClassAt(page, q, HoverClass)
  }

  lemma InitInv(page: Element)
    requires Unmarked(page)
    ensures WebInv(WebInit(page))
  {
    EmptyTemplateWellFormed();
  }

  // ---------------------------------------------------------------- listeners

  /** A listener callback: the script's three handlers, or one of the page's own. */
  datatype Handler = OnMouseOver | OnMouseOut | OnClick | PageHandler(name: string)

  /** An entry of the document's event listener list. */
  datatype Registration = Registration(event: string, handler: Handler, capture: bool)

  /** The three registrations of `setupExtractionListeners`, all capturing. */
  const ScriptListeners: seq<Registration> := [
    Registration("mouseover", OnMouseOver, true),
    Registration("mouseout", OnMouseOut, true),
    Registration("click", OnClick, true)]

  /** `addEventListener`: a registration already present is not added again. */
  function AddListener(ls: seq<Registration>, reg: Registration): (r: seq<Registration>)
    ensures reg in ls ==> r == ls
    ensures reg !in ls ==> r == ls + [reg]
  {
    if reg in ls then ls else ls + [reg]
  }

  /** `removeEventListener`: the registration is no longer present. */
  function RemoveListener(ls: seq<Registration>, reg: Registration): (r: seq<Registration>)
    ensures forall x :: x in r <==> x in ls && x != reg
  {
    if |ls| == 0 then []
    else if ls[0] == reg then RemoveListener(ls[1..], reg)
    else [ls[0]] + RemoveListener(ls[1..], reg)
  }

  /** The registrations of `ls` that are not the script's, in order. */
  function OthersOf(ls: seq<Registration>): (r: seq<Registration>)
    ensures forall x :: x in r <==> x in ls && x !in ScriptListeners
  {
    if |ls| == 0 then []
    else if ls[0] in ScriptListeners then OthersOf(ls[1..])
    else [ls[0]] + OthersOf(ls[1..])
  }

  /** `setupExtractionListeners()`: remove the three handlers, then add them. */
  function SetupListeners(ls: seq<Registration>): seq<Registration> {
    var cleared := RemoveListener(RemoveListener(RemoveListener(ls, ScriptListeners[0]), ScriptListeners[1]), ScriptListeners[2]);
    AddListener(AddListener(AddListener(cleared, ScriptListeners[0]), ScriptListeners[1]), ScriptListeners[2])
  }

  /** Removing the three handlers keeps the page's own registrations in order. */
  lemma {:induction false} RemoveScriptListeners(ls: seq<Registration>)
    ensures RemoveListener(RemoveListener(RemoveListener(ls, ScriptListeners[0]), ScriptListeners[1]), ScriptListeners[2]) == OthersOf(ls)
  {
    if |ls| > 0 {
      RemoveScriptListeners(ls[1..]);
      var a := RemoveListener(ls, ScriptListeners[0]);
      var b := RemoveListener(a, ScriptListeners[1]);
      if ls[0] == ScriptListeners[0] {
        assert a == RemoveListener(ls[1..], ScriptListeners[0]);
      } else {
        assert a == [ls[0]] + RemoveListener(ls[1..], ScriptListeners[0]);
        assert a[1..] == RemoveListener(ls[1..], ScriptListeners[0]);
        if ls[0] == ScriptListeners[1] {
          assert b == RemoveListener(a[1..], ScriptListeners[1]);
        } else {
          assert b == [ls[0]] + RemoveListener(a[1..], ScriptListeners[1]);
          assert b[1..] == RemoveListener(a[1..], ScriptListeners[1]);
        }
      }
    }
  }

  /** After setup the page's own registrations are kept in order and the
      script's three handlers follow. */
  lemma SetupListenersResult(ls: seq<Registration>)
    ensures SetupListeners(ls) == OthersOf(ls) + ScriptListeners
  {
    RemoveScriptListeners(ls);
    AddScriptListeners(OthersOf(ls));
  }

  /** Adding the three handlers to a list holding none of them appends them. */
  lemma AddScriptListeners(o: seq<Registration>)
    requires forall x :: x in o ==> x !in ScriptListeners
    ensures AddListener(AddListener(AddListener(o, ScriptListeners[0]), ScriptListeners[1]), ScriptListeners[2])
         == o + ScriptListeners
  {
    var sl := ScriptListeners;
    var a := o + [sl[0]];
    var b := a + [sl[1]];
    assert AddListener(o, sl[0]) == a;
    assert AddListener(a, sl[1]) == b by {
      assert sl[1] !in a;
    }
    assert AddListener(b, sl[2]) == o + sl by {
      assert sl[2] !in b;
      assert b + [sl[2]] == o + sl;
    }
  }

  /** Each of the script's handlers is registered exactly once after setup,
      however many times it was before. */
  lemma SetupRegistersOnce(ls: seq<Registration>, k: nat)
    requires k < 3
    ensures multiset(SetupListeners(ls))[ScriptListeners[k]] == 1
  {
    SetupListenersResult(ls);
    OnceAfterOthers(OthersOf(ls), k);
  }

  lemma OnceAfterOthers(o: seq<Registration>, k: nat)
    requires forall x :: x in o ==> x !in ScriptListeners
    requires k < 3
    ensures multiset(o + ScriptListeners)[ScriptListeners[k]] == 1
  {
    var sl := ScriptListeners;
    assert multiset(o + sl) == multiset(o) + multiset(sl);
    assert sl[k] in sl;
    assert sl[k] !in multiset(o);
    assert multiset(sl) == multiset{sl[0], sl[1], sl[2]};
  }

  /** Running the setup again changes nothing. */
  lemma {:induction false} SetupListenersIdempotent(ls: seq<Registration>)
    ensures SetupListeners(SetupListeners(ls)) == SetupListeners(ls)
  {
    SetupListenersResult(ls);
    SetupListenersResult(SetupListeners(ls));
    OthersOfAppendScript(OthersOf(ls));
  }

  lemma OthersOfAppendScript(o: seq<Registration>)
    requires forall x :: x in o ==> x !in ScriptListeners
    ensures OthersOf(o + ScriptListeners) == o
  {
    if |o| == 0 {
      var sl := ScriptListeners;
      assert o + sl == sl;
      assert sl[1..][0] == sl[1] && sl[1..][1..] == sl[2..];
      assert sl[2..][0] == sl[2] && sl[2..][1..] == [];
      assert OthersOf(sl) == OthersOf(sl[1..]) == OthersOf(sl[2..]) == OthersOf([]);
    } else {
      assert (o + ScriptListeners)[1..] == o[1..] + ScriptListeners;
      OthersOfAppendScript(o[1..]);
    }
  }

  // ---------------------------------------------------------------- page marks

  /** `lastHoveredElement.classList.remove('extractor-hover')`, when there is one. */
  function Unhover(page: Element, h: Option<Path>): (r: Element)
    ensures SameShape(page, r)
    ensures forall q, d :: HasClassAt(r, q, d) <==> HasClassAt(page, q, d) && !(h == Some(q) && d == HoverClass)
  {
    match h
    case Some(p) => RemoveClassShape(page, p, HoverClass); RemoveClassAt(page, p, HoverClass)
    case None => page
  }

  /** The hover mark taken off the tracked element and put on `t`. */
  function MoveHover(page: Element, h: Option<Path>, t: Path): (r: Element)
    requires Valid(page, t)
    ensures SameShape(page, r)
    ensures forall q, d :: HasClassAt(r, q, d) <==>
      (HasClassAt(page, q, d) && !(h == Some(q) && d == HoverClass)) || (q == t && d == HoverClass)
  {
    var mid := Unhover(page, h);
    AddClassShape(mid, t, HoverClass);
    AddClassAt(mid, t, HoverClass)
  }

  /** Whether `d` is one of the classes `clearHighlights` takes off. */
  predicate IsMark(d: string) {
    d == SelectedClass || d == SimilarClass || d == HoverClass
  }

  /** `element.classList.remove('extractor-selected', 'extractor-similar', 'extractor-hover')`. */
  function Unmark(page: Element, p: Path): (r: Element)
    ensures SameShape(page, r)
    ensures forall q, d :: HasClassAt(r, q, d) <==> HasClassAt(page, q, d) && !(q == p && IsMark(d))
  {
    var a := RemoveClassAt(page, p, SelectedClass);
    var b := RemoveClassAt(a, p, SimilarClass);
    RemoveClassShape(page, p, SelectedClass);
    RemoveClassShape(a, p, SimilarClass);
    RemoveClassShape(b, p, HoverClass);
    RemoveClassAt(b, p, HoverClass)
  }

  /** `highlightedElements.forEach(...)` with `Unmark`. */
  function UnmarkAll(page: Element, hs: seq<Path>): (r: Element)
    ensures SameShape(page, r)
    ensures forall q, d :: HasClassAt(r, q, d) <==> HasClassAt(page, q, d) && !(q in hs && IsMark(d))
    decreases |hs|
  {
    if |hs| == 0 then page
    else
      var r := UnmarkAll(Unmark(page, hs[0]), hs[1..]);
      assert forall q :: q in hs <==> q == hs[0] || q in hs[1..];
      r
  }

  // ---------------------------------------------------------------- selection

  /** `startSelection(field)`. */
  function WebStart(st: WebSession, field: string): (r: WebSession)
    ensures r == st.(page := r.page, selection := Selecting(field))
    ensures SameShape(st.page, r.page)
    ensures BodyPath(st.page).Some? ==> HasClassAt(r.page, BodyPath(st.page).value, SelectingClass)
    ensures forall q, d :: !(Some(q) == BodyPath(st.page) && d == SelectingClass) ==>
      (HasClassAt(r.page, q, d) <==> HasClassAt(st.page, q, d))
  {
    EngineClassesAreTokens();
    st.(page := BodyClass(st.page, true, SelectingClass), selection := Selecting(field))
  }

  /** `stopSelection()`: the selection flag and field are cleared, the body's
      selecting mark and the tracked hover mark are removed; every other class,
      the selection marks included, is left as it was. */
  function WebStop(st: WebSession): (r: WebSession)
    ensures r == st.(page := r.page, selection := Idle, hovered := None)
    ensures SameShape(st.page, r.page)
    ensures BodyPath(st.page).Some? ==> !HasClassAt(r.page, BodyPath(st.page).value, SelectingClass)
    ensures forall q, d :: d != HoverClass && d != SelectingClass ==> (HasClassAt(r.page, q, d) <==> HasClassAt(st.page, q, d))
    ensures forall q :: HasClassAt(r.page, q, HoverClass) <==> HasClassAt(st.page, q, HoverClass) && st.hovered != Some(q)
  {
    EngineClassesAreTokens();
    EngineClassesDistinct();
    var page := BodyClass(st.page, false, SelectingClass);
    st.(page := Unhover(page, st.hovered), selection := Idle, hovered := None)
  }

  /** With the hover mark tracked, none is left after stopping. */
  lemma StopClearsHover(st: WebSession)
    requires HoverTracked(st)
    ensures forall q :: !HasClassAt(WebStop(st).page, q, HoverClass)
    ensures HoverTracked(WebStop(st))
  {
  }

  /** `setExtractionMode(mode)`. */
  function WebSetMode(st: WebSession, mode: string): (r: WebSession)
    ensures r.mode == mode && r == st.(mode := mode)
  {
    st.(mode := mode)
  }

  /** The notice this script's `findSimilar` sends in place of results. */
  const FindSimilarNotice: string := "Find similar functionality to be implemented"

  /** `findSimilar()`: outside template mode, or with no field bound, nothing
      happens; otherwise one notice goes to the host. No element is searched,
      marked or recorded and no record is produced. */
  function WebFindSimilar(st: WebSession): (r: WebSession)
    ensures r == st.(sent := r.sent)
    ensures |st.sent| <= |r.sent| <= |st.sent| + 1 && r.sent[..|st.sent|] == st.sent
    ensures |r.sent| == |st.sent| + 1 <==> st.mode == "template" && BoundFields(st.template) != []
    ensures |r.sent| == |st.sent| + 1 ==>
      && r.sent[|st.sent|].DataExtracted?
      && r.sent[|st.sent|].item.Keys == {"message"}
  {
    if st.mode != "template" || BoundFields(st.template) == [] then st
    else st.(sent := st.sent + [DataExtracted(map["message" := Str(FindSimilarNotice)])])
  }

  // ---------------------------------------------------------------- hover handlers

  /** `handleMouseOver`: while selecting, a new target takes the hover mark
      from the tracked element and becomes tracked. */
  function WebMouseOver(st: WebSession, t: Path): (r: WebSession)
    requires Valid(st.page, t)
    ensures !st.selection.Selecting? || st.hovered == Some(t) ==> r == st
    ensures st.selection.Selecting? && st.hovered != Some(t) ==>
      && r == st.(page := r.page, hovered := Some(t))
      && SameShape(st.page, r.page)
      && (forall q, d :: d != HoverClass ==> (HasClassAt(r.page, q, d) <==> HasClassAt(st.page, q, d)))
      && HasClassAt(r.page, t, HoverClass)
      && (forall q :: q != t && st.hovered == Some(q) ==> !HasClassAt(r.page, q, HoverClass))
      && (forall q :: q != t && st.hovered != Some(q) ==> (HasClassAt(r.page, q, HoverClass) <==> HasClassAt(st.page, q, HoverClass)))
  {
    if !st.selection.Selecting? || st.hovered == Some(t) then st
    else st.(page := MoveHover(st.page, st.hovered, t), hovered := Some(t))
  }

  /** `handleMouseOut`: while selecting, the target loses the hover mark and
      stops being tracked. */
  function WebMouseOut(st: WebSession, t: Path): (r: WebSession)
    ensures !st.selection.Selecting? ==> r == st
    ensures st.selection.Selecting? ==>
      && r == st.(page := r.page, hovered := r.hovered)
      && SameShape(st.page, r.page)
      && (forall q, d :: HasClassAt(r.page, q, d) <==> HasClassAt(st.page, q, d) && !(q == t && d == HoverClass))
      && (r.hovered == if st.hovered == Some(t) then None else st.hovered)
  {
    if !st.selection.Selecting? then st
    else
      RemoveClassShape(st.page, t, HoverClass);
      st.(page := RemoveClassAt(st.page, t, HoverClass), hovered := if st.hovered == Some(t) then None else st.hovered)
  }

  /** Both hover handlers keep the hover mark on the tracked element only. */
  lemma HoverHandlersKeepInv(st: WebSession, t: Path)
    requires WebInv(st) && Valid(st.page, t)
    ensures WebInv(WebMouseOver(st, t))
    ensures WebInv(WebMouseOut(st, t))
  {
    MouseOverKeepsInv(st, t);
    MouseOutKeepsInv(st, t);
  }

  lemma MouseOverKeepsInv(st: WebSession, t: Path)
    requires WebInv(st) && Valid(st.page, t)
    ensures WebInv(WebMouseOver(st, t))
  {
    var r := WebMouseOver(st, t);
    if st.selection.Selecting? && st.hovered != Some(t) {
      WebLiveOnSameShape(st, r);
      HoverMovedTracked(st, r, t);
      EngineClassesDistinct();
      MarksKeptTracked(st, r);
    }
  }

  /** A page update that keeps the tree shape keeps the references valid. */
  lemma WebLiveOnSameShape(st: WebSession, r: WebSession)
    requires WebLive(st) && SameShape(st.page, r.page)
    requires r.template == st.template && r.highlighted == st.highlighted
    requires r.hovered.Some? ==> Valid(st.page, r.hovered.value)
    ensures WebLive(r)
  {
  }

  /** Moving the hover mark to `t` keeps it on the tracked element only. */
  lemma HoverMovedTracked(st: WebSession, r: WebSession, t: Path)
    requires HoverTracked(st) && r.hovered == Some(t)
    requires forall q :: q != t && st.hovered != Some(q) ==> (HasClassAt(r.page, q, HoverClass) <==> HasClassAt(st.page, q, HoverClass))
    requires forall q :: q != t && st.hovered == Some(q) ==> !HasClassAt(r.page, q, HoverClass)
    ensures HoverTracked(r)
  {
  }

  /** A page update that leaves the selection and similarity marks alone keeps
      them tracked. */
  lemma MarksKeptTracked(st: WebSession, r: WebSession)
    requires MarksTracked(st) && r.highlighted == st.highlighted
    requires forall q :: HasClassAt(r.page, q, SelectedClass) <==> HasClassAt(st.page, q, SelectedClass)
    requires forall q :: HasClassAt(r.page, q, SimilarClass) <==> HasClassAt(st.page, q, SimilarClass)
    ensures MarksTracked(r)
  {
  }

  lemma MouseOutKeepsInv(st: WebSession, t: Path)
    requires WebInv(st) && Valid(st.page, t)
    ensures WebInv(WebMouseOut(st, t))
  {
    EngineClassesDistinct();
  }

  // ---------------------------------------------------------------- click

  /** The template or record update of `extractDataFromElement` for the value and
      selector read off the element. */
  function WebRecord(st: WebSession, t: Path, field: string, value: string, selector: string, env: Env): (r: WebSession)
    requires WebLive(st) && Valid(st.page, t)
    ensures st.mode == "template" ==>
      && r.template == Bind(st.template, field, Binding(t, selector, Some(value)))
      && r.sent == st.sent + [ElementSelected(field, Some(value), selector)]
      && r.extracted == st.extracted
    ensures st.mode != "template" ==>
      && r.extracted == st.extracted + [ManualItem(field, Some(value), env)]
      && r.sent == st.sent + [DataExtracted(ManualItem(field, Some(value), env))]
      && r.template == st.template
    ensures r == st.(template := r.template, extracted := r.extracted, sent := r.sent)
    ensures WebLive(r)
  {
    if st.mode == "template" then
      st.(template := Bind(st.template, field, Binding(t, selector, Some(value))),
          sent := st.sent + [ElementSelected(field, Some(value), selector)])
    else
      var item := ManualItem(field, Some(value), env);
      st.(extracted := st.extracted + [item], sent := st.sent + [DataExtracted(item)])
  }

  /** The element loses the hover mark, gains the selection mark and is recorded. */
  function WebMark(st: WebSession, t: Path): (r: WebSession)
    requires Valid(st.page, t)
    ensures r == st.(page := r.page, highlighted := st.highlighted + [t])
    ensures SameShape(st.page, r.page)
    ensures forall q, d :: HasClassAt(r.page, q, d) <==>
      (HasClassAt(st.page, q, d) && !(q == t && d == HoverClass)) || (q == t && d == SelectedClass)
  {
    EngineClassesDistinct();
    var mid := RemoveClassAt(st.page, t, HoverClass);
    RemoveClassShape(st.page, t, HoverClass);
    AddClassShape(mid, t, SelectedClass);
    st.(page := AddClassAt(mid, t, SelectedClass), highlighted := st.highlighted + [t])
  }

  /** `extractDataFromElement(element)` given the value and selector read off it. */
  function WebCommit(st: WebSession, t: Path, value: string, selector: string, env: Env): (r: WebSession)
    requires WebLive(st) && st.selection.Selecting? && Valid(st.page, t)
    ensures WebCommitted(st, t, value, selector, env, r)
  {
    var field := st.selection.field;
    var s := WebRecord(st, t, field, value, selector, env);
    var m := WebMark(s, t);
    var r := WebStop(m);
    CommitMarks(st, s, m, r, t);
    r
  }

  /** What a click while selecting does: in template mode the field is bound to
      the element, otherwise one record with `verified: false` is added; either
      way the element gets the selection mark and is recorded, no element keeps
      the hover mark, and the selection ends. */
  ghost predicate WebCommitted(st: WebSession, t: Path, value: string, selector: string, env: Env, r: WebSession)
    requires st.selection.Selecting? && WellFormedTemplate(st.template)
  {
    var field := st.selection.field;
    && (st.mode == "template" ==>
        && r.template == Bind(st.template, field, Binding(t, selector, Some(value)))
        && r.sent == st.sent + [ElementSelected(field, Some(value), selector)]
        && r.extracted == st.extracted)
    && (st.mode != "template" ==>
        && r.extracted == st.extracted + [ManualItem(field, Some(value), env)]
        && r.sent == st.sent + [DataExtracted(ManualItem(field, Some(value), env))]
        && r.template == st.template)
    && r.selection == Idle && r.hovered == None && r.mode == st.mode
    && r.highlighted == st.highlighted + [t]
    && SameShape(st.page, r.page)
    && HasClassAt(r.page, t, SelectedClass)
    && (forall q, d :: !IsMark(d) && d != SelectingClass ==> (HasClassAt(r.page, q, d) <==> HasClassAt(st.page, q, d)))
    && (HoverTracked(st) ==> forall q :: !HasClassAt(r.page, q, HoverClass))
  }

  lemma CommitMarks(st: WebSession, s: WebSession, m: WebSession, r: WebSession, t: Path)
    requires WebLive(st) && st.selection.Selecting? && Valid(st.page, t)
    requires s.page == st.page && s.hovered == st.hovered && s.highlighted == st.highlighted && s.selection == st.selection
    requires m == WebMark(s, t) && r == WebStop(m)
    ensures r.highlighted == st.highlighted + [t] && SameShape(st.page, r.page)
    ensures HasClassAt(r.page, t, SelectedClass)
    ensures forall q, d :: !IsMark(d) && d != SelectingClass ==> (HasClassAt(r.page, q, d) <==> HasClassAt(st.page, q, d))
    ensures HoverTracked(st) ==> forall q :: !HasClassAt(r.page, q, HoverClass)
  {
    MarkThenStop(st.page, m.page, r.page, t, st.hovered);
  }

  /** The class effect of marking `t` and then stopping, on the pages alone. */
  lemma MarkThenStop(page: Element, marked: Element, stopped: Element, t: Path, hovered: Option<Path>)
    requires forall q, d :: HasClassAt(marked, q, d) <==>
      (HasClassAt(page, q, d) && !(q == t && d == HoverClass)) || (q == t && d == SelectedClass)
    requires forall q, d :: d != HoverClass && d != SelectingClass ==> (HasClassAt(stopped, q, d) <==> HasClassAt(marked, q, d))
    requires forall q :: HasClassAt(stopped, q, HoverClass) <==> HasClassAt(marked, q, HoverClass) && hovered != Some(q)
    ensures HasClassAt(stopped, t, SelectedClass)
    ensures forall q, d :: !IsMark(d) && d != SelectingClass ==> (HasClassAt(stopped, q, d) <==> HasClassAt(page, q, d))
    ensures (forall q :: HasClassAt(page, q, HoverClass) ==> hovered == Some(q)) ==> forall q :: !HasClassAt(stopped, q, HoverClass)
  {
    EngineClassesDistinct();
  }

  /** A click while selecting keeps the invariants. */
  lemma CommitKeepsInv(st: WebSession, t: Path, value: string, selector: string, env: Env)
    requires WebInv(st) && st.selection.Selecting? && Valid(st.page, t)
    ensures WebInv(WebCommit(st, t, value, selector, env))
  {
    CommitKeepsLive(st, t, value, selector, env);
    CommitKeepsMarks(st, t, value, selector, env);
  }

  lemma CommitKeepsLive(st: WebSession, t: Path, value: string, selector: string, env: Env)
    requires WebLive(st) && st.selection.Selecting? && Valid(st.page, t)
    ensures WebLive(WebCommit(st, t, value, selector, env))
  {
    var r := WebCommit(st, t, value, selector, env);
    var field := st.selection.field;
    assert WebCommitted(st, t, value, selector, env, r);
    forall f | f in r.template.bound
      ensures (f in st.template.bound && r.template.bound[f] == st.template.bound[f]) || r.template.bound[f].element == t
    {
      if st.mode == "template" && f == field {
        assert r.template.bound[f].element == t;
      }
    }
    LiveAfterMark(st, r, t);
  }

  /** The references stay valid when the page keeps its shape, the template
      only gains the marked element and so do the highlights. */
  lemma LiveAfterMark(st: WebSession, r: WebSession, t: Path)
    requires WebLive(st) && Valid(st.page, t) && SameShape(st.page, r.page)
    requires r.hovered == None && r.highlighted == st.highlighted + [t] && WellFormedTemplate(r.template)
    requires forall f :: f in r.template.bound ==>
      (f in st.template.bound && r.template.bound[f] == st.template.bound[f]) || r.template.bound[f].element == t
    ensures WebLive(r)
  {
    forall f | f in r.template.bound ensures Valid(r.page, r.template.bound[f].element) {
      assert Valid(st.page, r.template.bound[f].element);
    }
    forall k | 0 <= k < |r.highlighted| ensures Valid(r.page, r.highlighted[k]) {
      assert k == |st.highlighted| || r.highlighted[k] == st.highlighted[k];
    }
  }

  lemma CommitKeepsMarks(st: WebSession, t: Path, value: string, selector: string, env: Env)
    requires WebInv(st) && st.selection.Selecting? && Valid(st.page, t)
    ensures HoverTracked(WebCommit(st, t, value, selector, env))
    ensures MarksTracked(WebCommit(st, t, value, selector, env))
  {
    var r := WebCommit(st, t, value, selector, env);
    forall q | HasClassAt(r.page, q, SelectedClass) || HasClassAt(r.page, q, SimilarClass)
      ensures q in r.highlighted
    {
      EngineClassesDistinct();
      if q != t {
        assert HasClassAt(st.page, q, SelectedClass) || HasClassAt(st.page, q, SimilarClass);
      }
    }
  }

  /** The page's click listener. While selecting, the default action is
      prevented and the clicked element is extracted; otherwise nothing happens. */
  method WebClick(st: WebSession, t: Path, env: Env) returns (r: WebSession, prevented: bool)
    requires WebLive(st) && Valid(st.page, t)
    ensures !st.selection.Selecting? ==> r == st && !prevented
    ensures st.selection.Selecting? ==>
      prevented && WebCommitted(st, t, WebExtractValue(st.page, t, st.selection.field), WebSelectorOf(st.page, t), env, r)
  {
    if !st.selection.Selecting? {
      return st, false;
    }
    var value := WebExtractValue(st.page, t, st.selection.field);
    var selector := WebGenerateSelector(st.page, t);
    r := WebCommit(st, t, value, selector, env);
    prevented := true;
  }

  // ---------------------------------------------------------------- clearing

  /** `clearHighlights()`: the three marks come off every recorded element and
      the hover mark off the tracked one; the records, the highlights and the
      template are reset. The selection state and the mode are kept. */
  function WebClear(st: WebSession): (r: WebSession)
    ensures r == st.(page := r.page, highlighted := [], extracted := [], template := EmptyTemplate, hovered := None)
    ensures SameShape(st.page, r.page)
    ensures forall q, d :: HasClassAt(r.page, q, d) <==>
      HasClassAt(st.page, q, d) && !(q in st.highlighted && IsMark(d)) && !(st.hovered == Some(q) && d == HoverClass)
  {
    var page := UnmarkAll(st.page, st.highlighted);
    st.(page := Unhover(page, st.hovered), highlighted := [], extracted := [], template := EmptyTemplate, hovered := None)
  }

  /** With the marks tracked, clearing leaves no element with any of them. */
  lemma ClearRemovesAllMarks(st: WebSession)
    requires HoverTracked(st) && MarksTracked(st)
    ensures forall q :: !HasClassAt(WebClear(st).page, q, SelectedClass)
    ensures forall q :: !HasClassAt(WebClear(st).page, q, SimilarClass)
    ensures forall q :: !HasClassAt(WebClear(st).page, q, HoverClass)
    ensures WebInv(WebClear(st))
  {
  }

  // ---------------------------------------------------------------- invariants kept

  lemma StartStopKeepInv(st: WebSession, field: string)
    requires WebInv(st)
    ensures WebInv(WebStart(st, field))
    ensures WebInv(WebStop(st))
  {
    StartKeepsInv(st, field);
    StopKeepsInv(st);
  }

  lemma StartKeepsInv(st: WebSession, field: string)
    requires WebInv(st)
    ensures WebInv(WebStart(st, field))
  {
    var r := WebStart(st, field);
    EngineClassesDistinct();
    WebLiveOnSameShape(st, r);
    assert HoverTracked(r);
    MarksKeptTracked(st, r);
  }

  lemma StopKeepsInv(st: WebSession)
    requires WebInv(st)
    ensures WebInv(WebStop(st))
  {
    var r := WebStop(st);
    EngineClassesDistinct();
    WebLiveOnSameShape(st, r);
    StopClearsHover(st);
    MarksKeptTracked(st, r);
  }

  /** Selection is single-shot: after a click has extracted, the handlers do
      nothing until the next `startSelection`. */
  lemma ClickIsSingleShot(st: WebSession, t: Path, value: string, selector: string, env: Env, u: Path)
    requires WebLive(st) && st.selection.Selecting? && Valid(st.page, t)
    ensures var r := WebCommit(st, t, value, selector, env);
      !r.selection.Selecting? && WebMouseOut(r, u) == r &&
      (Valid(r.page, u) ==> WebMouseOver(r, u) == r)
  {
  }
}
