/** Class and outline updates on a page, with what they keep: the shape of the
    tree and every other element's classes. Both extraction scripts mark
    elements this way. */
module PageMarks {
  import opened Wrappers
  import opened Dom

  /** Two pages with the same tree shape. */
  ghost predicate SameShape(a: Element, b: Element) {
    forall q :: Valid(a, q) <==> Valid(b, q)
  }

  // ---------------------------------------------------------------- class updates with their shape

  lemma AddClassShape(page: Element, p: Path, c: string)
    requires IsToken(c)
    ensures SameShape(page, AddClassAt(page, p, c))
    ensures forall q, d :: HasClassAt(AddClassAt(page, p, c), q, d) <==>
      HasClassAt(page, q, d) || (q == p && d == c && Valid(page, p))
    ensures forall q :: Outlined(AddClassAt(page, p, c), q) <==> Outlined(page, q)
  {
    forall q
      ensures Valid(AddClassAt(page, p, c), q) <==> Valid(page, q)
      ensures Outlined(AddClassAt(page, p, c), q) <==> Outlined(page, q)
    {
      AddClassAtEffect(page, p, c, q, "");
    }
    forall q, d
      ensures HasClassAt(AddClassAt(page, p, c), q, d) <==> HasClassAt(page, q, d) || (q == p && d == c && Valid(page, p))
    {
      AddClassAtEffect(page, p, c, q, d);
    }
  }

  lemma AddClassKeepsShape(page: Element, p: Path, c: string)
    requires IsToken(c)
    ensures SameShape(page, AddClassAt(page, p, c))
  {
    AddClassShape(page, p, c);
  }

  lemma RemoveClassShape(page: Element, p: Path, c: string)
    ensures SameShape(page, RemoveClassAt(page, p, c))
    ensures forall q, d :: HasClassAt(RemoveClassAt(page, p, c), q, d) <==> HasClassAt(page, q, d) && !(q == p && d == c)
    ensures forall q :: Outlined(RemoveClassAt(page, p, c), q) <==> Outlined(page, q)
  {
    forall q
      ensures Valid(RemoveClassAt(page, p, c), q) <==> Valid(page, q)
      ensures Outlined(RemoveClassAt(page, p, c), q) <==> Outlined(page, q)
    {
      RemoveClassAtEffect(page, p, c, q, "");
    }
    forall q, d
      ensures HasClassAt(RemoveClassAt(page, p, c), q, d) <==> HasClassAt(page, q, d) && !(q == p && d == c)
    {
      RemoveClassAtEffect(page, p, c, q, d);
    }
  }

  lemma OutlineShape(page: Element, p: Path, on: bool)
    ensures SameShape(page, SetOutlineAt(page, p, on))
    ensures forall q, d :: HasClassAt(SetOutlineAt(page, p, on), q, d) <==> HasClassAt(page, q, d)
    ensures forall q :: Outlined(SetOutlineAt(page, p, on), q) <==> if q == p then on && Valid(page, p) else Outlined(page, q)
  {
    forall q
      ensures Valid(SetOutlineAt(page, p, on), q) <==> Valid(page, q)
      ensures Outlined(SetOutlineAt(page, p, on), q) <==> if q == p then on && Valid(page, p) else Outlined(page, q)
    {
      SetOutlineAtEffect(page, p, on, q, "");
    }
    forall q, d
      ensures HasClassAt(SetOutlineAt(page, p, on), q, d) <==> HasClassAt(page, q, d)
    {
      SetOutlineAtEffect(page, p, on, q, d);
    }
  }

  /** `document.body.classList.add/remove(cls)`; without a body the script
      throws at this point, after its flags are already set, so the page is
      left as it is. */
  function BodyClass(page: Element, add: bool, cls: string): (r: Element)
    requires IsToken(cls)
    ensures SameShape(page, r)
    ensures forall q :: Outlined(r, q) <==> Outlined(page, q)
    ensures forall q, d :: BodyPath(page) != Some(q) ==> (HasClassAt(r, q, d) <==> HasClassAt(page, q, d))
    ensures forall q, d :: BodyPath(page) == Some(q) && d != cls ==> (HasClassAt(r, q, d) <==> HasClassAt(page, q, d))
    ensures BodyPath(page).Some? ==> (HasClassAt(r, BodyPath(page).value, cls) <==> add)
  {
    match BodyPath(page)
    case Some(b) =>
      if add then AddClassShape(page, b, cls); AddClassAt(page, b, cls)
      else RemoveClassShape(page, b, cls); RemoveClassAt(page, b, cls)
    case None => page
  }

  /** The body is found by position and tag, and class updates keep both. */
  lemma BodyPathOnSameShape(a: Element, b: Element, cls: string)
    requires IsToken(cls)
    requires b == BodyClass(a, true, cls) || b == BodyClass(a, false, cls)
    ensures BodyPath(a) == BodyPath(b)
  {
    match BodyPath(a)
    case None =>
    case Some(p) =>
      var e := Node(a, p);
      BodyPathSetLocal(a, p, AddClass(e, cls).attrs, e.outlined);
      BodyPathSetLocal(a, p, RemoveClass(e, cls).attrs, e.outlined);
  }
}
