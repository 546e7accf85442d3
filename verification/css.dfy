/** The part of CSS selector syntax and matching that `querySelector` and
    `querySelectorAll` need for the selectors the engines build: type, `*`, `#id`,
    `.class`, `[name="value"]` and `:nth-of-type(k)` simple selectors, combined
    into compounds joined by the descendant (whitespace) and child (`>`)
    combinators. A string outside this subset is a SyntaxError. */
module Css {
  import opened Wrappers
  import opened Text
  import opened Dom
  import opened Sequences

  datatype Simple =
    | Type(name: string)
    | Universal
    | IdIs(id: string)
    | ClassIs(cls: string)
    | AttrIs(attr: string, value: string)
    | NthTyped(k: nat)

  datatype Combinator = Descendant | Child

  datatype Step = Step(comb: Combinator, compound: seq<Simple>)

  /** A complex selector: the leftmost compound, then each combinator with the
      compound on its right. */
  datatype Selector = Selector(head: seq<Simple>, steps: seq<Step>)

  // ---------------------------------------------------------------- lexing

  /** A name-start code point: an ASCII letter, `_`, or any non-ASCII code point. */
  predicate IsNameStart(c: char) {
    ('a' <= c <= 'z') || ('A' <= c <= 'Z') || c == '_' || c as int >= 0x80
  }

  predicate IsNameChar(c: char) {
    IsNameStart(c) || IsDigit(c) || c == '-'
  }

  /** Number of name code points from position `i` on. */
  function NameLen(s: string, i: nat): (n: nat)
    ensures i + n <= |s| || n == 0
    ensures forall k :: i <= k < i + n ==> IsNameChar(s[k])
    ensures i + n < |s| ==> !IsNameChar(s[i + n])
    decreases |s| - i
  {
    if i < |s| && IsNameChar(s[i]) then 1 + NameLen(s, i + 1) else 0
  }

  /** The end of the identifier starting at `i`, if one starts there. */
  function IdentEnd(s: string, i: nat): (r: Option<nat>)
    ensures r.Some? ==> i < r.value <= |s|
  {
    if i < |s| && IsNameStart(s[i]) then Some(i + 1 + NameLen(s, i + 1))
    else if i + 1 < |s| && s[i] == '-' && (IsNameStart(s[i + 1]) || s[i + 1] == '-') then
      Some(i + 2 + NameLen(s, i + 2))
    else None
  }

  /** Position of the first non-whitespace character at or after `i`. */
  function SkipSpace(s: string, i: nat): (r: nat)
    requires i <= |s|
    ensures i <= r <= |s|
    ensures forall k :: i <= k < r ==> IsAsciiSpace(s[k])
    ensures r < |s| ==> !IsAsciiSpace(s[r])
    decreases |s| - i
  {
    if i < |s| && IsAsciiSpace(s[i]) then SkipSpace(s, i + 1) else i
  }

  /** End of the run of decimal digits starting at `i`. */
  function DigitsEnd(s: string, i: nat): (r: nat)
    requires i <= |s|
    ensures i <= r <= |s|
    ensures forall k :: i <= k < r ==> IsDigit(s[k])
    ensures r < |s| ==> !IsDigit(s[r])
    decreases |s| - i
  {
    if i < |s| && IsDigit(s[i]) then DigitsEnd(s, i + 1) else i
  }

  /** End of a run of characters that may appear inside a double-quoted string. */
  function QuotedEnd(s: string, i: nat): (r: nat)
    requires i <= |s|
    ensures i <= r <= |s|
    ensures forall k :: i <= k < r ==> s[k] != '"' && s[k] != '\\' && s[k] != '\n'
    decreases |s| - i
  {
    if i < |s| && s[i] != '"' && s[i] != '\\' && s[i] != '\n' then QuotedEnd(s, i + 1) else i
  }

  // ---------------------------------------------------------------- parsing

  const NthOfTypeOpen: string := "nth-of-type("

  /** The simple selector introduced by `#`, `.`, `[` or `:` at `i`, and where it ends. */
  function SimpleAt(s: string, i: nat): (r: Option<(Simple, nat)>)
    requires i < |s|
    ensures r.Some? ==> i < r.value.1 <= |s|
  {
    if s[i] == '#' || s[i] == '.' then
      match IdentEnd(s, i + 1)
      case None => None
      case Some(e) =>
        var name := s[i + 1..e];
        Some((if s[i] == '#' then IdIs(name) else ClassIs(name), e))
    else if s[i] == '[' then
      match IdentEnd(s, i + 1)
      case None => None
      case Some(e) =>
        if e + 1 < |s| && s[e] == '=' && s[e + 1] == '"' then
          var q := QuotedEnd(s, e + 2);
          if q + 1 < |s| && s[q] == '"' && s[q + 1] == ']' then
            Some((AttrIs(s[i + 1..e], s[e + 2..q]), q + 2))
          else None
        else None
    else if s[i] == ':' && StartsWith(s[i + 1..], NthOfTypeOpen) then
      var d := i + 1 + |NthOfTypeOpen|;
      var e := DigitsEnd(s, d);
      if d < e < |s| && s[e] == ')' then Some((NthTyped(ParseNat(s[d..e])), e + 1)) else None
    else None
  }

  predicate StartsSimple(c: char) {
    c == '#' || c == '.' || c == '[' || c == ':'
  }

  /** The simple selectors that follow one another from `i` on. */
  function SimplesFrom(s: string, i: nat): (r: Option<(seq<Simple>, nat)>)
    requires i <= |s|
    ensures r.Some? ==> i <= r.value.1 <= |s|
    ensures r.Some? ==> (r.value.0 == [] <==> r.value.1 == i)
    ensures r.Some? && r.value.1 < |s| ==> !StartsSimple(s[r.value.1])
    decreases |s| - i
  {
    if i < |s| && StartsSimple(s[i]) then
      match SimpleAt(s, i)
      case None => None
      case Some((x, j)) =>
        match SimplesFrom(s, j)
        case None => None
        case Some((xs, k)) => Some(([x] + xs, k))
    else Some(([], i))
  }

  /** A compound selector at `i`: an optional type or `*`, then simple selectors;
      it must not be empty. */
  function CompoundAt(s: string, i: nat): (r: Option<(seq<Simple>, nat)>)
    requires i <= |s|
    ensures r.Some? ==> i < r.value.1 <= |s| && r.value.0 != []
  {
    var (lead, j) :=
      if i < |s| && s[i] == '*' then ([Universal], i + 1)
      else match IdentEnd(s, i)
        case Some(e) => ([Type(s[i..e])], e)
        case None => ([], i);
    match SimplesFrom(s, j)
    case None => None
    case Some((xs, k)) => if lead + xs == [] then None else Some((lead + xs, k))
  }

  /** The combinators and compounds after position `i`, up to the end of `s`. */
  function StepsFrom(s: string, i: nat): (r: Option<seq<Step>>)
    requires i <= |s|
    decreases |s| - i
  {
    var k := SkipSpace(s, i);
    if k == |s| then Some([])
    else
      var (comb, start, ok) :=
        if s[k] == '>' then (Child, SkipSpace(s, k + 1), true)
        else (Descendant, k, k > i);
      if !ok then None
      else match CompoundAt(s, start)
        case None => None
        case Some((c, e)) =>
          match StepsFrom(s, e)
          case None => None
          case Some(rest) => Some([Step(comb, c)] + rest)
  }

  /** The selector a string denotes, or None for a SyntaxError. */
  function Parse(s: string): Option<Selector> {
    match CompoundAt(s, SkipSpace(s, 0))
    case None => None
    case Some((head, e)) =>
      match StepsFrom(s, e)
      case None => None
      case Some(steps) => Some(Selector(head, steps))
  }

  // ---------------------------------------------------------------- matching

  predicate MatchesSimple(root: Element, p: Path, x: Simple) {
    match At(root, p)
    case None => false
    case Some(e) =>
      match x
      case Type(n) => Lower(e.tag) == Lower(n)
      case Universal => true
      case IdIs(v) => GetAttr(e, "id") == Some(v)
      case ClassIs(c) => HasClass(e, c)
      case AttrIs(n, v) => GetAttr(e, Lower(n)) == Some(v)
      case NthTyped(k) => if |p| == 0 then k == 1 else NthOfType(root, p) == k
  }

  predicate MatchesCompound(root: Element, p: Path, xs: seq<Simple>) {
    Valid(root, p) && forall k :: 0 <= k < |xs| ==> MatchesSimple(root, p, xs[k])
  }

  /** The element at `p` matches the selector made of `head` and `steps`, read
      right to left as browsers do. */
  predicate MatchesSteps(root: Element, p: Path, head: seq<Simple>, steps: seq<Step>)
    decreases |steps|, 0, 0
  {
    if |steps| == 0 then MatchesCompound(root, p, head)
    else
      var last := steps[|steps| - 1];
      && MatchesCompound(root, p, last.compound)
      && match last.comb
        case Child => |p| > 0 && MatchesSteps(root, p[..|p| - 1], head, steps[..|steps| - 1])
        case Descendant => SomeAncestor(root, p, |p|, head, steps[..|steps| - 1])
  }

  /** Some ancestor `p[..k]` with `k < n` matches. */
  predicate SomeAncestor(root: Element, p: Path, n: nat, head: seq<Simple>, steps: seq<Step>)
    requires n <= |p|
    decreases |steps|, 1, n
  {
    n > 0 && (MatchesSteps(root, p[..n - 1], head, steps) || SomeAncestor(root, p, n - 1, head, steps))
  }

  predicate Matches(root: Element, p: Path, sel: Selector) {
    MatchesSteps(root, p, sel.head, sel.steps)
  }

  /** Which paths of `ps` match. */
  function MatchMask(root: Element, ps: seq<Path>, sel: Selector): (r: seq<bool>)
    ensures |r| == |ps| && forall j :: 0 <= j < |ps| ==> (r[j] <==> Matches(root, ps[j], sel))
  {
    seq(|ps|, j requires 0 <= j < |ps| => Matches(root, ps[j], sel))
  }

  /** `r` lists, in their order in `ps`, exactly the paths of `ps` that match. */
  predicate MatchPositions(root: Element, ps: seq<Path>, sel: Selector, r: seq<Path>, idx: seq<nat>) {
    PickedAt(ps, MatchMask(root, ps, sel), r, idx)
  }

  /** The paths among `ps` that match, in order. */
  function FilterMatching(root: Element, ps: seq<Path>, sel: Selector): (r: seq<Path>)
    ensures forall k :: 0 <= k < |r| ==> r[k] in ps && Matches(root, r[k], sel)
    ensures forall q :: q in ps && Matches(root, q, sel) ==> q in r
    ensures exists idx :: MatchPositions(root, ps, sel, r, idx)
  {
    if |ps| == 0 then
      assert MatchPositions(root, ps, sel, [], []);
      []
    else
      var rest := FilterMatching(root, ps[1..], sel);
      assert ps == [ps[0]] + ps[1..];
      var m := Matches(root, ps[0], sel);
      var r := if m then [ps[0]] + rest else rest;
      MaskCons(root, ps, sel);
      ShiftPositions(ps, m, MatchMask(root, ps[1..], sel), rest, MatchMask(root, ps, sel), r);
      assert exists idx :: MatchPositions(root, ps, sel, r, idx) by {
        var idx :| PickedAt(ps, MatchMask(root, ps, sel), r, idx);
        assert MatchPositions(root, ps, sel, r, idx);
      }
      r
  }

  lemma MaskCons(root: Element, ps: seq<Path>, sel: Selector)
    requires |ps| > 0
    ensures MatchMask(root, ps, sel) == [Matches(root, ps[0], sel)] + MatchMask(root, ps[1..], sel)
  {
    var a := MatchMask(root, ps, sel);
    var b := [Matches(root, ps[0], sel)] + MatchMask(root, ps[1..], sel);
    assert forall j :: 1 <= j < |ps| ==> ps[j] == ps[1..][j - 1];
    assert forall j :: 0 <= j < |ps| ==> a[j] == b[j];
  }

  /** `document.querySelectorAll(s)`: every matching element in document order,
      each once, or None for a SyntaxError. */
  function QuerySelectorAll(root: Element, s: string): (r: Option<seq<Path>>)
    ensures r.None? <==> Parse(s).None?
    ensures r.Some? ==> forall k :: 0 <= k < |r.value| ==> Matches(root, r.value[k], Parse(s).value)
    ensures r.Some? ==> forall q :: q in Preorder(root) && Matches(root, q, Parse(s).value) ==> q in r.value
    ensures r.Some? ==> exists idx :: MatchPositions(root, Preorder(root), Parse(s).value, r.value, idx)
    ensures r.Some? ==> Distinct(r.value)
  {
    match Parse(s)
    case None => None
    case Some(sel) =>
      var r := FilterMatching(root, Preorder(root), sel);
      assert Distinct(r) by {
        PreorderDistinct(root);
        var idx :| MatchPositions(root, Preorder(root), sel, r, idx);
        PickedDistinct(Preorder(root), MatchMask(root, Preorder(root), sel), r, idx);
      }
      Some(r)
  }

  /** `ps[k]` is the first path of `ps` that matches. */
  predicate FirstMatchAt(root: Element, ps: seq<Path>, sel: Selector, k: int) {
    0 <= k < |ps| && Matches(root, ps[k], sel) && forall j :: 0 <= j < k ==> !Matches(root, ps[j], sel)
  }

  /** The first path of `ps` that matches. */
  function FirstMatching(root: Element, ps: seq<Path>, sel: Selector): (r: Option<Path>)
    ensures r.Some? ==> r.value in ps && Matches(root, r.value, sel)
    ensures r.Some? ==> exists k :: FirstMatchAt(root, ps, sel, k) && ps[k] == r.value
    ensures r.None? ==> forall k :: 0 <= k < |ps| ==> !Matches(root, ps[k], sel)
  {
    if |ps| == 0 then None
    else if Matches(root, ps[0], sel) then
      assert FirstMatchAt(root, ps, sel, 0);
      Some(ps[0])
    else
      var r := FirstMatching(root, ps[1..], sel);
      assert forall k :: 0 < k < |ps| ==> ps[k] == ps[1..][k - 1];
      assert r.Some? ==> exists k :: FirstMatchAt(root, ps, sel, k) && ps[k] == r.value by {
        if r.Some? {
          var k :| FirstMatchAt(root, ps[1..], sel, k) && ps[1..][k] == r.value;
          assert FirstMatchAt(root, ps, sel, k + 1);
        }
      }
      r
  }

  /** `element.querySelector(s)` on the element at `scope`: the first matching
      descendant in document order, or None for a SyntaxError. */
  function QuerySelector(root: Element, scope: Path, s: string): (r: Option<Option<Path>>)
    requires Valid(root, scope)
    ensures r.None? <==> Parse(s).None?
    ensures r.Some? && r.value.Some? ==> r.value.value in Descendants(root, scope) && Matches(root, r.value.value, Parse(s).value)
    ensures r.Some? && r.value.Some? ==>
      exists k :: FirstMatchAt(root, Descendants(root, scope), Parse(s).value, k) && Descendants(root, scope)[k] == r.value.value
    ensures r.Some? && r.value.None? ==> forall q :: q in Descendants(root, scope) ==> !Matches(root, q, Parse(s).value)
  {
    match Parse(s)
    case None => None
    case Some(sel) => Some(FirstMatching(root, Descendants(root, scope), sel))
  }
}
