/** The page as an immutable element tree. An element reference is the path of
    child indices from the document element (`<html>`), so `parentElement`, the
    index among `parent.children` and `:nth-of-type` are computed from the path. */
module Dom {
  import opened Wrappers
  import opened Text
  import opened Sequences

  /** One attribute, in document order; names are lower case as in an HTML document. */
  datatype Attr = Attr(name: string, value: string)

  /** An element. `text` is the text before the first child element and `tail` the
      text after this element up to its next sibling, so `textContent` keeps the
      document's interleaving of text and elements. `display` and `backgroundImage`
      stand for the computed style, `value` for a form control's value ("" when the
      element has none), and `outlined` for the inline hover outline the engine
      writes into `element.style`. */
  datatype Element = Element(
    tag: string,
    attrs: seq<Attr>,
    text: string,
    tail: string,
    children: seq<Element>,
    display: string,
    backgroundImage: string,
    value: string,
    outlined: bool)

  type Path = seq<nat>

  // ---------------------------------------------------------------- attributes

  /** `getAttribute(name)`: the first attribute with that name, or null. */
  function GetAttr(e: Element, name: string): (r: Option<string>)
    ensures r.Some? <==> exists k :: 0 <= k < |e.attrs| && e.attrs[k].name == name
    ensures r.Some? ==> exists k :: FirstAttrAt(e.attrs, name, k) && e.attrs[k].value == r.value
  {
    FindAttr(e.attrs, name)
  }

  /** `attrs[k]` is the first attribute named `name`. */
  predicate FirstAttrAt(attrs: seq<Attr>, name: string, k: int) {
    0 <= k < |attrs| && attrs[k].name == name && forall j :: 0 <= j < k ==> attrs[j].name != name
  }

  function FindAttr(attrs: seq<Attr>, name: string): (r: Option<string>)
    ensures r.Some? <==> exists k :: 0 <= k < |attrs| && attrs[k].name == name
    ensures r.Some? ==> exists k :: FirstAttrAt(attrs, name, k) && attrs[k].value == r.value
  {
    if |attrs| == 0 then None
    else if attrs[0].name == name then
      assert FirstAttrAt(attrs, name, 0);
      Some(attrs[0].value)
    else
      var r := FindAttr(attrs[1..], name);
      assert forall k :: 0 < k < |attrs| ==> attrs[k] == attrs[1..][k - 1];
      assert r.Some? ==> exists k :: FirstAttrAt(attrs, name, k) && attrs[k].value == r.value by {
        if r.Some? {
          var k :| FirstAttrAt(attrs[1..], name, k) && attrs[1..][k].value == r.value;
          assert FirstAttrAt(attrs, name, k + 1);
        }
      }
      r
  }

  /** A reflected string property such as `element.title` or `element.id`: the
      attribute's value, or "" when it is absent. */
  function AttrOr(e: Element, name: string): string {
    GetAttr(e, name).GetOr("")
  }

  function Id(e: Element): string {
    AttrOr(e, "id")
  }

  /** `element.className`: the raw `class` attribute. */
  function ClassName(e: Element): string {
    AttrOr(e, "class")
  }

  /** `element.tagName.toLowerCase()`. */
  function LowerTag(e: Element): string {
    Lower(e.tag)
  }

  // ---------------------------------------------------------------- class list

  /** A class token: non-empty and free of ASCII whitespace. */
  predicate IsToken(t: string) {
    t != "" && forall i :: 0 <= i < |t| ==> !IsAsciiSpace(t[i])
  }

  /** A class name that can be added: non-empty, without white space. */
  type Token = t: string | IsToken(t) witness "x"

  predicate WellFormedTokens(ts: seq<string>) {
    Distinct(ts) && forall k :: 0 <= k < |ts| ==> IsToken(ts[k])
  }

  /** Length of the longest prefix of `s` without ASCII whitespace. */
  function WordLen(s: string): (n: nat)
    ensures n <= |s|
    ensures forall i :: 0 <= i < n ==> !IsAsciiSpace(s[i])
    ensures n < |s| ==> IsAsciiSpace(s[n])
  {
    if |s| == 0 || IsAsciiSpace(s[0]) then 0 else 1 + WordLen(s[1..])
  }

  /** The words of `s` split on runs of ASCII whitespace, empty words dropped. */
  function Tokens(s: string): (r: seq<string>)
    ensures forall k :: 0 <= k < |r| ==> IsToken(r[k])
    decreases |s|
  {
    if |s| == 0 then []
    else if IsAsciiSpace(s[0]) then Tokens(s[1..])
    else
      var n := WordLen(s);
      [s[..n]] + Tokens(s[n..])
  }

  /** Later repetitions removed, first occurrences kept in order. */
  function Dedup(ts: seq<string>): (r: seq<string>)
    ensures Distinct(r)
    ensures forall x :: x in r <==> x in ts
    ensures (forall k :: 0 <= k < |ts| ==> IsToken(ts[k])) ==> forall k :: 0 <= k < |r| ==> IsToken(r[k])
  {
    if |ts| == 0 then []
    else
      var d := Dedup(ts[..|ts| - 1]);
      assert ts == ts[..|ts| - 1] + [ts[|ts| - 1]];
      if ts[|ts| - 1] in d then d else d + [ts[|ts| - 1]]
  }

  /** `element.classList`: the ordered set of tokens of the class attribute. */
  function ClassList(e: Element): (r: seq<string>)
    ensures WellFormedTokens(r)
  {
    Dedup(Tokens(ClassName(e)))
  }

  predicate HasClass(e: Element, c: string) {
    c in ClassList(e)
  }

  /** The attribute list with `class` set to `v`: the first `class` attribute is
      rewritten in place, or one is appended when there is none. */
  function SetClassAttr(attrs: seq<Attr>, v: string): (r: seq<Attr>)
    ensures FindAttr(r, "class") == Some(v)
    ensures forall n :: n != "class" ==> FindAttr(r, n) == FindAttr(attrs, n)
  {
    if |attrs| == 0 then [Attr("class", v)]
    else if attrs[0].name == "class" then [Attr("class", v)] + attrs[1..]
    else [attrs[0]] + SetClassAttr(attrs[1..], v)
  }

  /** The DOMTokenList update steps: the class attribute becomes the serialised
      token set, unless there is no attribute and the set is empty. */
  function WithClassList(e: Element, ts: seq<string>): Element {
    if GetAttr(e, "class").None? && ts == [] then e
    else e.(attrs := SetClassAttr(e.attrs, Join(ts, " ")))
  }

  /** `classList.add(c)`. */
  function AddClass(e: Element, c: string): (r: Element)
    requires IsToken(c)
    ensures ClassList(r) == if c in ClassList(e) then ClassList(e) else ClassList(e) + [c]
    ensures forall n :: n != "class" ==> GetAttr(r, n) == GetAttr(e, n)
    ensures r.tag == e.tag && r.children == e.children && r.outlined == e.outlined
  {
    var ts := if c in ClassList(e) then ClassList(e) else ClassList(e) + [c];
    ClassListRoundTrip(e, ts);
    WithClassList(e, ts)
  }

  /** `classList.remove(c)`. */
  function RemoveClass(e: Element, c: string): (r: Element)
    ensures ClassList(r) == Without(ClassList(e), c)
    ensures forall n :: n != "class" ==> GetAttr(r, n) == GetAttr(e, n)
    ensures r.tag == e.tag && r.children == e.children && r.outlined == e.outlined
  {
    var ts := Without(ClassList(e), c);
    ClassListRoundTrip(e, ts);
    WithClassList(e, ts)
  }

  function Without(ts: seq<string>, c: string): (r: seq<string>)
    ensures forall x :: x in r <==> x in ts && x != c
    ensures WellFormedTokens(ts) ==> WellFormedTokens(r)
  {
    if |ts| == 0 then []
    else if ts[0] == c then Without(ts[1..], c)
    else
      var r := [ts[0]] + Without(ts[1..], c);
      assert WellFormedTokens(ts) ==> ts[0] !in ts[1..];
      r
  }

  lemma ClassListRoundTrip(e: Element, ts: seq<string>)
    requires WellFormedTokens(ts)
    ensures ClassList(WithClassList(e, ts)) == ts
  {
    if !(GetAttr(e, "class").None? && ts == []) {
      TokensOfJoin(ts);
      DedupOfDistinct(ts);
    }
  }

  lemma {:induction false} TokensOfJoin(ts: seq<string>)
    requires forall k :: 0 <= k < |ts| ==> IsToken(ts[k])
    ensures Tokens(Join(ts, " ")) == ts
  {
    if |ts| == 1 {
      TokensOfWord(ts[0], "");
      assert ts[0] + "" == ts[0];
    } else if |ts| > 1 {
      var rest := Join(ts[1..], " ");
      TokensOfJoin(ts[1..]);
      TokensOfWord(ts[0], " " + rest);
      TokensAfterSpace(rest);
      assert Join(ts, " ") == ts[0] + (" " + rest);
      assert ts == [ts[0]] + ts[1..];
    }
  }

  /** A leading space is skipped. */
  lemma TokensAfterSpace(rest: string)
    ensures Tokens(" " + rest) == Tokens(rest)
  {
    assert (" " + rest)[1..] == rest;
  }

  /** A token followed by nothing or by whitespace is read off as one word. */
  lemma TokensOfWord(t: string, rest: string)
    requires IsToken(t)
    requires rest == [] || IsAsciiSpace(rest[0])
    ensures Tokens(t + rest) == [t] + Tokens(rest)
  {
    WordLenOfWord(t, rest);
    assert (t + rest)[..|t|] == t;
    assert (t + rest)[|t|..] == rest;
  }

  lemma {:induction false} WordLenOfWord(t: string, rest: string)
    requires forall i :: 0 <= i < |t| ==> !IsAsciiSpace(t[i])
    requires rest == [] || IsAsciiSpace(rest[0])
    ensures WordLen(t + rest) == |t|
  {
    if |t| > 0 {
      assert (t + rest)[1..] == t[1..] + rest;
      WordLenOfWord(t[1..], rest);
    } else {
      assert t + rest == rest;
    }
  }

  lemma {:induction false} DedupOfDistinct(ts: seq<string>)
    requires Distinct(ts)
    ensures Dedup(ts) == ts
  {
    if |ts| > 0 {
      DedupOfDistinct(ts[..|ts| - 1]);
      assert ts == ts[..|ts| - 1] + [ts[|ts| - 1]];
    }
  }

  // ---------------------------------------------------------------- text

  /** `element.textContent`: every text run of the subtree in document order. */
  function TextContent(e: Element): string
    decreases e, 1
  {
    e.text + ChildrenText(e, 0)
  }

  function ChildrenText(e: Element, i: nat): string
    decreases e, 0, |e.children| - i
  {
    if i >= |e.children| then ""
    else TextContent(e.children[i]) + e.children[i].tail + ChildrenText(e, i + 1)
  }

  // ---------------------------------------------------------------- paths

  /** The element a path leads to, if it leads anywhere. */
  function At(root: Element, p: Path): Option<Element>
    decreases |p|
  {
    if |p| == 0 then Some(root)
    else if p[0] < |root.children| then At(root.children[p[0]], p[1..])
    else None
  }

  predicate Valid(root: Element, p: Path) {
    At(root, p).Some?
  }

  function Node(root: Element, p: Path): Element
    requires Valid(root, p)
  {
    At(root, p).value
  }

  /** `parentElement`: none for the document element. */
  function Parent(p: Path): Option<Path> {
    if |p| == 0 then None else Some(p[..|p| - 1])
  }

  lemma {:induction false} AtAppend(root: Element, p: Path, i: nat)
    requires Valid(root, p)
    ensures At(root, p + [i]) == if i < |Node(root, p).children| then Some(Node(root, p).children[i]) else None
    decreases |p|
  {
    if |p| == 0 {
      assert (p + [i])[1..] == [];
    } else {
      assert (p + [i])[1..] == p[1..] + [i];
      AtAppend(root.children[p[0]], p[1..], i);
    }
  }

  /** The parent of a valid element is valid, and holds it at the last index. */
  lemma ParentValid(root: Element, p: Path)
    requires Valid(root, p) && |p| > 0
    ensures Valid(root, p[..|p| - 1])
    ensures p[|p| - 1] < |Node(root, p[..|p| - 1]).children|
    ensures Node(root, p[..|p| - 1]).children[p[|p| - 1]] == Node(root, p)
  {
    PrefixValid(root, p, |p| - 1);
    assert p == p[..|p| - 1] + [p[|p| - 1]];
    AtAppend(root, p[..|p| - 1], p[|p| - 1]);
  }

  lemma {:induction false} PrefixValid(root: Element, p: Path, n: nat)
    requires Valid(root, p) && n <= |p|
    ensures Valid(root, p[..n])
    decreases |p|
  {
    if n > 0 {
      assert p[..n][1..] == p[1..][..n - 1];
      PrefixValid(root.children[p[0]], p[1..], n - 1);
    }
  }

  /** The ancestor `k` steps up from `p` (`k == 0` is the element itself). */
  function Up(p: Path, k: nat): Path
    requires k <= |p|
  {
    p[..|p| - k]
  }

  lemma UpValid(root: Element, p: Path)
    requires Valid(root, p)
    ensures forall k :: 0 <= k <= |p| ==> Valid(root, Up(p, k))
  {
    forall k | 0 <= k <= |p|
      ensures Valid(root, Up(p, k))
    {
      PrefixValid(root, p, |p| - k);
    }
  }

  /** Going one step up and then `k` more is going `k + 1` steps up. */
  lemma UpOfParent(p: Path)
    requires |p| > 0
    ensures forall k :: 0 <= k <= |p| - 1 ==> Up(Up(p, 1), k) == Up(p, k + 1)
  {
  }

  /** Going `j` steps up from `p` is `p` itself for `j = 0`, and otherwise
      going `j - 1` steps up from the parent. */
  lemma UpStep(p: Path, j: nat)
    requires |p| > 0 && j <= |p|
    ensures j == 0 ==> Up(p, j) == p
    ensures j > 0 ==> Up(p, j) == Up(Up(p, 1), j - 1)
  {
  }

  /** Position among `parent.children`, 0-based. */
  function ChildIndex(p: Path): nat
    requires |p| > 0
  {
    p[|p| - 1]
  }

  /** Number of children in `cs[..n]` with tag `tag`. */
  function CountTag(cs: seq<Element>, n: nat, tag: string): (r: nat)
    requires n <= |cs|
    ensures r <= n
  {
    if n == 0 then 0 else CountTag(cs, n - 1, tag) + (if cs[n - 1].tag == tag then 1 else 0)
  }

  /** The number of same-tag children of the parent, the element included. */
  function SameTagCount(root: Element, p: Path): (r: nat)
    requires Valid(root, p) && |p| > 0
    ensures r >= 1
  {
    ParentValid(root, p);
    var cs := Node(root, p[..|p| - 1]).children;
    CountTagPositive(cs, |cs|, ChildIndex(p));
    CountTag(cs, |cs|, Node(root, p).tag)
  }

  /** The 1-based `:nth-of-type` index: one more than the same-tag children before it. */
  function NthOfType(root: Element, p: Path): (r: nat)
    requires Valid(root, p) && |p| > 0
    ensures 1 <= r <= SameTagCount(root, p)
  {
    ParentValid(root, p);
    var cs := Node(root, p[..|p| - 1]).children;
    CountTagMonotone(cs, ChildIndex(p) + 1, |cs|, Node(root, p).tag);
    CountTag(cs, ChildIndex(p), Node(root, p).tag) + 1
  }

  lemma {:induction false} CountTagPositive(cs: seq<Element>, n: nat, i: nat)
    requires i < n <= |cs|
    ensures CountTag(cs, n, cs[i].tag) >= 1
  {
    if i < n - 1 {
      CountTagPositive(cs, n - 1, i);
    }
  }

  lemma {:induction false} CountTagMonotone(cs: seq<Element>, m: nat, n: nat, tag: string)
    requires m <= n <= |cs|
    ensures CountTag(cs, m, tag) <= CountTag(cs, n, tag)
    decreases n - m
  {
    if m < n {
      CountTagMonotone(cs, m, n - 1, tag);
    }
  }

  /** `document.body`: the first BODY child of the document element. */
  function BodyPath(root: Element): (r: Option<Path>)
    ensures r.Some? ==> |r.value| == 1 && Valid(root, r.value) && Node(root, r.value).tag == "BODY"
  {
    if root.tag != "HTML" then None else FirstBody(root, 0)
  }

  function FirstBody(root: Element, i: nat): (r: Option<Path>)
    ensures r.Some? ==> |r.value| == 1 && Valid(root, r.value) && Node(root, r.value).tag == "BODY"
    decreases |root.children| - i
  {
    if i >= |root.children| then None
    else if root.children[i].tag == "BODY" then
      assert [i][1..] == [];
      assert At(root, [i]) == At(root.children[i], []);
      Some([i])
    else FirstBody(root, i + 1)
  }

  // ---------------------------------------------------------------- updates

  /** The page with the attributes and inline outline of the element at `p`
      replaced; the shape of the tree is unchanged. */
  function SetLocal(root: Element, p: Path, attrs: seq<Attr>, outlined: bool): Element
    decreases |p|
  {
    if |p| == 0 then root.(attrs := attrs, outlined := outlined)
    else if p[0] < |root.children| then
      root.(children := root.children[p[0] := SetLocal(root.children[p[0]], p[1..], attrs, outlined)])
    else root
  }

  /** After a local update every path is as valid as before, the updated element
      carries the new attributes, and every other element keeps its own. */
  lemma {:induction false} SetLocalAt(root: Element, p: Path, attrs: seq<Attr>, outlined: bool, q: Path)
    ensures Valid(SetLocal(root, p, attrs, outlined), q) <==> Valid(root, q)
    ensures Valid(root, q) ==>
      var n := Node(SetLocal(root, p, attrs, outlined), q);
      && n.tag == Node(root, q).tag
      && |n.children| == |Node(root, q).children|
      && (q == p ==> n.attrs == attrs && n.outlined == outlined)
      && (q != p ==> n.attrs == Node(root, q).attrs && n.outlined == Node(root, q).outlined)
    decreases |q|
  {
    if |q| > 0 && |p| > 0 && p[0] == q[0] && p[0] < |root.children| {
      SetLocalAt(root.children[p[0]], p[1..], attrs, outlined, q[1..]);
      assert p != q ==> p[1..] != q[1..] by {
        if p[1..] == q[1..] {
          assert p == [p[0]] + p[1..] && q == [q[0]] + q[1..];
        }
      }
    }
  }

  /** A local update keeps the root's tag and its children's tags, so it finds
      the same body. */
  lemma BodyPathSetLocal(root: Element, p: Path, attrs: seq<Attr>, outlined: bool)
    ensures BodyPath(SetLocal(root, p, attrs, outlined)) == BodyPath(root)
  {
    var r := SetLocal(root, p, attrs, outlined);
    if |p| > 0 && p[0] < |root.children| {
      SetLocalKeepsTag(root.children[p[0]], p[1..], attrs, outlined);
    }
    FirstBodySameTags(r, root, 0);
  }

  lemma SetLocalKeepsTag(e: Element, p: Path, attrs: seq<Attr>, outlined: bool)
    ensures SetLocal(e, p, attrs, outlined).tag == e.tag
  {
  }

  lemma {:induction false} FirstBodySameTags(a: Element, b: Element, i: nat)
    requires |a.children| == |b.children|
    requires forall k :: 0 <= k < |a.children| ==> a.children[k].tag == b.children[k].tag
    ensures FirstBody(a, i) == FirstBody(b, i)
    decreases |a.children| - i
  {
    if i < |a.children| {
      FirstBodySameTags(a, b, i + 1);
    }
  }

  /** `element.classList.add(c)` on the element at `p`. */
  function AddClassAt(root: Element, p: Path, c: string): Element
    requires IsToken(c)
  {
    match At(root, p)
    case Some(e) => SetLocal(root, p, AddClass(e, c).attrs, e.outlined)
    case None => root
  }

  /** `element.classList.remove(c)` on the element at `p`. */
  function RemoveClassAt(root: Element, p: Path, c: string): Element {
    match At(root, p)
    case Some(e) => SetLocal(root, p, RemoveClass(e, c).attrs, e.outlined)
    case None => root
  }

  /** Writes or clears the inline outline of the element at `p`. */
  function SetOutlineAt(root: Element, p: Path, on: bool): Element {
    match At(root, p)
    case Some(e) => SetLocal(root, p, e.attrs, on)
    case None => root
  }

  predicate HasClassAt(root: Element, p: Path, c: string) {
    Valid(root, p) && HasClass(Node(root, p), c)
  }

  /** The element at `p` carries an inline outline. */
  predicate Outlined(root: Element, p: Path) {
    Valid(root, p) && Node(root, p).outlined
  }

  lemma AddClassAtEffect(root: Element, p: Path, c: string, q: Path, d: string)
    requires IsToken(c)
    ensures Valid(AddClassAt(root, p, c), q) <==> Valid(root, q)
    ensures HasClassAt(AddClassAt(root, p, c), q, d) <==>
      HasClassAt(root, q, d) || (q == p && d == c && Valid(root, p))
    ensures Outlined(AddClassAt(root, p, c), q) <==> Outlined(root, q)
  {
    if Valid(root, p) {
      var e := Node(root, p);
      SetLocalAt(root, p, AddClass(e, c).attrs, e.outlined, q);
    }
  }

  lemma RemoveClassAtEffect(root: Element, p: Path, c: string, q: Path, d: string)
    ensures Valid(RemoveClassAt(root, p, c), q) <==> Valid(root, q)
    ensures HasClassAt(RemoveClassAt(root, p, c), q, d) <==>
      HasClassAt(root, q, d) && !(q == p && d == c)
    ensures Outlined(RemoveClassAt(root, p, c), q) <==> Outlined(root, q)
  {
    if Valid(root, p) {
      var e := Node(root, p);
      SetLocalAt(root, p, RemoveClass(e, c).attrs, e.outlined, q);
    }
  }

  lemma SetOutlineAtEffect(root: Element, p: Path, on: bool, q: Path, d: string)
    ensures Valid(SetOutlineAt(root, p, on), q) <==> Valid(root, q)
    ensures HasClassAt(SetOutlineAt(root, p, on), q, d) <==> HasClassAt(root, q, d)
    ensures Outlined(SetOutlineAt(root, p, on), q) <==> if q == p then on && Valid(root, p) else Outlined(root, q)
  {
    if Valid(root, p) {
      var e := Node(root, p);
      SetLocalAt(root, p, e.attrs, on, q);
    }
  }

  // ---------------------------------------------------------------- traversal

  /** Every element of the subtree, as paths relative to it, in document order
      (the element itself first). */
  function Preorder(e: Element): seq<Path>
    decreases e, 1
  {
    [[]] + ChildrenPreorder(e, 0)
  }

  function ChildrenPreorder(e: Element, i: nat): seq<Path>
    decreases e, 0, |e.children| - i
  {
    if i >= |e.children| then []
    else Prefixed(i, Preorder(e.children[i])) + ChildrenPreorder(e, i + 1)
  }

  /** Document order visits every element once. */
  lemma {:induction false} PreorderDistinct(e: Element)
    ensures Distinct(Preorder(e))
    decreases e, 1
  {
    ChildrenPreorderDistinct(e, 0);
  }

  /** The subtrees from child `i` on: no path twice, and each starts with a child index `>= i`. */
  lemma {:induction false} ChildrenPreorderDistinct(e: Element, i: nat)
    ensures Distinct(ChildrenPreorder(e, i))
    ensures forall k :: 0 <= k < |ChildrenPreorder(e, i)| ==> |ChildrenPreorder(e, i)[k]| > 0 && ChildrenPreorder(e, i)[k][0] >= i
    decreases e, 0, |e.children| - i
  {
    if i < |e.children| {
      var sub := Preorder(e.children[i]);
      PreorderDistinct(e.children[i]);
      ChildrenPreorderDistinct(e, i + 1);
      var a := Prefixed(i, sub);
      var b := ChildrenPreorder(e, i + 1);
      var c := a + b;
      assert ChildrenPreorder(e, i) == c;
      forall x, y | 0 <= x < y < |c|
        ensures c[x] != c[y]
      {
        if y < |a| {
          assert c[x][1..] == sub[x] && c[y][1..] == sub[y];
        } else if x < |a| {
          assert c[x][0] == i && c[y] == b[y - |a|];
        } else {
          assert c[x] == b[x - |a|] && c[y] == b[y - |a|];
        }
      }
    }
  }

  function Prefixed(i: nat, ps: seq<Path>): (r: seq<Path>)
    ensures |r| == |ps|
    ensures forall k :: 0 <= k < |ps| ==> r[k] == [i] + ps[k]
  {
    seq(|ps|, k requires 0 <= k < |ps| => [i] + ps[k])
  }

  /** The descendants of the element at `p` in document order, the element excluded:
      the elements `querySelector` scans when called on it. */
  function Descendants(root: Element, p: Path): seq<Path>
    requires Valid(root, p)
  {
    var ps := Preorder(Node(root, p));
    seq(|ps| - 1, k requires 0 <= k < |ps| - 1 => p + ps[k + 1])
  }

  /** `element.querySelector("img")`: the first IMG descendant. */
  function FirstImg(root: Element, p: Path): Option<Path>
    requires Valid(root, p)
  {
    FirstWithTag(Descendants(root, p), root, "IMG")
  }

  /** The element at `p` exists and has tag `tag`. */
  predicate HasTagAt(root: Element, p: Path, tag: string) {
    Valid(root, p) && Node(root, p).tag == tag
  }

  /** `ps[k]` is the first path of `ps` whose element has tag `tag`. */
  predicate FirstTagAt(ps: seq<Path>, root: Element, tag: string, k: int) {
    0 <= k < |ps| && HasTagAt(root, ps[k], tag) && forall j :: 0 <= j < k ==> !HasTagAt(root, ps[j], tag)
  }

  /** The first path of `ps` whose element has tag `tag`, as a document-order
      scan such as `querySelector(tag)` finds it. */
  function FirstWithTag(ps: seq<Path>, root: Element, tag: string): (r: Option<Path>)
    ensures r.Some? ==> exists k :: FirstTagAt(ps, root, tag, k) && ps[k] == r.value
    ensures r.None? ==> forall k :: 0 <= k < |ps| ==> !HasTagAt(root, ps[k], tag)
  {
    if |ps| == 0 then None
    else if HasTagAt(root, ps[0], tag) then
      assert FirstTagAt(ps, root, tag, 0);
      Some(ps[0])
    else
      var r := FirstWithTag(ps[1..], root, tag);
      assert forall k :: 0 < k < |ps| ==> ps[k] == ps[1..][k - 1];
      assert r.Some? ==> exists k :: FirstTagAt(ps, root, tag, k) && ps[k] == r.value by {
        if r.Some? {
          var k :| FirstTagAt(ps[1..], root, tag, k) && ps[1..][k] == r.value;
          assert FirstTagAt(ps, root, tag, k + 1);
        }
      }
      r
  }
}
