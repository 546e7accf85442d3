/** Hand-written scanners for the regular expressions of the extraction scripts.
    Each `...At(s, i)` function gives the end of the match that the regular
    expression engine finds when it is tried at position `i` (greedy quantifiers,
    alternatives in order, backtracking only where it can change the outcome),
    and `Search` finds the leftmost start position, as `String.prototype.match`
    does. The currency tokens are a parameter. */
module Patterns {
  import opened Wrappers
  import opened Text

  /** One alternative of the currency group: its token, and whether a "." may
      follow it (`Rs\.?`). */
  datatype Currency = Currency(token: string, dotted: bool)

  /** `Rs\.?|PKR|₹|[\$€£¥₽₩￥]`, in the order the alternation tries them. */
  const Currencies: seq<Currency> := [
    Currency("Rs", true), Currency("PKR", false), Currency("\U{20B9}", false),
    Currency("$", false), Currency("\U{20AC}", false), Currency("\U{A3}", false),
    Currency("\U{A5}", false), Currency("\U{20BD}", false), Currency("\U{20A9}", false),
    Currency("\U{FFE5}", false)]

  /** The tokens for which greedy matching is the only way a match can succeed:
      each is non-empty and cannot begin with whitespace, a digit, a comma or a
      dot, nor end with whitespace. */
  predicate WellFormedCurrencies(curs: seq<Currency>) {
    forall k :: 0 <= k < |curs| ==> WellFormedToken(curs[k].token)
  }

  predicate WellFormedToken(t: string) {
    |t| > 0 && !IsSpace(t[0]) && !IsNumChar(t[0]) && t[0] != '.' && !IsSpace(t[|t| - 1])
  }

  /** `[,\d]`. */
  predicate IsNumChar(c: char) {
    c == ',' || IsDigit(c)
  }

  /** The text at `i` equals `w` up to ASCII case (the `i` flag). */
  predicate WordAt(s: string, i: nat, w: string) {
    i + |w| <= |s| && Lower(s[i..i + |w|]) == Lower(w)
  }

  /** Characters equal up to ASCII case are both whitespace or neither. */
  lemma SameLowerNotSpace(c: char, d: char)
    requires LowerChar(c) == LowerChar(d)
    ensures IsSpace(c) <==> IsSpace(d)
  {
  }

  /** End of the greedy run of `\s` from `i`. */
  function SpaceEnd(s: string, i: nat): (r: nat)
    requires i <= |s|
    ensures i <= r <= |s|
    ensures forall k :: i <= k < r ==> IsSpace(s[k])
    ensures r < |s| ==> !IsSpace(s[r])
    decreases |s| - i
  {
    if i < |s| && IsSpace(s[i]) then SpaceEnd(s, i + 1) else i
  }

  /** End of the greedy run of `[,\d]` from `i`. */
  function NumEnd(s: string, i: nat): (r: nat)
    requires i <= |s|
    ensures i <= r <= |s|
    ensures forall k :: i <= k < r ==> IsNumChar(s[k])
    ensures r < |s| ==> !IsNumChar(s[r])
    decreases |s| - i
  {
    if i < |s| && IsNumChar(s[i]) then NumEnd(s, i + 1) else i
  }

  /** End of the greedy run of `\d` from `i`. */
  function DigitEnd(s: string, i: nat): (r: nat)
    requires i <= |s|
    ensures i <= r <= |s|
    ensures forall k :: i <= k < r ==> IsDigit(s[k])
    ensures r < |s| ==> !IsDigit(s[r])
    decreases |s| - i
  {
    if i < |s| && IsDigit(s[i]) then DigitEnd(s, i + 1) else i
  }

  /** End of `(?:\.\d{1,2})?` at `i`: a dot and up to two digits, or nothing. */
  function DecimalEnd(s: string, i: nat): (r: nat)
    requires i <= |s|
    ensures r <= |s|
    ensures r == i || (i + 2 <= r <= i + 3 && s[i] == '.' && forall k :: i < k < r ==> IsDigit(s[k]))
  {
    if i + 1 < |s| && s[i] == '.' && IsDigit(s[i + 1]) then
      if i + 2 < |s| && IsDigit(s[i + 2]) then i + 3 else i + 2
    else i
  }

  /** `[,\d]+(?:\.\d{1,2})?` at `i`. */
  function AmountAt(s: string, i: nat): (r: Option<nat>)
    requires i <= |s|
    ensures r.Some? ==> i < r.value <= |s| && IsNumChar(s[i])
    ensures r.Some? ==> IsNumChar(s[r.value - 1])
  {
    if i < |s| && IsNumChar(s[i]) then Some(DecimalEnd(s, NumEnd(s, i))) else None
  }

  /** The end of one currency alternative at `i` (the optional dot taken greedily). */
  function TokenEnd(s: string, i: nat, c: Currency): (r: Option<nat>)
    ensures r.Some? ==> i + |c.token| <= r.value <= |s| && WordAt(s, i, c.token)
    ensures r.Some? && WellFormedToken(c.token) ==> !IsSpace(s[i]) && !IsSpace(s[r.value - 1])
  {
    if WordAt(s, i, c.token) then
      var e := i + |c.token|;
      if |c.token| > 0 then
        SameLowerNotSpace(s[i], c.token[0]);
        SameLowerNotSpace(s[e - 1], c.token[|c.token| - 1]);
        Some(if c.dotted && e < |s| && s[e] == '.' then e + 1 else e)
      else
        Some(if c.dotted && e < |s| && s[e] == '.' then e + 1 else e)
    else None
  }

  /** The first alternative of `curs[k..]`, each followed by `\s*` and an amount,
      that matches at `i`. */
  function CurrencyAmountAt(curs: seq<Currency>, s: string, i: nat, k: nat): (r: Option<nat>)
    ensures r.Some? ==> i < r.value <= |s|
    ensures r.Some? ==> exists j :: i <= j < r.value && IsNumChar(s[j])
    decreases |curs| - k
  {
    if k >= |curs| then None
    else match TokenEnd(s, i, curs[k])
      case Some(j) =>
        var n := SpaceEnd(s, j);
        if AmountAt(s, n).Some? then AmountAt(s, n) else CurrencyAmountAt(curs, s, i, k + 1)
      case None => CurrencyAmountAt(curs, s, i, k + 1)
  }

  /** The end of the first alternative of `curs[k..]` that matches at `i`. */
  function FirstTokenEnd(curs: seq<Currency>, s: string, i: nat, k: nat): (r: Option<nat>)
    ensures r.Some? ==> i <= r.value <= |s|
    decreases |curs| - k
  {
    if k >= |curs| then None
    else match TokenEnd(s, i, curs[k])
      case Some(j) => Some(j)
      case None => FirstTokenEnd(curs, s, i, k + 1)
  }

  /** The price patterns of the two extraction scripts. */
  datatype Pattern =
      /** `(?:cur\s*)[,\d]+(?:\.\d{1,2})?` */
    | CurrencyFirst
      /** `[,\d]+(?:\.\d{1,2})?\s*(?:cur)` */
    | NumberFirst
      /** `(?:w1|w2|…)\s*(?:cur\s*)[,\d]+(?:\.\d{1,2})?`, the currency group
          optional when `optional` holds */
    | Keyword(words: seq<string>, optional: bool)

  /** The end of the match of `pat` tried at position `i`. */
  function MatchAt(pat: Pattern, curs: seq<Currency>, s: string, i: nat): (r: Option<nat>)
    ensures r.Some? ==> i < r.value <= |s|
    ensures r.Some? ==> exists j :: i <= j < r.value && IsNumChar(s[j])
  {
    match pat
    case CurrencyFirst => CurrencyAmountAt(curs, s, i, 0)
    case NumberFirst =>
      if i < |s| && IsNumChar(s[i]) then
        var n := SpaceEnd(s, DecimalEnd(s, NumEnd(s, i)));
        FirstTokenEnd(curs, s, n, 0)
      else None
    case Keyword(words, optional) => KeywordAt(words, optional, curs, s, i, 0)
  }

  /** The alternatives `words[k..]` in order, each as `WordThenAmount`. */
  function KeywordAt(words: seq<string>, optional: bool, curs: seq<Currency>, s: string, i: nat, k: nat): (r: Option<nat>)
    ensures r.Some? ==> i < r.value <= |s|
    ensures r.Some? ==> exists j :: i <= j < r.value && IsNumChar(s[j])
    decreases |words| - k
  {
    if k >= |words| then None
    else if WordThenAmount(words[k], optional, curs, s, i).Some? then WordThenAmount(words[k], optional, curs, s, i)
    else KeywordAt(words, optional, curs, s, i, k + 1)
  }

  /** `w\s*(?:cur\s*)[,\d]+(?:\.\d{1,2})?` at `i`, the currency group optional
      when `optional` holds. */
  function WordThenAmount(w: string, optional: bool, curs: seq<Currency>, s: string, i: nat): (r: Option<nat>)
    ensures r.Some? ==> i < r.value <= |s| && WordAt(s, i, w)
    ensures r.Some? ==> exists j :: i <= j < r.value && IsNumChar(s[j])
  {
    if WordAt(s, i, w) then
      var j := SpaceEnd(s, i + |w|);
      if CurrencyAmountAt(curs, s, j, 0).Some? then CurrencyAmountAt(curs, s, j, 0)
      else if optional then AmountAt(s, j) else None
    else None
  }

  /** The leftmost match of `pat` starting at or after `i`: its start and end. */
  function Search(pat: Pattern, curs: seq<Currency>, s: string, i: nat): (r: Option<(nat, nat)>)
    ensures r.Some? ==> i <= r.value.0 && MatchAt(pat, curs, s, r.value.0) == Some(r.value.1)
    ensures r.Some? ==> forall k :: i <= k < r.value.0 ==> MatchAt(pat, curs, s, k).None?
    ensures r.None? ==> forall k :: i <= k <= |s| ==> MatchAt(pat, curs, s, k).None?
    decreases |s| + 1 - i
  {
    if i > |s| then None
    else if MatchAt(pat, curs, s, i).Some? then Some((i, MatchAt(pat, curs, s, i).value))
    else Search(pat, curs, s, i + 1)
  }

  /** `text.match(pat)[0]`, or None when there is no match. */
  function FirstMatch(pat: Pattern, curs: seq<Currency>, s: string): (r: Option<string>)
    ensures r.Some? ==> exists a, b :: Search(pat, curs, s, 0) == Some((a, b)) && a < b <= |s| && r.value == s[a..b]
    ensures r.Some? ==> IsInfix(r.value, s)
  {
    match Search(pat, curs, s, 0)
    case Some((a, b)) =>
      assert InfixAt(s[a..b], s, a);
      Some(s[a..b])
    case None => None
  }

  // ---------------------------------------------------------------- url(...)

  predicate IsQuote(c: char) {
    c == '"' || c == '\''
  }

  /** End of the greedy run of `[^"')]` from `i`. */
  function UrlCharsEnd(s: string, i: nat): (r: nat)
    requires i <= |s|
    ensures i <= r <= |s|
    ensures forall k :: i <= k < r ==> !IsQuote(s[k]) && s[k] != ')'
    ensures r < |s| ==> IsQuote(s[r]) || s[r] == ')'
    decreases |s| - i
  {
    if i < |s| && !IsQuote(s[i]) && s[i] != ')' then UrlCharsEnd(s, i + 1) else i
  }

  /** The capture group of `url\(["']?([^"')]+)["']?\)` tried at `i`. */
  function UrlAt(s: string, i: nat): (r: Option<string>)
    ensures r.Some? ==> r.value != [] && forall k :: 0 <= k < |r.value| ==> !IsQuote(r.value[k]) && r.value[k] != ')'
  {
    if i + 4 <= |s| && s[i..i + 4] == "url(" then
      var a := if i + 4 < |s| && IsQuote(s[i + 4]) then i + 5 else i + 4;
      var b := UrlCharsEnd(s, a);
      if a < b < |s| &&
        (s[b] == ')' || (IsQuote(s[b]) && b + 1 < |s| && s[b + 1] == ')'))
      then Some(s[a..b])
      else None
    else None
  }

  /** `k` is the leftmost position at or after `i` where the url pattern
      matches, with capture `r`. */
  predicate LeftmostUrlAt(s: string, i: nat, k: nat, r: Option<string>) {
    i <= k <= |s| && UrlAt(s, k) == r && forall j :: i <= j < k ==> UrlAt(s, j).None?
  }

  /** `bgImage.match(/url\(["']?([^"')]+)["']?\)/)[1]`: the capture of the leftmost match. */
  function UrlCapture(s: string, i: nat): (r: Option<string>)
    ensures r.Some? ==> exists k :: LeftmostUrlAt(s, i, k, r)
    ensures r.None? ==> forall k :: i <= k <= |s| ==> UrlAt(s, k).None?
    decreases |s| + 1 - i
  {
    if i > |s| then None
    else if UrlAt(s, i).Some? then
      assert LeftmostUrlAt(s, i, i, UrlAt(s, i));
      UrlAt(s, i)
    else
      var r := UrlCapture(s, i + 1);
      if r.Some? then
        var k :| LeftmostUrlAt(s, i + 1, k, r);
        assert LeftmostUrlAt(s, i, k, r);
        r
      else
        assert forall k :: i <= k <= |s| ==> UrlAt(s, k).None? by {
          forall k | i <= k <= |s| ensures UrlAt(s, k).None? {
            if k > i {
              assert i + 1 <= k;
            }
          }
        }
        r
  }

  // ---------------------------------------------------------------- lemmas

  /** "From", "Starting at" and "Price:" neither start nor end with whitespace. */
  predicate WellFormedWords(words: seq<string>) {
    forall k :: 0 <= k < |words| ==> |words[k]| > 0 && !IsSpace(words[k][0]) && !IsSpace(words[k][|words[k]| - 1])
  }

  predicate WellFormedPattern(pat: Pattern) {
    pat.Keyword? ==> WellFormedWords(pat.words)
  }

  /** A match from `i` that neither starts nor ends with whitespace. */
  predicate Trimmed(s: string, i: nat, r: Option<nat>) {
    r.Some? && i < r.value <= |s| && !IsSpace(s[i]) && !IsSpace(s[r.value - 1])
  }

  lemma NumCharNotSpace(c: char)
    requires IsNumChar(c)
    ensures !IsSpace(c)
  {
  }

  lemma {:induction false} CurrencyAmountTrimmed(curs: seq<Currency>, s: string, i: nat, k: nat)
    requires WellFormedCurrencies(curs)
    requires CurrencyAmountAt(curs, s, i, k).Some?
    ensures Trimmed(s, i, CurrencyAmountAt(curs, s, i, k))
    decreases |curs| - k
  {
    var t := TokenEnd(s, i, curs[k]);
    if t.Some? && AmountAt(s, SpaceEnd(s, t.value)).Some? {
      var e := AmountAt(s, SpaceEnd(s, t.value)).value;
      assert CurrencyAmountAt(curs, s, i, k) == Some(e);
      assert WellFormedToken(curs[k].token);
      NumCharNotSpace(s[e - 1]);
    } else {
      CurrencyAmountTrimmed(curs, s, i, k + 1);
    }
  }

  lemma {:induction false} FirstTokenTrimmed(curs: seq<Currency>, s: string, i: nat, k: nat)
    requires WellFormedCurrencies(curs)
    requires FirstTokenEnd(curs, s, i, k).Some?
    ensures i < FirstTokenEnd(curs, s, i, k).value && !IsSpace(s[FirstTokenEnd(curs, s, i, k).value - 1])
    decreases |curs| - k
  {
    if TokenEnd(s, i, curs[k]).None? {
      FirstTokenTrimmed(curs, s, i, k + 1);
    }
  }

  lemma {:induction false} KeywordTrimmed(words: seq<string>, optional: bool, curs: seq<Currency>, s: string, i: nat, k: nat)
    requires WellFormedCurrencies(curs) && WellFormedWords(words)
    requires KeywordAt(words, optional, curs, s, i, k).Some?
    ensures Trimmed(s, i, KeywordAt(words, optional, curs, s, i, k))
    decreases |words| - k
  {
    if WordThenAmount(words[k], optional, curs, s, i).Some? {
      WordThenAmountTrimmed(words[k], optional, curs, s, i);
      KeywordFirstWord(words, optional, curs, s, i, k);
    } else {
      KeywordTrimmed(words, optional, curs, s, i, k + 1);
      KeywordLaterWord(words, optional, curs, s, i, k);
    }
  }

  /** `words[j]` is the first of `words[k..]` followed by an amount at `i`. */
  predicate FirstWordAt(words: seq<string>, optional: bool, curs: seq<Currency>, s: string, i: nat, k: nat, j: int) {
    k <= j < |words| && WordThenAmount(words[j], optional, curs, s, i).Some?
    && forall l :: k <= l < j ==> WordThenAmount(words[l], optional, curs, s, i).None?
  }

  /** The keyword alternation is ordered: it matches exactly as its first
      alternative that matches at `i`, and fails only when every one fails. */
  lemma {:induction false} KeywordFirstAlternative(words: seq<string>, optional: bool, curs: seq<Currency>, s: string, i: nat, k: nat)
    ensures KeywordAt(words, optional, curs, s, i, k).Some? ==>
      exists j :: FirstWordAt(words, optional, curs, s, i, k, j) && KeywordAt(words, optional, curs, s, i, k) == WordThenAmount(words[j], optional, curs, s, i)
    ensures KeywordAt(words, optional, curs, s, i, k).None? <==>
      forall j :: k <= j < |words| ==> WordThenAmount(words[j], optional, curs, s, i).None?
    decreases |words| - k
  {
    if k < |words| {
      if WordThenAmount(words[k], optional, curs, s, i).Some? {
        assert FirstWordAt(words, optional, curs, s, i, k, k);
      } else {
        KeywordFirstAlternative(words, optional, curs, s, i, k + 1);
        KeywordLaterWord(words, optional, curs, s, i, k);
        if KeywordAt(words, optional, curs, s, i, k).Some? {
          var j :| FirstWordAt(words, optional, curs, s, i, k + 1, j) && KeywordAt(words, optional, curs, s, i, k + 1) == WordThenAmount(words[j], optional, curs, s, i);
          assert FirstWordAt(words, optional, curs, s, i, k, j);
        }
      }
    }
  }

  lemma KeywordFirstWord(words: seq<string>, optional: bool, curs: seq<Currency>, s: string, i: nat, k: nat)
    requires k < |words| && WordThenAmount(words[k], optional, curs, s, i).Some?
    ensures KeywordAt(words, optional, curs, s, i, k) == WordThenAmount(words[k], optional, curs, s, i)
  {
  }

  lemma KeywordLaterWord(words: seq<string>, optional: bool, curs: seq<Currency>, s: string, i: nat, k: nat)
    requires k < |words| && WordThenAmount(words[k], optional, curs, s, i).None?
    ensures KeywordAt(words, optional, curs, s, i, k) == KeywordAt(words, optional, curs, s, i, k + 1)
  {
  }

  lemma WordThenAmountTrimmed(w: string, optional: bool, curs: seq<Currency>, s: string, i: nat)
    requires WellFormedCurrencies(curs) && |w| > 0 && !IsSpace(w[0])
    requires WordThenAmount(w, optional, curs, s, i).Some?
    ensures Trimmed(s, i, WordThenAmount(w, optional, curs, s, i))
  {
    WordStartNotSpace(s, i, w);
    var j := SpaceEnd(s, i + |w|);
    if CurrencyAmountAt(curs, s, j, 0).Some? {
      CurrencyAmountTrimmed(curs, s, j, 0);
    } else {
      NumCharNotSpace(s[AmountAt(s, j).value - 1]);
    }
  }

  /** Text that equals a word up to case starts as the word does. */
  lemma WordStartNotSpace(s: string, i: nat, w: string)
    requires WordAt(s, i, w) && |w| > 0 && !IsSpace(w[0])
    ensures !IsSpace(s[i])
  {
    assert Lower(s[i..i + |w|])[0] == LowerChar(s[i]);
    SameLowerNotSpace(s[i], w[0]);
  }

  /** With well-formed tokens and keywords a match neither starts nor ends with
      whitespace. */
  lemma MatchEndsNotSpace(pat: Pattern, curs: seq<Currency>, s: string, i: nat)
    requires WellFormedCurrencies(curs) && WellFormedPattern(pat)
    requires MatchAt(pat, curs, s, i).Some?
    ensures Trimmed(s, i, MatchAt(pat, curs, s, i))
  {
    match pat
    case CurrencyFirst => CurrencyAmountTrimmed(curs, s, i, 0);
    case NumberFirst =>
      FirstTokenTrimmed(curs, s, SpaceEnd(s, DecimalEnd(s, NumEnd(s, i))), 0);
      NumCharNotSpace(s[i]);
    case Keyword(words, optional) => KeywordTrimmed(words, optional, curs, s, i, 0);
  }

  /** So the `.trim()` the scripts apply to a match changes nothing. */
  lemma MatchIsTrimmed(pat: Pattern, curs: seq<Currency>, s: string, i: nat)
    requires WellFormedCurrencies(curs) && WellFormedPattern(pat)
    requires MatchAt(pat, curs, s, i).Some?
    ensures Trim(s[i..MatchAt(pat, curs, s, i).value]) == s[i..MatchAt(pat, curs, s, i).value]
  {
    MatchEndsNotSpace(pat, curs, s, i);
    TrimmedSliceIsTrim(s, i, MatchAt(pat, curs, s, i));
  }

  /** A slice that neither starts nor ends with whitespace is its own trim. */
  lemma TrimmedSliceIsTrim(s: string, i: nat, r: Option<nat>)
    requires Trimmed(s, i, r)
    ensures Trim(s[i..r.value]) == s[i..r.value]
  {
    var m := s[i..r.value];
    assert m[0] == s[i] && m[|m| - 1] == s[r.value - 1];
    TrimOfTrimmed(m);
  }

  /** Every match contains a digit or comma, so its trim is never empty. */
  lemma MatchTrimNonEmpty(pat: Pattern, curs: seq<Currency>, s: string, i: nat)
    requires MatchAt(pat, curs, s, i).Some?
    ensures Trim(s[i..MatchAt(pat, curs, s, i).value]) != []
  {
    var e := MatchAt(pat, curs, s, i).value;
    var j :| i <= j < e && IsNumChar(s[j]);
    assert s[i..e][j - i] == s[j];
  }

  /** A match of `From\s*(?:cur\s*)[,\d]+…` at `i` is, from the first non-space
      after "From" on, a match of the currency-first pattern with the same end. */
  lemma FromContainsCurrencyMatch(curs: seq<Currency>, s: string, i: nat)
    requires MatchAt(Keyword(["From"], false), curs, s, i).Some?
    ensures i + 4 <= |s|
    ensures MatchAt(CurrencyFirst, curs, s, SpaceEnd(s, i + 4)) == MatchAt(Keyword(["From"], false), curs, s, i)
  {
    assert KeywordAt(["From"], false, curs, s, i, 1).None?;
    assert WordThenAmount("From", false, curs, s, i).Some?;
  }

  /** Wherever the "From" pattern matches, the currency-first pattern matches too,
      so a script that tries the currency-first pattern before it never reaches it. */
  lemma FromNeverDecides(curs: seq<Currency>, s: string)
    requires FirstMatch(Keyword(["From"], false), curs, s).Some?
    ensures FirstMatch(CurrencyFirst, curs, s).Some?
  {
    var (a, _) := Search(Keyword(["From"], false), curs, s, 0).value;
    FromContainsCurrencyMatch(curs, s, a);
  }

  /** The first match of a pattern is its own trim. */
  lemma FirstMatchIsTrimmed(pat: Pattern, curs: seq<Currency>, s: string)
    requires WellFormedCurrencies(curs) && WellFormedPattern(pat)
    requires FirstMatch(pat, curs, s).Some?
    ensures Trim(FirstMatch(pat, curs, s).value) == FirstMatch(pat, curs, s).value
  {
    var (a, b) := Search(pat, curs, s, 0).value;
    MatchIsTrimmed(pat, curs, s, a);
  }

  lemma StandardCurrenciesWellFormed()
    ensures WellFormedCurrencies(Currencies)
  {
    forall k | 0 <= k < |Currencies|
      ensures WellFormedToken(Currencies[k].token)
    {
      var t := Currencies[k].token;
      assert |t| > 0;
      CurrencyEndsNotSpace(t[0]);
      CurrencyEndsNotSpace(t[|t| - 1]);
    }
  }

  /** The first and last characters of the standard tokens. */
  const CurrencyEnds: set<char> :=
    {'R', 's', 'P', 'K', '\U{20B9}', '$', '\U{20AC}', '\U{A3}', '\U{A5}', '\U{20BD}', '\U{20A9}', '\U{FFE5}'}

  /** No first or last character of a standard token is blank, a digit, a comma or a dot. */
  lemma CurrencyEndsNotSpace(c: char)
    requires c in CurrencyEnds
    ensures !IsSpace(c) && !IsNumChar(c) && c != '.'
  {
  }

  /** A word cannot match where the text's character differs from the word's
      first one up to ASCII case, nor at the end of the text. */
  lemma NotWordAt(s: string, i: nat, w: string)
    requires |w| > 0 && (i >= |s| || LowerChar(s[i]) != LowerChar(w[0]))
    ensures !WordAt(s, i, w)
  {
    if i + |w| <= |s| {
      var t := s[i..i + |w|];
      assert t[0] == s[i];
      assert Lower(t)[0] != Lower(w)[0];
    }
  }

  /** Where no currency alternative from `k` on matches, neither the
      currency-then-amount scan nor the first-token scan succeeds. */
  lemma {:induction false} NoTokenAt(curs: seq<Currency>, s: string, i: nat, k: nat)
    requires forall j :: k <= j < |curs| ==> !WordAt(s, i, curs[j].token)
    ensures CurrencyAmountAt(curs, s, i, k).None?
    ensures FirstTokenEnd(curs, s, i, k).None?
    decreases |curs| - k
  {
    if k < |curs| {
      NoTokenAt(curs, s, i, k + 1);
    }
  }
}
