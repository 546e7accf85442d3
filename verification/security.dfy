/** The main process's input sanitisers and validators: HTML entity escaping,
    the dangerous-scheme URL filter, file-path clean-up, the e-mail shape
    check, the password-strength check, and redaction of sensitive keys
    before logging. Logging itself is left out. */
module Security {
  import opened Wrappers
  import opened Text
  import opened Extraction
  import opened Sequences

  // ---------------------------------------------------------------- HTML

  /** The characters `sanitizeHtml` replaces by entities. */
  predicate IsHtmlSpecial(c: char) {
    c == '&' || c == '<' || c == '>' || c == '"' || c == '\'' || c == '/'
  }

  /** The entity written for one character. */
  function EscapeChar(c: char): (r: string)
    ensures IsHtmlSpecial(c) ==> |r| >= 4 && r[0] == '&' && r[|r| - 1] == ';'
    ensures !IsHtmlSpecial(c) ==> r == [c]
  {
    match c
    case '&' => "&amp;"
    case '<' => "&lt;"
    case '>' => "&gt;"
    case '"' => "&quot;"
    case '\'' => "&#x27;"
    case '/' => "&#x2F;"
    case _ => [c]
  }

  /** `replace(/[&<>"'/]/g, (char) => map[char])`. */
  function Escape(s: string): (r: string)
    ensures forall i :: 0 <= i < |r| ==> r[i] != '<' && r[i] != '>' && r[i] != '"' && r[i] != '\'' && r[i] != '/'
    ensures (forall i :: 0 <= i < |s| ==> !IsHtmlSpecial(s[i])) ==> r == s
  {
    if |s| == 0 then ""
    else EscapeChar(s[0]) + Escape(s[1..])
  }

  /** Reading one character back off the front of escaped text: an entity
      `sanitizeHtml` writes, or a character that is not special. */
  function UnescapeHead(s: string): Option<(char, nat)>
    requires |s| > 0
  {
    if StartsWith(s, "&amp;") then Some(('&', 5))
    else if StartsWith(s, "&lt;") then Some(('<', 4))
    else if StartsWith(s, "&gt;") then Some(('>', 4))
    else if StartsWith(s, "&quot;") then Some(('"', 6))
    else if StartsWith(s, "&#x27;") then Some(('\'', 6))
    else if StartsWith(s, "&#x2F;") then Some(('/', 6))
    else if IsHtmlSpecial(s[0]) then None
    else Some((s[0], 1))
  }

  /** The inverse of `Escape`: decodes the six entities and refuses any other
      use of a special character. */
  function Unescape(s: string): (r: Option<string>)
    decreases |s|
  {
    if |s| == 0 then Some("")
    else
      match UnescapeHead(s)
      case None => None
      case Some((c, n)) =>
        if n <= |s| then
          match Unescape(s[n..])
          case Some(t) => Some([c] + t)
          case None => None
        else None
  }

  lemma UnescapeHeadEscaped(c: char, rest: string)
    ensures UnescapeHead(EscapeChar(c) + rest) == Some((c, |EscapeChar(c)|))
  {
    var e := EscapeChar(c) + rest;
    assert e[..|EscapeChar(c)|] == EscapeChar(c);
    assert e[0] == EscapeChar(c)[0];
    if IsHtmlSpecial(c) {
      assert e[1] == EscapeChar(c)[1];
    }
    if c == '\'' || c == '/' {
      assert e[4] == EscapeChar(c)[4];
    }
  }

  /** Escaping loses nothing: the escaped text decodes back to the input. */
  lemma {:induction false} UnescapeEscape(s: string)
    ensures Unescape(Escape(s)) == Some(s)
    decreases |s|
  {
    if |s| > 0 {
      UnescapeEscape(s[1..]);
      var e := EscapeChar(s[0]);
      UnescapeHeadEscaped(s[0], Escape(s[1..]));
      assert (e + Escape(s[1..]))[|e|..] == Escape(s[1..]);
      assert [s[0]] + s[1..] == s;
    }
  }

  /** `sanitizeHtml(html)`: "" for a falsy argument, otherwise the entity-escaped
      `String(html)`. */
  function SanitizeHtml(html: Value): (r: string)
    ensures !Truthy(html) ==> r == ""
    ensures forall i :: 0 <= i < |r| ==> r[i] != '<' && r[i] != '>' && r[i] != '"' && r[i] != '\'' && r[i] != '/'
    ensures Truthy(html) && (forall i :: 0 <= i < |ToStr(html)| ==> !IsHtmlSpecial(ToStr(html)[i])) ==> r == ToStr(html)
  {
    if !Truthy(html) then "" else Escape(ToStr(html))
  }

  /** A truthy argument is recovered exactly from its sanitised form. */
  lemma SanitizeHtmlReversible(html: Value)
    requires Truthy(html)
    ensures Unescape(SanitizeHtml(html)) == Some(ToStr(html))
  {
    UnescapeEscape(ToStr(html));
  }

  // ---------------------------------------------------------------- URLs

  const DangerousSchemes: seq<string> := ["javascript:", "data:", "vbscript:", "file:"]

  /** The lower-cased, trimmed URL starts with one of the blocked schemes. */
  predicate IsDangerous(url: string) {
    exists k :: 0 <= k < |DangerousSchemes| && StartsWith(Trim(Lower(url)), DangerousSchemes[k])
  }

  /** `sanitizeUrl(url)`: "" for an absent or empty URL and for a blocked scheme,
      whatever its case and surrounding whitespace; any other URL comes back
      exactly as given, untrimmed. */
  function SanitizeUrl(url: Option<string>): (r: string)
    ensures r == "" <==> url.None? || url.value == "" || IsDangerous(url.value)
    ensures r != "" ==> r == url.value
  {
    if url.None? || url.value == "" then ""
    else if IsDangerous(url.value) then ""
    else url.value
  }

  /** Whatever `sanitizeUrl` lets through passes it again unchanged, and never
      carries a blocked scheme. */
  lemma SanitizeUrlIdempotent(url: Option<string>)
    ensures SanitizeUrl(Some(SanitizeUrl(url))) == SanitizeUrl(url)
    ensures forall k :: 0 <= k < |DangerousSchemes| ==> !StartsWith(Trim(Lower(SanitizeUrl(url))), DangerousSchemes[k])
  {
    var r := SanitizeUrl(url);
    if r == "" {
      assert Lower(r) == "";
      assert Trim(Lower(r)) == "" by {
        assert AllSpace(Lower(r));
      }
    }
  }

  // ---------------------------------------------------------------- file paths

  /** The characters `[<>:"|?*]` `sanitizeFilePath` deletes. */
  predicate IsPathForbidden(c: char) {
    c == '<' || c == '>' || c == ':' || c == '"' || c == '|' || c == '?' || c == '*'
  }

  predicate IsSlash(c: char) {
    c == '/' || c == '\\'
  }

  /** No two adjacent dots. */
  predicate NoDotDot(s: string) {
    forall i :: 0 <= i < |s| - 1 ==> !(s[i] == '.' && s[i + 1] == '.')
  }

  predicate NoPathForbidden(s: string) {
    forall i :: 0 <= i < |s| ==> !IsPathForbidden(s[i])
  }

  /** `replace(/\.\./g, '')`: every ".." found scanning left to right, without
      overlap, deleted once. */
  function RemoveDotDot(s: string): (r: string)
    ensures |r| <= |s|
    decreases |s|
  {
    if |s| == 0 then ""
    else if StartsWith(s, "..") then RemoveDotDot(s[2..])
    else [s[0]] + RemoveDotDot(s[1..])
  }

  /** Deleting ".." only ever deletes: every character left was in the input. */
  lemma {:induction false} RemoveDotDotChars(s: string)
    ensures forall c :: c in RemoveDotDot(s) ==> c in s
    decreases |s|
  {
    if |s| > 0 {
      if StartsWith(s, "..") {
        RemoveDotDotChars(s[2..]);
        assert forall c :: c in s[2..] ==> c in s;
      } else {
        RemoveDotDotChars(s[1..]);
        assert forall c :: c in s[1..] ==> c in s;
      }
    }
  }

  /** No ".." survives the left-to-right deletion: a dot that is kept is never
      followed by a dot, and what follows it in the input is what follows it
      in the output. */
  lemma {:induction false} RemoveDotDotLeavesNone(s: string)
    ensures NoDotDot(RemoveDotDot(s))
    ensures |s| > 0 && !StartsWith(s, "..") ==> |RemoveDotDot(s)| > 0 && RemoveDotDot(s)[0] == s[0]
    decreases |s|
  {
    if |s| > 0 {
      if StartsWith(s, "..") {
        RemoveDotDotLeavesNone(s[2..]);
      } else {
        RemoveDotDotLeavesNone(s[1..]);
        var t := RemoveDotDot(s[1..]);
        assert RemoveDotDot(s) == [s[0]] + t;
        if s[0] == '.' && |s| >= 2 {
          assert s[1] != '.';
          assert !StartsWith(s[1..], "..");
          assert t[0] == s[1];
        }
      }
    }
  }

  /** Text without ".." is left as it is. */
  lemma {:induction false} RemoveDotDotKeeps(s: string)
    requires NoDotDot(s)
    ensures RemoveDotDot(s) == s
    decreases |s|
  {
    if |s| > 0 {
      assert !StartsWith(s, "..") by {
        if |s| >= 2 {
          assert !(s[0] == '.' && s[1] == '.');
        }
      }
      SuffixNoDotDot(s, 1);
      RemoveDotDotKeeps(s[1..]);
    }
  }

  /** `replace(/[<>:"|?*]/g, '')`. What it keeps, and in which order, is
      `RemovePathForbiddenInOrder`. */
  function RemovePathForbidden(s: string): (r: string)
    ensures |r| <= |s|
    ensures NoPathForbidden(r)
    ensures forall i :: 0 <= i < |r| ==> r[i] in s
    ensures NoPathForbidden(s) ==> r == s
  {
    if |s| == 0 then ""
    else if IsPathForbidden(s[0]) then RemovePathForbidden(s[1..])
    else [s[0]] + RemovePathForbidden(s[1..])
  }

  /** The deletion keeps exactly the allowed characters, in their order. */
  lemma {:induction false} RemovePathForbiddenInOrder(s: string)
    ensures exists idx :: PickedAt(s, AllowedMask(s), RemovePathForbidden(s), idx)
    decreases |s|
  {
    if |s| == 0 {
      assert RemovePathForbidden(s) == "";
      assert PickedAt(s, AllowedMask(s), "", []);
    } else {
      RemovePathForbiddenInOrder(s[1..]);
      AllowedStep(s, RemovePathForbidden(s[1..]), RemovePathForbidden(s));
    }
  }

  /** The allowed characters of the tail, with the first one before them
      when it is allowed, are the allowed characters of the whole. */
  lemma AllowedStep(s: string, rest: string, r: string)
    requires |s| > 0 && exists idx :: PickedAt(s[1..], AllowedMask(s[1..]), rest, idx)
    requires r == if IsPathForbidden(s[0]) then rest else [s[0]] + rest
    ensures exists idx :: PickedAt(s, AllowedMask(s), r, idx)
  {
    AllowedMaskCons(s);
    ShiftPositions(s, !IsPathForbidden(s[0]), AllowedMask(s[1..]), rest, AllowedMask(s), r);
  }

  /** Which characters the deletion keeps. */
  function AllowedMask(s: string): (r: seq<bool>)
    ensures |r| == |s| && forall j :: 0 <= j < |s| ==> (r[j] <==> !IsPathForbidden(s[j]))
  {
    seq(|s|, j requires 0 <= j < |s| => !IsPathForbidden(s[j]))
  }

  lemma AllowedMaskCons(s: string)
    requires |s| > 0
    ensures AllowedMask(s) == [!IsPathForbidden(s[0])] + AllowedMask(s[1..])
  {
  }

  /** `replace(/^[/\\]+/, '')`: the leading run of slashes and backslashes removed. */
  function StripLeadingSlashes(s: string): (r: string)
    ensures |r| <= |s| && r == s[|s| - |r|..]
    ensures r == "" || !IsSlash(r[0])
    ensures forall i :: 0 <= i < |s| - |r| ==> IsSlash(s[i])
  {
    if |s| > 0 && IsSlash(s[0]) then
      var t := StripLeadingSlashes(s[1..]);
      StripStep(s, t);
      t
    else s
  }

  /** What the rest strips, together with a leading slash, is what `s` strips. */
  lemma StripStep(s: string, t: string)
    requires |s| > 0 && IsSlash(s[0])
    requires |t| <= |s| - 1 && t == s[1..][|s| - 1 - |t|..]
    requires forall i :: 0 <= i < |s| - 1 - |t| ==> IsSlash(s[1..][i])
    ensures t == s[|s| - |t|..]
    ensures forall i :: 0 <= i < |s| - |t| ==> IsSlash(s[i])
  {
    assert s[1..][|s| - 1 - |t|..] == s[|s| - |t|..];
    forall i | 0 < i < |s| - |t|
      ensures IsSlash(s[i])
    {
      assert s[i] == s[1..][i - 1];
    }
  }

  /** A suffix keeps the absence of "..". */
  lemma SuffixNoDotDot(s: string, k: nat)
    requires NoDotDot(s) && k <= |s|
    ensures NoDotDot(s[k..])
  {
    assert forall i :: 0 <= i < |s| - k ==> s[k..][i] == s[k + i];
  }

  /** Deleting ".." brings in no forbidden character. */
  lemma RemoveDotDotKeepsAllowed(s: string)
    requires NoPathForbidden(s)
    ensures NoPathForbidden(RemoveDotDot(s))
  {
    var d := RemoveDotDot(s);
    RemoveDotDotChars(s);
    forall i | 0 <= i < |d| ensures !IsPathForbidden(d[i]) {
      assert d[i] in d;
    }
  }

  /** Stripping the leading slashes keeps a string free of forbidden
      characters and of "..". */
  lemma StripKeepsClean(m: string)
    ensures NoPathForbidden(m) ==> NoPathForbidden(StripLeadingSlashes(m))
    ensures NoDotDot(m) ==> NoDotDot(StripLeadingSlashes(m))
  {
    var r := StripLeadingSlashes(m);
    var k := |m| - |r|;
    assert r == m[k..];
    if NoPathForbidden(m) {
      forall i | 0 <= i < |r| ensures !IsPathForbidden(r[i]) {
        assert r[i] == m[k + i];
      }
    }
    if NoDotDot(m) {
      SuffixNoDotDot(m, k);
    }
  }

  /** `sanitizeFilePath(filePath)` as written: ".." removed first, then the
      forbidden characters, then the leading slashes. The result holds no
      forbidden character and starts with no slash. */
  function SanitizeFilePath(filePath: Option<string>): (r: string)
    ensures filePath.None? || filePath.value == "" ==> r == ""
    ensures NoPathForbidden(r)
    ensures r == "" || !IsSlash(r[0])
    ensures |r| <= (if filePath.Some? then |filePath.value| else 0)
    ensures filePath.Some? && filePath.value != "" ==> r == StripLeadingSlashes(RemovePathForbidden(RemoveDotDot(filePath.value)))
  {
    if filePath.None? || filePath.value == "" then ""
    else
      var m := RemovePathForbidden(RemoveDotDot(filePath.value));
      var r := StripLeadingSlashes(m);
      SuffixNoPathForbidden(m, r);
      r
  }

  /** The two paths the module's tests sanitize: a traversal loses its ".."
      segments and its leading slashes, and a name loses its forbidden
      characters. */
  lemma SanitizeFilePathExamples()
    ensures SanitizeFilePath(Some("../../../etc/passwd")) == "etc/passwd"
    ensures SanitizeFilePath(Some("file<>:\"|?*.txt")) == "file.txt"
  {
    TraversalParts();
    TraversalExample("/", "..", "etc/passwd");
    ForbiddenNameParts();
    ForbiddenNameExample("file", "<>:\"|?*", ".txt");
  }

  /** `slash + dots` repeated three times before a clean tail comes out as the tail. */
  lemma TraversalExample(slash: string, dots: string, tail: string)
    requires slash == "/" && dots == ".." && NoDotDot(tail) && NoPathForbidden(tail)
    requires tail != "" && !IsSlash(tail[0])
    ensures SanitizeFilePath(Some(dots + (slash + (dots + (slash + (dots + (slash + tail))))))) == tail
  {
    var s3 := slash + tail;
    var s2 := slash + (dots + s3);
    var s1 := slash + (dots + s2);
    var m := slash + (slash + (slash + tail));
    assert RemoveDotDot(dots + s1) == m by {
      RemoveDotDotKeeps(tail);
      RemoveDotDotCons('/', tail);
      RemoveDotDotSkip(dots + s3);
      RemoveDotDotCons('/', dots + s3);
      RemoveDotDotSkip(dots + s2);
      RemoveDotDotCons('/', dots + s2);
      RemoveDotDotSkip(dots + s1);
    }
    assert RemovePathForbidden(m) == m by {
      assert NoPathForbidden(m);
    }
    assert StripLeadingSlashes(m) == tail by {
      StripSlashCons('/', slash + (slash + tail));
      StripSlashCons('/', slash + tail);
      StripSlashCons('/', tail);
      StripNoSlash(tail);
    }
    SanitizeSteps(dots + s1, m, m, tail);
  }

  /** The traversal path, cut at the characters the clean-up looks at. */
  lemma TraversalParts()
    ensures "../../../etc/passwd" == ".." + ("/" + (".." + ("/" + (".." + ("/" + "etc/passwd")))))
    ensures NoDotDot("etc/passwd") && NoPathForbidden("etc/passwd")
  {
  }

  /** Clean text around a run of forbidden characters comes out without the run. */
  lemma ForbiddenNameExample(a: string, b: string, c: string)
    requires NoPathForbidden(a) && NoPathForbidden(c) && NoDotDot(a + b + c)
    requires forall i :: 0 <= i < |b| ==> IsPathForbidden(b[i])
    requires a != "" && !IsSlash(a[0])
    ensures SanitizeFilePath(Some(a + b + c)) == a + c
  {
    var p := a + b + c;
    RemoveDotDotKeeps(p);
    ForbiddenRunRemoved(a, b, c);
    assert (a + c)[0] == a[0];
    StripNoSlash(a + c);
    SanitizeSteps(p, p, a + c, a + c);
  }

  lemma ForbiddenRunRemoved(a: string, b: string, c: string)
    requires NoPathForbidden(a) && NoPathForbidden(c)
    requires forall i :: 0 <= i < |b| ==> IsPathForbidden(b[i])
    ensures RemovePathForbidden(a + b + c) == a + c
  {
    assert RemovePathForbidden(a + b) == a by {
      RemovePathForbiddenAppend(a, b);
      AllForbiddenRemoved(b);
      assert RemovePathForbidden(a) == a;
      assert a + "" == a;
    }
    assert RemovePathForbidden(c) == c;
    RemovePathForbiddenAppend(a + b, c);
  }

  /** The clean-up of a present path is its three steps in turn. */
  lemma SanitizeSteps(p: string, d: string, m: string, r: string)
    requires p != "" && RemoveDotDot(p) == d && RemovePathForbidden(d) == m && StripLeadingSlashes(m) == r
    ensures SanitizeFilePath(Some(p)) == r
  {
  }

  lemma StripNoSlash(s: string)
    requires s == "" || !IsSlash(s[0])
    ensures StripLeadingSlashes(s) == s
  {
  }

  lemma StripSlashCons(c: char, t: string)
    requires IsSlash(c)
    ensures StripLeadingSlashes([c] + t) == StripLeadingSlashes(t)
  {
    assert ([c] + t)[1..] == t;
  }

  lemma ForbiddenNameParts()
    ensures "file<>:\"|?*.txt" == "file" + "<>:\"|?*" + ".txt"
    ensures "file.txt" == "file" + ".txt"
    ensures NoPathForbidden("file") && NoPathForbidden(".txt") && NoDotDot("file" + "<>:\"|?*" + ".txt")
    ensures forall i :: 0 <= i < |"<>:\"|?*"| ==> IsPathForbidden("<>:\"|?*"[i])
    ensures !IsSlash("file"[0])
  {
  }

  /** A string of forbidden characters only is deleted entirely. */
  lemma AllForbiddenRemoved(s: string)
    requires forall i :: 0 <= i < |s| ==> IsPathForbidden(s[i])
    ensures RemovePathForbidden(s) == ""
  {
  }

  /** A leading ".." is deleted. */
  lemma RemoveDotDotSkip(s: string)
    requires StartsWith(s, "..")
    ensures RemoveDotDot(s) == RemoveDotDot(s[2..])
  {
  }

  /** A suffix of a string without forbidden characters has none either. */
  lemma SuffixNoPathForbidden(m: string, r: string)
    requires NoPathForbidden(m) && |r| <= |m| && r == m[|m| - |r|..]
    ensures NoPathForbidden(r)
  {
    assert forall i :: 0 <= i < |r| ==> r[i] == m[|m| - |r| + i];
  }

  /** A path that is already clean comes back unchanged, so `sanitizeFilePath`
      logs no warning for it. */
  lemma SanitizeFilePathKeepsClean(p: string)
    requires NoDotDot(p) && NoPathForbidden(p) && (p == "" || !IsSlash(p[0]))
    ensures SanitizeFilePath(Some(p)) == p
  {
    RemoveDotDotKeeps(p);
  }

  lemma RemovePathForbiddenCons(c: char, t: string)
    ensures RemovePathForbidden([c] + t) == if IsPathForbidden(c) then RemovePathForbidden(t) else [c] + RemovePathForbidden(t)
  {
    assert ([c] + t)[1..] == t;
  }

  lemma RemoveDotDotCons(c: char, t: string)
    requires c != '.' || t == "" || t[0] != '.'
    ensures RemoveDotDot([c] + t) == [c] + RemoveDotDot(t)
  {
    var s := [c] + t;
    assert s[0] == c && s[1..] == t;
    NoDotDotStart(c, t, s);
    RemoveDotDotStep(s);
  }

  lemma NoDotDotStart(c: char, t: string, s: string)
    requires c != '.' || t == "" || t[0] != '.'
    requires s == [c] + t
    ensures !StartsWith(s, "..")
  {
    if |s| >= 2 {
      assert s[..2][0] == c && s[..2][1] == t[0];
    }
  }

  /** A string that does not start with ".." keeps its first character. */
  lemma RemoveDotDotStep(s: string)
    requires |s| > 0 && !StartsWith(s, "..")
    ensures RemoveDotDot(s) == [s[0]] + RemoveDotDot(s[1..])
  {
  }

  /** Deleting a forbidden character between two dots makes a new "..": for a
      clean tail such as "etc/passwd", the as-written order turns ".<./" + tail
      into the traversal "../" + tail. */
  lemma SanitizeFilePathLeavesTraversal(tail: string)
    requires NoPathForbidden(tail) && NoDotDot(tail)
    ensures SanitizeFilePath(Some(".<./" + tail)) == "../" + tail
  {
    var s4 := ['/'] + tail;
    var s3 := ['.'] + s4;
    var s2 := ['<'] + s3;
    var s1 := ['.'] + s2;
    ConsFour('.', '<', '.', '/', tail);
    RemoveDotDotKeeps(tail);
    RemoveDotDotCons('/', tail);
    RemoveDotDotCons('.', s4);
    RemoveDotDotCons('<', s3);
    RemoveDotDotCons('.', s2);
    ForbiddenJoinsDots(tail);
  }

  /** The evidently intended clean-up: the forbidden characters are deleted
      before the ".." sequences, so no ".." survives, and then the leading
      slashes. */
  function SanitizeFilePathFixed(filePath: Option<string>): (r: string)
    ensures filePath.None? || filePath.value == "" ==> r == ""
    ensures NoPathForbidden(r)
    ensures NoDotDot(r)
    ensures r == "" || !IsSlash(r[0])
  {
    if filePath.None? || filePath.value == "" then ""
    else
      var c := RemovePathForbidden(filePath.value);
      RemoveDotDotKeepsAllowed(c);
      RemoveDotDotLeavesNone(c);
      StripKeepsClean(RemoveDotDot(c));
      StripLeadingSlashes(RemoveDotDot(c))
  }

  /** The corrected clean-up is idempotent: its output is a fixed point. */
  lemma SanitizeFilePathFixedIdempotent(filePath: Option<string>)
    requires SanitizeFilePathFixed(filePath) != ""
    ensures SanitizeFilePathFixed(Some(SanitizeFilePathFixed(filePath))) == SanitizeFilePathFixed(filePath)
  {
    RemoveDotDotKeeps(SanitizeFilePathFixed(filePath));
  }

  /** On paths with no forbidden character the correction changes nothing. */
  lemma SanitizeFilePathFixedAgrees(p: string)
    requires NoPathForbidden(p)
    ensures SanitizeFilePathFixed(Some(p)) == SanitizeFilePath(Some(p))
  {
    RemoveDotDotKeepsAllowed(p);
  }

  /** On the input that shows the flaw, the correction leaves no traversal:
      the dots that meet once "<" is gone are deleted, and so is the slash. */
  lemma SanitizeFilePathFixedBlocksTraversal(tail: string)
    requires NoPathForbidden(tail) && NoDotDot(tail)
    requires tail == "" || (!IsSlash(tail[0]) && tail[0] != '.')
    ensures SanitizeFilePathFixed(Some(".<./" + tail)) == tail
  {
    var s3 := ['/'] + tail;
    var c := RemovePathForbidden(".<./" + tail);
    assert c == ".." + s3 by {
      ForbiddenJoinsDots(tail);
      ConsThree('.', '.', '/', tail);
      ConsTwo('.', '.', s3);
    }
    var d := RemoveDotDot(c);
    assert d == s3 by {
      RemoveDotDotPair(s3);
      RemoveDotDotKeeps(tail);
      RemoveDotDotCons('/', tail);
    }
    assert StripLeadingSlashes(d) == tail by {
      assert s3[1..] == tail;
    }
    FixedSteps(".<./" + tail);
  }

  /** The corrected clean-up of a non-empty path, step by step. */
  lemma FixedSteps(p: string)
    requires p != ""
    ensures SanitizeFilePathFixed(Some(p)) == StripLeadingSlashes(RemoveDotDot(RemovePathForbidden(p)))
  {
  }

  lemma RemoveDotDotPair(t: string)
    ensures RemoveDotDot(".." + t) == RemoveDotDot(t)
  {
    assert (".." + t)[2..] == t;
  }

  /** Deleting the "<" of ".<./" + tail leaves "../" + tail. */
  lemma ForbiddenJoinsDots(tail: string)
    requires NoPathForbidden(tail)
    ensures RemovePathForbidden(".<./" + tail) == "../" + tail
  {
    var s3 := ['/'] + tail;
    var s2 := ['.'] + s3;
    var s1 := ['<'] + s2;
    RemovePathForbiddenCons('/', tail);
    RemovePathForbiddenCons('.', s3);
    RemovePathForbiddenCons('<', s2);
    RemovePathForbiddenCons('.', s1);
    ConsFour('.', '<', '.', '/', tail);
    ConsThree('.', '.', '/', tail);
  }

  lemma ConsFour(a: char, b: char, c: char, d: char, t: string)
    ensures [a, b, c, d] + t == [a] + ([b] + ([c] + ([d] + t)))
  {
  }

  lemma ConsTwo(a: char, b: char, t: string)
    ensures [a, b] + t == [a] + ([b] + t)
  {
  }

  lemma ConsThree(a: char, b: char, c: char, t: string)
    ensures [a, b, c] + t == [a] + ([b] + ([c] + t))
  {
  }

  /** The deletion works character by character, so it distributes over concatenation. */
  lemma {:induction false} RemovePathForbiddenAppend(a: string, b: string)
    ensures RemovePathForbidden(a + b) == RemovePathForbidden(a) + RemovePathForbidden(b)
    decreases |a|
  {
    if |a| > 0 {
      RemovePathForbiddenAppend(a[1..], b);
      assert a + b == [a[0]] + (a[1..] + b);
      assert a == [a[0]] + a[1..];
      RemovePathForbiddenCons(a[0], a[1..] + b);
      RemovePathForbiddenCons(a[0], a[1..]);
    } else {
      assert a + b == b;
    }
  }

  // ---------------------------------------------------------------- e-mail

  /** What `/^[^\s@]+@[^\s@]+\.[^\s@]+$/` accepts: no whitespace, exactly one
      "@" with something before it, and after it a "." that has at least one
      character on each side. */
  ghost predicate EmailShape(s: string) {
    && (forall i :: 0 <= i < |s| ==> !IsSpace(s[i]))
    && (exists a :: 0 < a < |s| && s[a] == '@'
         && (forall j :: 0 <= j < |s| && j != a ==> s[j] != '@')
         && (exists k :: a + 2 <= k <= |s| - 2 && s[k] == '.'))
  }

  /** `isValidEmail(email)`, the regular expression run as one left-to-right
      scan that remembers the first "@", whether a second one was seen, and
      the first "." far enough after the "@". */
  method IsValidEmail(email: Option<string>) returns (ok: bool)
    ensures ok <==> email.Some? && EmailShape(email.value)
  {
    if email.None? || email.value == "" {
      return false;
    }
    var s := email.value;
    var spaceFree := true;
    var ats := 0;
    var at := -1;
    var dot := -1;
    var i := 0;
    while i < |s|
      invariant 0 <= i <= |s|
      invariant spaceFree <==> forall j :: 0 <= j < i ==> !IsSpace(s[j])
      invariant 0 <= ats <= 2
      invariant ats == 0 ==> forall j :: 0 <= j < i ==> s[j] != '@'
      invariant ats >= 1 ==> 0 <= at < i && s[at] == '@' && forall j :: 0 <= j < at ==> s[j] != '@'
      invariant ats == 1 ==> forall j :: at < j < i ==> s[j] != '@'
      invariant ats == 2 ==> exists j :: at < j < i && s[j] == '@'
      invariant ats == 1 && dot == -1 ==> forall k :: at + 2 <= k < i ==> s[k] != '.'
      invariant ats == 0 ==> dot == -1
      invariant ats == 1 && dot != -1 ==> at + 2 <= dot < i && s[dot] == '.'
      invariant ats == 1 && dot != -1 ==> forall k :: at + 2 <= k < dot ==> s[k] != '.'
    {
      var c := s[i];
      if IsSpace(c) {
        spaceFree := false;
      }
      if c == '@' {
        if ats == 0 {
          at := i;
        }
        ats := if ats < 2 then ats + 1 else 2;
      } else if c == '.' && ats == 1 && dot == -1 && i >= at + 2 {
        dot := i;
      }
      i := i + 1;
    }
    ok := spaceFree && ats == 1 && at > 0 && dot != -1 && dot <= |s| - 2;
  }

  // ---------------------------------------------------------------- passwords

  /** `password.length`: characters outside the Basic Multilingual Plane are
      two UTF-16 code units. */
  function Utf16Length(s: string): (r: nat)
    ensures |s| <= r <= 2 * |s|
    ensures (forall i :: 0 <= i < |s| ==> s[i] as int <= 0xFFFF) ==> r == |s|
  {
    if |s| == 0 then 0
    else (if s[0] as int > 0xFFFF then 2 else 1) + Utf16Length(s[1..])
  }

  predicate HasLower(s: string) {
    exists i | 0 <= i < |s| :: 'a' <= s[i] <= 'z'
  }

  predicate HasUpper(s: string) {
    exists i | 0 <= i < |s| :: 'A' <= s[i] <= 'Z'
  }

  predicate HasDigit(s: string) {
    exists i | 0 <= i < |s| :: '0' <= s[i] <= '9'
  }

  datatype Strength = Strength(valid: bool, message: string)

  /** `validatePasswordStrength(password)`: the checks in order, the first that
      fails naming the problem. */
  function ValidatePasswordStrength(password: Option<string>): (r: Strength)
    ensures r.valid <==> (password.Some? && Utf16Length(password.value) >= 8
      && HasLower(password.value) && HasUpper(password.value) && HasDigit(password.value))
    ensures r.valid <==> r.message == "Password is strong"
    ensures password.None? || password.value == "" ==> r.message == "Password is required"
    ensures password.Some? && password.value != "" && Utf16Length(password.value) < 8 ==>
      r.message == "Password must be at least 8 characters"
    ensures password.Some? && Utf16Length(password.value) >= 8 && !HasLower(password.value) ==>
      r.message == "Password must contain lowercase letter"
    ensures password.Some? && Utf16Length(password.value) >= 8 && HasLower(password.value) && !HasUpper(password.value) ==>
      r.message == "Password must contain uppercase letter"
    ensures (password.Some? && Utf16Length(password.value) >= 8 && HasLower(password.value) && HasUpper(password.value)
      && !HasDigit(password.value)) ==> r.message == "Password must contain number"
  {
    if password.None? || password.value == "" then Strength(false, "Password is required")
    else
      var p := password.value;
      if Utf16Length(p) < 8 then Strength(false, "Password must be at least 8 characters")
      else if !HasLower(p) then Strength(false, "Password must contain lowercase letter")
      else if !HasUpper(p) then Strength(false, "Password must contain uppercase letter")
      else if !HasDigit(p) then Strength(false, "Password must contain number")
      else Strength(true, "Password is strong")
  }

  /** A password of only lower-case letters and digits is never strong, however long. */
  lemma NoUpperNeverStrong(p: string)
    requires forall i :: 0 <= i < |p| ==> 'a' <= p[i] <= 'z' || '0' <= p[i] <= '9'
    ensures !ValidatePasswordStrength(Some(p)).valid
  {
    assert !HasUpper(p);
  }

  // ---------------------------------------------------------------- logging

  /** A JSON-like value as `sanitizeForLogging` sees it. */
  datatype Json =
    | JNull
    | JBool(b: bool)
    | JNum(n: int)
    | JStr(s: string)
    | JArr(items: seq<Json>)
    | JObj(entries: seq<(string, Json)>)

  /** The sensitive terms, already lower-cased as the code compares them. */
  const SensitiveTerms: seq<string> := ["password", "token", "secret", "apikey", "api_key", "accesstoken"]

  const Redacted: string := "[REDACTED]"

  /** `toLowerCase` as far as it can matter here: the ASCII capitals, and the
      Kelvin sign, the one other character that lowers to a letter of the
      terms. */
  function KeyLowerChar(c: char): char {
    if 'A' <= c <= 'Z' then (c as int + 32) as char
    else if c == '\U{212A}' then 'k'
    else c
  }

  function KeyLower(key: string): (r: string)
    ensures |r| == |key|
  {
    seq(|key|, i requires 0 <= i < |key| => KeyLowerChar(key[i]))
  }

  /** The key, lower-cased, contains one of the sensitive terms. */
  predicate IsSensitive(key: string) {
    exists k | 0 <= k < |SensitiveTerms| :: Contains(KeyLower(key), SensitiveTerms[k])
  }

  /** `sanitizeForLogging(obj)`: anything but an object comes back as it is; an
      object or array is copied key by key, every sensitive key's value
      replaced by "[REDACTED]" and every other value sanitised in turn. An
      array's keys are its indices, and its copy is a plain object. */
  function SanitizeForLogging(v: Json): (r: Json)
    ensures !v.JObj? && !v.JArr? ==> r == v
    ensures v.JObj? ==> (r.JObj? && |r.entries| == |v.entries|
      && forall i :: 0 <= i < |v.entries| ==> r.entries[i].0 == v.entries[i].0)
    ensures v.JObj? ==> forall i :: 0 <= i < |v.entries| ==>
      (IsSensitive(v.entries[i].0) ==> r.entries[i].1 == JStr(Redacted))
      && (!IsSensitive(v.entries[i].0) && !v.entries[i].1.JObj? && !v.entries[i].1.JArr? ==> r.entries[i].1 == v.entries[i].1)
    ensures v.JObj? ==> forall i :: 0 <= i < |v.entries| && !IsSensitive(v.entries[i].0) ==>
      r.entries[i].1 == SanitizeForLogging(v.entries[i].1)
    ensures v.JArr? ==> (r.JObj? && |r.entries| == |v.items|
      && forall i :: 0 <= i < |v.items| ==> r.entries[i].0 == NatToString(i))
    ensures v.JArr? ==> forall i :: 0 <= i < |v.items| ==>
      (IsSensitive(NatToString(i)) ==> r.entries[i].1 == JStr(Redacted))
      && (!IsSensitive(NatToString(i)) ==> r.entries[i].1 == SanitizeForLogging(v.items[i]))
  {
    match v
    case JObj(es) =>
      JObj(seq(|es|, i requires 0 <= i < |es| => (es[i].0, if IsSensitive(es[i].0) then JStr(Redacted) else SanitizeForLogging(es[i].1))))
    case JArr(xs) =>
      JObj(seq(|xs|, i requires 0 <= i < |xs| => (NatToString(i), if IsSensitive(NatToString(i)) then JStr(Redacted) else SanitizeForLogging(xs[i]))))
    case _ => v
  }

  /** What a sanitised value looks like: no arrays, every sensitive key redacted,
      and every other value clean in turn. */
  predicate Clean(v: Json) {
    match v
    case JArr(_) => false
    case JObj(es) =>
      forall i :: 0 <= i < |es| ==>
        (IsSensitive(es[i].0) ==> es[i].1 == JStr(Redacted)) && (!IsSensitive(es[i].0) ==> Clean(es[i].1))
    case _ => true
  }

  /** Everything `sanitizeForLogging` returns is clean: no sensitive key keeps
      its value, at any depth. */
  lemma {:induction false} SanitizedIsClean(v: Json)
    ensures Clean(SanitizeForLogging(v))
  {
    match v
    case JObj(es) =>
      var r := SanitizeForLogging(v);
      forall i | 0 <= i < |es| && !IsSensitive(es[i].0) ensures Clean(r.entries[i].1) {
        SanitizedIsClean(es[i].1);
      }
    case JArr(xs) =>
      var r := SanitizeForLogging(v);
      forall i | 0 <= i < |xs| && !IsSensitive(NatToString(i)) ensures Clean(r.entries[i].1) {
        SanitizedIsClean(xs[i]);
      }
    case _ =>
  }

  /** A clean value is left exactly as it is. */
  lemma {:induction false} CleanIsFixed(v: Json)
    requires Clean(v)
    ensures SanitizeForLogging(v) == v
  {
    match v
    case JObj(es) =>
      var r := SanitizeForLogging(v);
      forall i | 0 <= i < |es| ensures r.entries[i] == es[i] {
        if !IsSensitive(es[i].0) {
          CleanIsFixed(es[i].1);
        }
      }
      assert r.entries == es;
    case _ =>
  }

  /** Sanitising for logging twice is sanitising once. */
  lemma SanitizeForLoggingIdempotent(v: Json)
    ensures SanitizeForLogging(SanitizeForLogging(v)) == SanitizeForLogging(v)
  {
    SanitizedIsClean(v);
    CleanIsFixed(SanitizeForLogging(v));
  }
}
