/**
 * The parts of Python's `urllib.parse` (CPython 3.12) that `urljoin` uses
 * when the base is an https URL with an empty path: cleaning a reference,
 * splitting it into scheme, authority, path, parameters, query and
 * fragment, resolving a path against the root, and putting an https URL
 * back together.
 */
module Urls {
  import opened Wrappers
  import opened Text
  import opened Percent

  /** The characters `urlsplit` strips from the front of a reference: the C0 controls and the space. */
  predicate IsC0OrSpace(c: char)
  {
    c <= ' '
  }

  /** The characters `urlsplit` deletes wherever they occur: tab, carriage return and line feed. */
  predicate IsUnsafeUrlChar(c: char)
  {
    c == '\t' || c == '\r' || c == '\n'
  }

  /** `s.lstrip()` of the C0 controls and the space. */
  function LStripC0(s: string): (r: string)
    ensures |r| <= |s| && r == s[|s| - |r|..]
    ensures forall k | 0 <= k < |s| - |r| :: IsC0OrSpace(s[k])
    ensures r == [] || !IsC0OrSpace(r[0])
  {
    if s != [] && IsC0OrSpace(s[0]) then LStripC0(s[1..]) else s
  }

  /** `s` with every tab, carriage return and line feed deleted. */
  function RemoveUnsafe(s: string): (r: string)
    ensures forall c :: c in r <==> c in s && !IsUnsafeUrlChar(c)
    ensures (forall c | c in s :: !IsUnsafeUrlChar(c)) ==> r == s
  {
    if s == [] then []
    else
      assert s == [s[0]] + s[1..];
      (if IsUnsafeUrlChar(s[0]) then [] else [s[0]]) + RemoveUnsafe(s[1..])
  }

  lemma {:induction false} RemoveUnsafeAppend(a: string, b: string)
    ensures RemoveUnsafe(a + b) == RemoveUnsafe(a) + RemoveUnsafe(b)
  {
    if a == [] {
      assert a + b == b;
    } else {
      assert (a + b)[0] == a[0] && (a + b)[1..] == a[1..] + b;
      RemoveUnsafeAppend(a[1..], b);
    }
  }

  /** A reference `urlsplit` leaves as it is: no leading C0 control or space, no tab, carriage return or line feed. */
  predicate IsClean(s: string)
  {
    (s == [] || !IsC0OrSpace(s[0])) && forall c | c in s :: !IsUnsafeUrlChar(c)
  }

  /** What `urlsplit` parses in place of `url`. */
  function Clean(url: string): (r: string)
    ensures IsClean(r)
    ensures IsClean(url) ==> r == url
  {
    RemoveUnsafe(LStripC0(url))
  }

  lemma RemoveUnsafeDropsLast(a: string, unsafe: char)
    requires IsUnsafeUrlChar(unsafe)
    ensures RemoveUnsafe(a + [unsafe]) == RemoveUnsafe(a)
  {
    RemoveUnsafeAppend(a, [unsafe]);
    assert [unsafe][1..] == [];
  }

  lemma RemoveUnsafeDrops(a: string, unsafe: char, b: string)
    requires IsUnsafeUrlChar(unsafe)
    requires forall c | c in a :: !IsUnsafeUrlChar(c)
    requires forall c | c in b :: !IsUnsafeUrlChar(c)
    ensures RemoveUnsafe(a + [unsafe] + b) == a + b
  {
    RemoveUnsafeAppend(a + [unsafe], b);
    RemoveUnsafeDropsLast(a, unsafe);
  }

  /** A tab, carriage return or line feed inside a clean reference is deleted as if it were not there. */
  lemma CleanDropsUnsafe(a: string, unsafe: char, b: string)
    requires IsUnsafeUrlChar(unsafe) && IsClean(a) && a != [] && forall c | c in b :: !IsUnsafeUrlChar(c)
    ensures Clean(a + [unsafe] + b) == a + b
  {
    var s := a + [unsafe] + b;
    assert LStripC0(s) == s by {
      assert s[0] == a[0];
    }
    RemoveUnsafeDrops(a, unsafe, b);
  }

  /** A leading run of C0 controls and spaces is stripped, and what follows loses its tabs and line breaks. */
  lemma CleanStripsLeading(pre: string, s: string)
    requires forall k | 0 <= k < |pre| :: IsC0OrSpace(pre[k])
    requires s == [] || !IsC0OrSpace(s[0])
    ensures Clean(pre + s) == RemoveUnsafe(s)
  {
    assert s != [] ==> (pre + s)[|pre|] == s[0];
  }

  predicate IsSchemeChar(c: char)
  {
    IsAsciiLetter(c) || IsDigit(c) || c == '+' || c == '-' || c == '.'
  }

  /**
   * The position of the ":" that ends a scheme: the first ":", when it is
   * preceded by an ASCII letter and then scheme characters only.
   */
  function SchemeEnd(s: string): (r: Option<nat>)
    ensures r.Some? ==> 0 < r.value < |s| && s[r.value] == ':' && IsAsciiLetter(s[0])
    ensures r.Some? ==> forall k | 0 <= k < r.value :: IsSchemeChar(s[k])
    ensures s != [] && !IsAsciiLetter(s[0]) ==> r.None?
    ensures ':' !in s ==> r.None?
    ensures r.Some? ==> r == IndexOf(s, ':')
    ensures IndexOf(s, ':').Some? ==>
              (IndexOf(s, ':').value > 0 && IsAsciiLetter(s[0]) && forall k | 0 <= k < IndexOf(s, ':').value :: IsSchemeChar(s[k]))
              ==> r == IndexOf(s, ':')
  {
    match IndexOf(s, ':')
    case None => None
    case Some(i) =>
      if i > 0 && IsAsciiLetter(s[0]) && forall k | 0 <= k < i :: IsSchemeChar(s[k]) then Some(i) else None
  }

  function LowerChar(c: char): char
  {
    if 'A' <= c <= 'Z' then (c as int + 32) as char else c
  }

  /** `s.lower()` for a string of scheme characters. */
  function AsciiLower(s: string): (r: string)
    ensures |r| == |s| && forall k | 0 <= k < |s| :: r[k] == LowerChar(s[k])
    ensures (forall k | 0 <= k < |s| :: !('A' <= s[k] <= 'Z')) ==> r == s
  {
    seq(|s|, k requires 0 <= k < |s| => LowerChar(s[k]))
  }

  /** A separator followed by a part, when the part is present; nothing otherwise. */
  function Marked(sep: string, part: Option<string>): (r: string)
    ensures part.None? ==> r == ""
    ensures part.Some? ==> r == sep + part.value
  {
    match part
    case None => ""
    case Some(x) => sep + x
  }

  /** `s.split(c, 1)`: what precedes the first `c`, and what follows it when there is one. */
  function SplitOnce(s: string, c: char): (r: (string, Option<string>))
    ensures r.0 + Marked([c], r.1) == s && c !in r.0
    ensures r.1.None? <==> c !in s
  {
    match IndexOf(s, c)
    case None => (s, None)
    case Some(i) =>
      assert s == s[..i] + [c] + s[i + 1..];
      (s[..i], Some(s[i + 1..]))
  }

  predicate IsAuthorityEnd(c: char)
  {
    c == '/' || c == '?' || c == '#'
  }

  /** The length of the authority at the front of `s`: everything before the first "/", "?" or "#". */
  function AuthorityLength(s: string): (n: nat)
    ensures n <= |s| && forall k | 0 <= k < n :: !IsAuthorityEnd(s[k])
    ensures n < |s| ==> IsAuthorityEnd(s[n])
  {
    if s == [] || IsAuthorityEnd(s[0]) then 0 else 1 + AuthorityLength(s[1..])
  }

  lemma {:induction false} AuthorityLengthAt(s: string, n: nat)
    requires n <= |s| && (n == |s| || IsAuthorityEnd(s[n])) && forall k | 0 <= k < n :: !IsAuthorityEnd(s[k])
    ensures AuthorityLength(s) == n
  {
    if n > 0 {
      AuthorityLengthAt(s[1..], n - 1);
    }
  }

  /** `_splitnetloc(s, 2)` when `s` starts with "//"; no authority otherwise. */
  function SplitAuthority(s: string): (r: (string, string))
    ensures StartsWith(s, "//") ==> "//" + r.0 + r.1 == s && (r.1 == [] || IsAuthorityEnd(r.1[0]))
    ensures StartsWith(s, "//") ==> forall c | c in r.0 :: !IsAuthorityEnd(c)
    ensures !StartsWith(s, "//") ==> r == ("", s)
  {
    if StartsWith(s, "//") then
      var n := AuthorityLength(s[2..]);
      assert s == "//" + s[2..][..n] + s[2..][n..];
      (s[2..][..n], s[2..][n..])
    else ("", s)
  }

  /** The position of the last `c` in `s`, if any. */
  function LastIndexOf(s: string, c: char): (r: Option<nat>)
    ensures r.Some? ==> r.value < |s| && s[r.value] == c && c !in s[r.value + 1..]
    ensures r.None? ==> c !in s
  {
    if s == [] then None
    else if s[|s| - 1] == c then Some(|s| - 1)
    else
      var init := s[..|s| - 1];
      assert s == init + [s[|s| - 1]];
      match LastIndexOf(init, c)
      case None => None
      case Some(j) =>
        assert s[j + 1..] == init[j + 1..] + [s[|s| - 1]];
        Some(j)
  }

  /** The last `c` of `s` is the one at `j` when none follows it. */
  lemma LastIndexOfAt(s: string, c: char, j: nat)
    requires j < |s| && s[j] == c && c !in s[j + 1..]
    ensures LastIndexOf(s, c) == Some(j)
  {
    assert s[j] in s;
  }

  /**
   * `r` splits `path` as `_splitparams` does: the parameters are what follows
   * the first ";" of the last path segment (of the whole path when it has no
   * "/"), so they hold no "/" and the path's own last segment no ";".
   */
  predicate IsParamsSplit(path: string, r: (string, Option<string>))
  {
    && r.0 + Marked(";", r.1) == path
    && ';' !in r.0[LastIndexOf(r.0, '/').GetOr(0)..]
    && (r.1.Some? ==> '/' !in r.1.value)
  }

  /** `_splitparams`, applied to every path with a ";". */
  function SplitParams(path: string): (r: (string, Option<string>))
    ensures IsParamsSplit(path, r)
    ensures ';' !in path ==> r == (path, None)
  {
    match LastIndexOf(path, '/')
    case Some(j) =>
      (match IndexOf(path[j..], ';')
       case None =>
         NoParamsInLastSegment(path, j);
         (path, None)
       case Some(k) =>
         ParamsInLastSegment(path, j, k);
         (path[..j + k], Some(path[j + k + 1..])))
    case None =>
      ParamsWithoutSlash(path);
      SplitOnce(path, ';')
  }

  lemma NoParamsInLastSegment(path: string, j: nat)
    requires LastIndexOf(path, '/') == Some(j) && IndexOf(path[j..], ';').None?
    ensures IsParamsSplit(path, (path, None))
  {
  }

  lemma SplitAround(s: string, i: nat)
    requires i < |s|
    ensures s == s[..i] + [s[i]] + s[i + 1..]
  {
  }

  lemma ParamsInLastSegment(path: string, j: nat, k: nat)
    requires j < |path| && path[j] == '/' && '/' !in path[j + 1..] && IndexOf(path[j..], ';') == Some(k)
    ensures j + k < |path| && IsParamsSplit(path, (path[..j + k], Some(path[j + k + 1..])))
  {
    SemicolonInSegment(path, j, k);
    SplitAround(path, j + k);
    LastSlashBefore(path, j, j + k);
  }

  lemma SemicolonInSegment(path: string, j: nat, k: nat)
    requires j < |path| && path[j] == '/' && IndexOf(path[j..], ';') == Some(k)
    ensures 0 < k && j + k < |path| && path[j + k] == ';' && ';' !in path[..j + k][j..]
  {
    var seg := path[j..];
    assert seg[0] == '/' && seg[k] == path[j + k];
    assert path[..j + k][j..] == seg[..k];
  }

  lemma LastSlashBefore(path: string, j: nat, i: nat)
    requires j < i < |path| && path[j] == '/' && '/' !in path[j + 1..]
    ensures LastIndexOf(path[..i], '/') == Some(j) && '/' !in path[i + 1..]
  {
    SlashFreeAround(path[j + 1..], i - j - 1);
    assert path[..i][j + 1..] == path[j + 1..][..i - j - 1];
    assert path[i + 1..] == path[j + 1..][i - j..];
    LastIndexOfAt(path[..i], '/', j);
  }

  /** Both sides of a position in a text without "/" are without "/". */
  lemma SlashFreeAround(s: string, i: nat)
    requires i < |s| && '/' !in s
    ensures '/' !in s[..i] && '/' !in s[i + 1..]
  {
    assert forall k | 0 <= k < i :: s[..i][k] == s[k];
    assert forall k | i + 1 <= k < |s| :: s[i + 1..][k - i - 1] == s[k];
  }

  lemma ParamsWithoutSlash(path: string)
    requires '/' !in path
    ensures IsParamsSplit(path, SplitOnce(path, ';'))
  {
    var r := SplitOnce(path, ';');
    NotInEither('/', r.0, Marked(";", r.1));
    if r.1.Some? {
      NotInEither('/', ";", r.1.value);
    }
  }

  /** The six components `urlparse` returns. */
  datatype UrlParts = UrlParts(scheme: string, netloc: string, path: string, params: string, query: string, fragment: string)

  /** The scheme, lower-cased, and what follows its ":"; without a scheme, the default scheme and the whole reference. */
  function SplitScheme(s: string, defaultScheme: string): (r: (string, string))
    ensures SchemeEnd(s).None? ==> r == (defaultScheme, s)
    ensures SchemeEnd(s).Some? ==> s == s[..SchemeEnd(s).value] + ":" + r.1 && r.0 == AsciiLower(s[..SchemeEnd(s).value])
  {
    match SchemeEnd(s)
    case Some(i) =>
      assert s == s[..i] + ":" + s[i + 1..];
      (AsciiLower(s[..i]), s[i + 1..])
    case None => (defaultScheme, s)
  }

  /** The parameters, query and fragment that are present, each after its separator. */
  function TailMarks(params: Option<string>, query: Option<string>, fragment: Option<string>): string
  {
    Marked(";", params) + Marked("?", query) + Marked("#", fragment)
  }

  lemma MarksConcat(a: string, b: string, c: string, d: string)
    ensures a + b + c + d == a + (b + c + d)
  {
  }

  lemma NotInEither(c: char, a: string, b: string)
    requires c !in a + b
    ensures c !in a && c !in b
  {
    assert forall k | 0 <= k < |a| :: a[k] == (a + b)[k];
    assert forall k | 0 <= k < |b| :: b[k] == (a + b)[|a| + k];
  }

  /**
   * Path, parameters, query and fragment: the fragment follows the first "#",
   * the query the first "?" before it, and the parameters the first ";" of
   * the last segment before that. Each part is present exactly when its
   * separator occurs there, and the parts with their separators make up the input.
   */
  function SplitTail(tail: string): (r: (string, Option<string>, Option<string>, Option<string>))
    ensures tail == r.0 + TailMarks(r.1, r.2, r.3)
    ensures '?' !in r.0 && '#' !in r.0
    ensures r.1.Some? ==> '?' !in r.1.value && '#' !in r.1.value && '/' !in r.1.value
    ensures r.2.Some? ==> '#' !in r.2.value
    ensures ';' !in r.0[LastIndexOf(r.0, '/').GetOr(0)..]
    ensures '#' !in tail && '?' !in tail && ';' !in tail ==> r == (tail, None, None, None)
  {
    var (beforeFragment, fragment) := SplitOnce(tail, '#');
    var (beforeQuery, query) := SplitOnce(beforeFragment, '?');
    var (path, params) := SplitParams(beforeQuery);
    assert tail == path + TailMarks(params, query, fragment) by {
      MarksConcat(path, Marked(";", params), Marked("?", query), Marked("#", fragment));
    }
    assert '#' !in beforeQuery && (query.Some? ==> '#' !in query.value) by {
      NotInEither('#', beforeQuery, Marked("?", query));
    }
    assert '?' !in path && '#' !in path && (params.Some? ==> '?' !in params.value && '#' !in params.value) by {
      NotInEither('?', path, Marked(";", params));
      NotInEither('#', path, Marked(";", params));
    }
    (path, params, query, fragment)
  }

  /**
   * `urlparse(url, defaultScheme)` of a reference whose scheme, when it has
   * one, splits off parameters: None where `urlsplit` raises `ValueError`
   * because the authority holds a "[" without a "]" or the reverse.
   */
  function Parse(url: string, defaultScheme: string): (r: Option<UrlParts>)
    ensures r.None? <==> var n := SplitAuthority(SplitScheme(Clean(url), defaultScheme).1).0; ('[' in n) != (']' in n)
    ensures r.Some? ==> forall c | c in r.value.netloc :: !IsAuthorityEnd(c)
    ensures r.Some? ==> '?' !in r.value.path && '#' !in r.value.path && '#' !in r.value.query
    ensures r.Some? ==> r.value.scheme == match SchemeEnd(Clean(url)) case Some(i) => AsciiLower(Clean(url)[..i]) case None => defaultScheme
    ensures SchemeEnd(Clean(url)).None? && !StartsWith(Clean(url), "//") ==> r.Some? && r.value.scheme == defaultScheme && r.value.netloc == ""
  {
    var (scheme, rest) := SplitScheme(Clean(url), defaultScheme);
    var (netloc, tail) := SplitAuthority(rest);
    if ('[' in netloc) != (']' in netloc) then None
    else
      var (path, params, query, fragment) := SplitTail(tail);
      Some(UrlParts(scheme, netloc, path, params.GetOr(""), query.GetOr(""), fragment.GetOr("")))
  }

  /** The scheme as written and its ":", when there is one. */
  function SchemePrefix(schemeText: Option<string>): (r: string)
    ensures schemeText.None? ==> r == ""
    ensures schemeText.Some? ==> r == schemeText.value + ":"
  {
    match schemeText
    case None => ""
    case Some(x) => x + ":"
  }

  /** The scheme as written, when `s` has one. */
  function SchemeText(s: string): (r: Option<string>)
    ensures SchemeEnd(s).None? ==> r.None?
    ensures SchemeEnd(s).Some? ==> r == Some(s[..SchemeEnd(s).value])
  {
    if SchemeEnd(s).Some? then Some(s[..SchemeEnd(s).value]) else None
  }

  lemma SplitSchemeReassembles(s: string, defaultScheme: string)
    ensures s == SchemePrefix(SchemeText(s)) + SplitScheme(s, defaultScheme).1
  {
  }

  /** The authority after its "//", when the text starts with "//". */
  function AuthorityText(s: string): (r: Option<string>)
    ensures StartsWith(s, "//") ==> r == Some(SplitAuthority(s).0)
    ensures !StartsWith(s, "//") ==> r.None?
  {
    if StartsWith(s, "//") then Some(SplitAuthority(s).0) else None
  }

  lemma SplitAuthorityReassembles(s: string)
    ensures s == Marked("//", AuthorityText(s)) + SplitAuthority(s).1
  {
  }

  /**
   * The parts of a parsed reference put back in order, each after its
   * separator where the reference had that separator, spell out the cleaned
   * reference; the scheme as written precedes the first ":".
   */
  lemma ParseReassembles(url: string, defaultScheme: string)
    returns (schemeText: Option<string>, authority: Option<string>, params: Option<string>, query: Option<string>, fragment: Option<string>)
    requires Parse(url, defaultScheme).Some?
    ensures var u := Parse(url, defaultScheme).value;
      && Clean(url) == SchemePrefix(schemeText) + (Marked("//", authority) + (u.path + TailMarks(params, query, fragment)))
      && (schemeText.Some? ==> u.scheme == AsciiLower(schemeText.value))
      && (schemeText.None? ==> u.scheme == defaultScheme)
      && authority.GetOr("") == u.netloc && params.GetOr("") == u.params
      && query.GetOr("") == u.query && fragment.GetOr("") == u.fragment
    ensures var rest := SplitScheme(Clean(url), defaultScheme).1;
      && schemeText == SchemeText(Clean(url))
      && authority == AuthorityText(rest)
      && (params, query, fragment) == var t := SplitTail(SplitAuthority(rest).1); (t.1, t.2, t.3)
  {
    var c := Clean(url);
    var rest := SplitScheme(c, defaultScheme).1;
    var tail := SplitAuthority(rest).1;
    var t := SplitTail(tail);
    schemeText, authority := SchemeText(c), AuthorityText(rest);
    params, query, fragment := t.1, t.2, t.3;
    SplitSchemeReassembles(c, defaultScheme);
    SplitAuthorityReassembles(rest);
  }

  /**
   * A clean absolute path followed by "?", a query, "#" and a fragment parses
   * into exactly that path, query and fragment.
   */
  lemma ParsePathQueryFragment(path: string, query: string, fragment: string, defaultScheme: string)
    requires IsClean(path + TailMarks(None, Some(query), Some(fragment)))
    requires StartsWith(path, "/") && !StartsWith(path, "//")
    requires '?' !in path && '#' !in path && ';' !in path && '#' !in query
    ensures Parse(path + TailMarks(None, Some(query), Some(fragment)), defaultScheme)
              == Some(UrlParts(defaultScheme, "", path, "", query, fragment))
  {
    var marks := TailMarks(None, Some(query), Some(fragment));
    QueryMarkFirst(query, Some(fragment));
    SingleSlashStart(path, marks);
    assert SplitTail(path + marks) == (path, None, Some(query), Some(fragment)) by {
      SplitTailOf(path, Some(query), Some(fragment));
    }
    ParseRootedPath(path + marks, defaultScheme);
  }

  lemma QueryMarkFirst(query: string, fragment: Option<string>)
    ensures var marks := TailMarks(None, Some(query), fragment); marks != [] && marks[0] == '?'
  {
    assert TailMarks(None, Some(query), fragment) == "?" + query + Marked("#", fragment);
  }

  lemma SingleSlashStart(path: string, rest: string)
    requires StartsWith(path, "/") && !StartsWith(path, "//")
    requires rest != [] && rest[0] != '/'
    ensures (path + rest)[0] == '/' && !StartsWith(path + rest, "//")
  {
    if |path| == 1 {
      assert (path + rest)[1] == rest[0];
    } else {
      assert (path + rest)[1] == path[1];
      assert path[..2] != "//";
    }
  }

  /** A clean reference starting with a single "/" has no scheme and no authority: all of it is split as the tail. */
  lemma ParseRootedPath(url: string, defaultScheme: string)
    requires IsClean(url) && url != [] && url[0] == '/' && !StartsWith(url, "//")
    ensures var t := SplitTail(url);
      Parse(url, defaultScheme) == Some(UrlParts(defaultScheme, "", t.0, t.1.GetOr(""), t.2.GetOr(""), t.3.GetOr("")))
  {
    assert SplitScheme(url, defaultScheme) == (defaultScheme, url);
    assert SplitAuthority(url) == ("", url);
  }

  /** A clean absolute path without query, fragment or parameters parses as a path alone. */
  lemma ParsePlainPath(path: string, defaultScheme: string)
    requires IsClean(path) && StartsWith(path, "/") && !StartsWith(path, "//")
    requires '?' !in path && '#' !in path && ';' !in path
    ensures Parse(path, defaultScheme) == Some(UrlParts(defaultScheme, "", path, "", "", ""))
  {
    assert Clean(path) == path;
    assert SplitScheme(path, defaultScheme) == (defaultScheme, path);
    assert SplitAuthority(path) == ("", path);
  }

  lemma IsCleanAppend(a: string, b: string)
    requires a != [] && IsClean(a) && forall c | c in b :: !IsUnsafeUrlChar(c)
    ensures IsClean(a + b)
  {
    assert (a + b)[0] == a[0];
    assert forall c | c in a + b :: c in a || c in b;
  }

  /** "https:" is split off as the scheme. */
  lemma SplitHttpsScheme(rest: string, defaultScheme: string)
    ensures SplitScheme("https:" + rest, defaultScheme) == ("https", rest)
  {
    var url := "https:" + rest;
    assert url[..5] == "https" && url[6..] == rest && url[5] == ':';
    IndexOfAt(url, ':', 5);
    assert AsciiLower("https") == "https";
  }

  /** "https:" before a clean absolute path without query, fragment or parameters: the scheme is split off and no authority is found. */
  lemma ParseSchemePlainPath(path: string, defaultScheme: string)
    requires IsClean(path) && StartsWith(path, "/") && !StartsWith(path, "//")
    requires '?' !in path && '#' !in path && ';' !in path
    ensures Parse("https:" + path, defaultScheme) == Some(UrlParts("https", "", path, "", "", ""))
  {
    IsCleanAppend("https:", path);
    SplitHttpsScheme(path, defaultScheme);
    assert SplitAuthority(path) == ("", path);
    assert SplitTail(path) == (path, None, None, None);
  }

  /** "//", an authority, then nothing or a "/", "?" or "#": the authority is split off. */
  lemma SplitAuthorityOf(host: string, tail: string)
    requires forall k | 0 <= k < |host| :: !IsAuthorityEnd(host[k])
    requires tail == [] || IsAuthorityEnd(tail[0])
    ensures SplitAuthority("//" + host + tail) == (host, tail)
  {
    var s := "//" + host + tail;
    assert s[2..] == host + tail;
    AuthorityLengthAt(host + tail, |host|);
    assert (host + tail)[..|host|] == host && (host + tail)[|host|..] == tail;
  }

  /** A clean "//" followed by an authority and a plain absolute path parses as that authority and path. */
  lemma ParseAuthorityPath(host: string, path: string, defaultScheme: string)
    requires IsClean("//" + host + path) && StartsWith(path, "/")
    requires forall k | 0 <= k < |host| :: !IsAuthorityEnd(host[k]) && host[k] != '[' && host[k] != ']'
    requires '?' !in path && '#' !in path && ';' !in path
    ensures Parse("//" + host + path, defaultScheme) == Some(UrlParts(defaultScheme, host, path, "", "", ""))
  {
    var url := "//" + host + path;
    assert Clean(url) == url;
    assert SplitScheme(url, defaultScheme) == (defaultScheme, url);
    SplitAuthorityOf(host, path);
    assert '[' !in host && ']' !in host;
  }

  /** `urlunparse`'s first step: the path with its parameters after a ";", when there are any. */
  function WithParams(path: string, params: string): (r: string)
    ensures params == "" ==> r == path
    ensures params != "" ==> r == path + [';'] + params
  {
    if params != "" then path + ";" + params else path
  }

  /** A component `urlunsplit` writes only when it is non-empty. */
  function Present(part: string): (r: Option<string>)
    ensures part == "" ==> r.None?
    ensures part != "" ==> r == Some(part)
  {
    if part == "" then None else Some(part)
  }

  /** The path after an authority: `urlunsplit` puts a "/" before a non-empty path that lacks one. */
  function RootedPath(netloc: string, path: string): (p: string)
    ensures netloc == "" || path == "" || path[0] == '/' ==> p == path
    ensures netloc != "" && path != "" && path[0] != '/' ==> p == "/" + path
  {
    if netloc != "" && path != "" && path[0] != '/' then "/" + path else path
  }

  /** Rooting a path adds no character but "/". */
  lemma RootedPathAdds(netloc: string, path: string)
    ensures forall c | c in RootedPath(netloc, path) && c != '/' :: c in path
  {
  }

  /**
   * `urlunsplit(("https", netloc, path, query, fragment))` as CPython 3.12.13
   * writes it: "//" and the authority before the (rooted) path when there is
   * an authority, and also, with an empty authority, before a path that is
   * empty or starts with "/", since https is a scheme with an authority; the
   * path alone otherwise; then the query and the fragment, each only when
   * non-empty.
   */
  function UnsplitHttps(netloc: string, path: string, query: string, fragment: string): (u: string)
    ensures netloc != "" ==> StartsWith(u, "https://" + netloc)
    ensures netloc != "" ==> |u| == |"https://" + netloc| || IsAuthorityEnd(u[|"https://" + netloc|])
  {
    var p := RootedPath(netloc, path);
    var tail := p + TailMarks(None, Present(query), Present(fragment));
    var u := "https:" + (Marked("//", WrittenAuthority(netloc, p)) + tail);
    if netloc == "" then u
    else
      TailStart(p, Present(query), Present(fragment));
      AuthorityPrefix(netloc, tail);
      u
  }

  /** After "https:", "//" and a non-empty authority, what follows is empty or starts with "/", "?" or "#". */
  lemma AuthorityPrefix(netloc: string, tail: string)
    requires netloc != "" && (tail == [] || IsAuthorityEnd(tail[0]))
    ensures var u := "https:" + (Marked("//", Some(netloc)) + tail);
      StartsWith(u, "https://" + netloc) && (|u| == |"https://" + netloc| || IsAuthorityEnd(u[|"https://" + netloc|]))
  {
    var h := "https://" + netloc;
    assert "https:" + (Marked("//", Some(netloc)) + tail) == h + tail;
  }

  /** A path that is empty or starts with "/", then the optional query and fragment, starts where an authority ends. */
  lemma TailStart(p: string, query: Option<string>, fragment: Option<string>)
    requires p == [] || p[0] == '/'
    ensures var t := p + TailMarks(None, query, fragment); t == [] || IsAuthorityEnd(t[0])
  {
    if p != [] {
      assert (p + TailMarks(None, query, fragment))[0] == p[0];
    }
  }

  /** Whether `urlunsplit` writes "//" and the authority before the path `p`. */
  function WrittenAuthority(netloc: string, p: string): (r: Option<string>)
    ensures netloc != "" ==> r == Some(netloc)
    ensures netloc == "" && p != "" && p[0] != '/' ==> r.None?
  {
    if netloc != "" || p == "" || p[0] == '/' then Some(netloc) else None
  }

  /** With an authority, a path starting with "/" and no query or fragment, the parts are simply concatenated. */
  lemma UnsplitPlainPath(netloc: string, path: string)
    requires netloc != "" && (path == "" || path[0] == '/')
    ensures UnsplitHttps(netloc, path, "", "") == "https://" + netloc + path
  {
    assert TailMarks(None, None, None) == "";
  }

  /**
   * Without an authority, "//" is still written before an empty path or one
   * starting with "/", but not before a relative path.
   */
  lemma UnsplitWithoutAuthority()
    ensures UnsplitHttps("", "", "", "") == "https://"
    ensures UnsplitHttps("", "/x", "", "") == "https:///x"
    ensures UnsplitHttps("", "//x", "", "") == "https:////x"
    ensures UnsplitHttps("", "x", "q", "") == "https:x?q"
  {
    assert TailMarks(None, None, None) == "";
    assert TailMarks(None, Some("q"), None) == "?q";
  }

  /** `s.split(c, 1)` of a text whose first `c` is the one after `a`. */
  lemma SplitOnceOf(a: string, c: char, b: Option<string>)
    requires c !in a
    ensures SplitOnce(a + Marked([c], b), c) == (a, b)
  {
    var s := a + Marked([c], b);
    if b.Some? {
      assert s[..|a|] == a && s[|a|] == c && s[|a| + 1..] == b.value;
      IndexOfAt(s, c, |a|);
    } else {
      assert s == a;
    }
  }

  /** A path without "?", "#" or ";" followed by an optional query and fragment splits back into them. */
  lemma SplitTailOf(path: string, query: Option<string>, fragment: Option<string>)
    requires '?' !in path && '#' !in path && ';' !in path
    requires query.Some? ==> '#' !in query.value
    ensures SplitTail(path + TailMarks(None, query, fragment)) == (path, None, query, fragment)
  {
    var beforeFragment := path + Marked("?", query);
    assert path + TailMarks(None, query, fragment) == beforeFragment + Marked("#", fragment);
    assert '#' !in beforeFragment by {
      if query.Some? {
        assert beforeFragment == path + ("?" + query.value);
      }
    }
    SplitOnceOf(beforeFragment, '#', fragment);
    SplitOnceOf(path, '?', query);
  }

  /**
   * Parsing what `UnsplitHttps` writes gives back its parts (the path
   * rooted after an authority), when they are parts `urlsplit` can produce:
   * an authority without "/", "?", "#" and with balanced brackets, a path
   * without "?", "#" or ";", a query without "#", and no tab or line break
   * anywhere.
   */
  lemma ParseUnsplitHttps(netloc: string, path: string, query: string, fragment: string, defaultScheme: string)
    requires forall c | c in netloc :: !IsAuthorityEnd(c)
    requires ('[' in netloc) == (']' in netloc)
    requires '?' !in path && '#' !in path && ';' !in path && '#' !in query
    requires NoUnsafe(netloc) && NoUnsafe(path) && NoUnsafe(query) && NoUnsafe(fragment)
    ensures Parse(UnsplitHttps(netloc, path, query, fragment), defaultScheme)
              == Some(UrlParts("https", netloc, RootedPath(netloc, path), "", query, fragment))
  {
    var p := RootedPath(netloc, path);
    var tail := p + TailMarks(None, Present(query), Present(fragment));
    var rest := Marked("//", WrittenAuthority(netloc, p)) + tail;
    assert UnsplitHttps(netloc, path, query, fragment) == "https:" + rest;
    UnsplitIsClean(netloc, path, query, fragment);
    SplitWrittenAuthority(netloc, path, Present(query), Present(fragment));
    RootedPathAdds(netloc, path);
    SplitTailOf(p, Present(query), Present(fragment));
    ParseHttps(rest, defaultScheme, netloc, tail);
  }

  /** A clean "https:" reference parses into the authority and the parts of the tail that follow "https:". */
  lemma ParseHttps(rest: string, defaultScheme: string, netloc: string, tail: string)
    requires IsClean("https:" + rest) && SplitAuthority(rest) == (netloc, tail)
    requires ('[' in netloc) == (']' in netloc)
    ensures var t := SplitTail(tail);
      Parse("https:" + rest, defaultScheme) == Some(UrlParts("https", netloc, t.0, t.1.GetOr(""), t.2.GetOr(""), t.3.GetOr("")))
  {
    SplitHttpsScheme(rest, defaultScheme);
  }

  lemma SplitWrittenAuthority(netloc: string, path: string, query: Option<string>, fragment: Option<string>)
    requires forall c | c in netloc :: !IsAuthorityEnd(c)
    ensures var p := RootedPath(netloc, path); var tail := p + TailMarks(None, query, fragment);
      SplitAuthority(Marked("//", WrittenAuthority(netloc, p)) + tail) == (netloc, tail)
  {
    var p := RootedPath(netloc, path);
    var tail := p + TailMarks(None, query, fragment);
    if WrittenAuthority(netloc, p).Some? {
      TailStart(p, query, fragment);
      assert forall k | 0 <= k < |netloc| :: !IsAuthorityEnd(netloc[k]) by {
        assert forall k | 0 <= k < |netloc| :: netloc[k] in netloc;
      }
      SplitAuthorityOf(netloc, tail);
    } else {
      assert Marked("//", WrittenAuthority(netloc, p)) + tail == tail;
      assert tail[0] == p[0] && !StartsWith(tail, "//");
    }
  }

  /** What `UnsplitHttps` writes from parts without tab or line break is left as it is by `urlsplit`. */
  lemma UnsplitIsClean(netloc: string, path: string, query: string, fragment: string)
    requires NoUnsafe(netloc) && NoUnsafe(path) && NoUnsafe(query) && NoUnsafe(fragment)
    ensures IsClean(UnsplitHttps(netloc, path, query, fragment))
  {
    var p := RootedPath(netloc, path);
    var rest := Marked("//", WrittenAuthority(netloc, p)) + (p + TailMarks(None, Present(query), Present(fragment)));
    WrittenIsSafe(netloc, path, query, fragment);
    assert UnsplitHttps(netloc, path, query, fragment) == "https:" + rest;
    IsCleanAppend("https:", rest);
  }

  lemma MarksAreSafe(query: string, fragment: string)
    requires NoUnsafe(query) && NoUnsafe(fragment)
    ensures NoUnsafe(TailMarks(None, Present(query), Present(fragment)))
  {
    var q, f := Marked("?", Present(query)), Marked("#", Present(fragment));
    assert NoUnsafe(q) by {
      NoUnsafeAppend("?", query);
    }
    assert NoUnsafe(f) by {
      NoUnsafeAppend("#", fragment);
    }
    NoUnsafeAppend(q, f);
    assert TailMarks(None, Present(query), Present(fragment)) == q + f by {
      assert Marked(";", None) == "";
    }
  }

  lemma WrittenIsSafe(netloc: string, path: string, query: string, fragment: string)
    requires NoUnsafe(netloc) && NoUnsafe(path) && NoUnsafe(query) && NoUnsafe(fragment)
    ensures var p := RootedPath(netloc, path);
      NoUnsafe(Marked("//", WrittenAuthority(netloc, p)) + (p + TailMarks(None, Present(query), Present(fragment))))
  {
    var p := RootedPath(netloc, path);
    var marks := TailMarks(None, Present(query), Present(fragment));
    NoUnsafeAppend("/", path);
    MarksAreSafe(query, fragment);
    NoUnsafeAppend(p, marks);
    NoUnsafeAppend("//", netloc);
    NoUnsafeAppend(Marked("//", WrittenAuthority(netloc, p)), p + marks);
  }

  predicate NoUnsafe(s: string)
  {
    forall c | c in s :: !IsUnsafeUrlChar(c)
  }

  lemma NoUnsafeAppend(a: string, b: string)
    requires NoUnsafe(a) && NoUnsafe(b)
    ensures NoUnsafe(a + b)
  {
  }

  /** `s.split(c)`. */
  function Split(s: string, c: char): (parts: seq<string>)
    ensures |parts| >= 1 && forall k | 0 <= k < |parts| :: c !in parts[k]
    decreases |s|
  {
    match IndexOf(s, c)
    case None => [s]
    case Some(i) => [s[..i]] + Split(s[i + 1..], c)
  }

  /** `c.join(parts)`. */
  function Join(parts: seq<string>, c: char): string
  {
    if parts == [] then ""
    else if |parts| == 1 then parts[0]
    else parts[0] + [c] + Join(parts[1..], c)
  }

  /** Joining the pieces of a split puts the string back together. */
  lemma {:induction false} JoinSplit(s: string, c: char)
    ensures Join(Split(s, c), c) == s
    decreases |s|
  {
    match IndexOf(s, c)
    case None =>
    case Some(i) =>
      var rest := Split(s[i + 1..], c);
      assert Split(s, c) == [s[..i]] + rest;
      assert ([s[..i]] + rest)[1..] == rest;
      JoinSplit(s[i + 1..], c);
      assert s == s[..i] + [c] + s[i + 1..];
  }

  /** `filter(None, parts)`: the non-empty pieces, in order. */
  function NonEmpty(parts: seq<string>): (r: seq<string>)
    ensures |r| <= |parts| && forall k | 0 <= k < |r| :: r[k] != "" && r[k] in parts
  {
    if parts == [] then []
    else (if parts[0] == "" then [] else [parts[0]]) + NonEmpty(parts[1..])
  }

  predicate IsDotSegment(seg: string)
  {
    seg == "." || seg == ".."
  }

  /**
   * The segment loop of `urljoin`: ".." drops the segment kept last (if
   * any), "." is skipped, and every other segment is kept.
   */
  function RemoveDotSegments(segments: seq<string>): (r: seq<string>)
    ensures |r| <= |segments|
    ensures forall k | 0 <= k < |r| :: !IsDotSegment(r[k]) && r[k] in segments
  {
    if segments == [] then []
    else
      var kept := RemoveDotSegments(segments[..|segments| - 1]);
      var seg := segments[|segments| - 1];
      if seg == ".." then (if kept == [] then [] else kept[..|kept| - 1])
      else if seg == "." then kept
      else kept + [seg]
  }

  lemma {:induction false} RemoveDotSegmentsKeepsPlain(segments: seq<string>)
    requires forall k | 0 <= k < |segments| :: !IsDotSegment(segments[k])
    ensures RemoveDotSegments(segments) == segments
    decreases |segments|
  {
    if segments != [] {
      RemoveDotSegmentsKeepsPlain(segments[..|segments| - 1]);
      assert segments == segments[..|segments| - 1] + [segments[|segments| - 1]];
    }
  }

  /** A path none of whose "/"-separated segments is "." or "..". */
  predicate HasNoDotSegments(path: string)
  {
    forall k | 0 <= k < |Split(path, '/')| :: !IsDotSegment(Split(path, '/')[k])
  }

  /**
   * The segments `urljoin` resolves for a non-empty path against a base
   * whose path is empty: those of an absolute path as they are, those of a
   * relative path put under the root with its empty inner segments dropped.
   */
  function RootSegments(path: string): (segments: seq<string>)
    ensures |segments| >= 1
  {
    var parts := Split(path, '/');
    if StartsWith(path, "/") then parts
    else [""] + NonEmpty(parts[..|parts| - 1]) + [parts[|parts| - 1]]
  }

  /** The segments left after the dot segments are removed; a path ending in a dot segment keeps its final "/". */
  function ResolveSegments(segments: seq<string>): (r: seq<string>)
    requires |segments| >= 1
  {
    RemoveDotSegments(segments) + (if IsDotSegment(segments[|segments| - 1]) then [""] else [])
  }

  /** The resolved path: the remaining segments joined by "/", or "/" when that is empty. */
  function ResolveFromRoot(path: string): (r: string)
    ensures r != ""
  {
    var joined := Join(ResolveSegments(RootSegments(path)), '/');
    if joined == "" then "/" else joined
  }

  /** An absolute path without dot segments resolves to itself. */
  lemma ResolveAbsolutePath(path: string)
    requires StartsWith(path, "/") && HasNoDotSegments(path)
    ensures ResolveFromRoot(path) == path
  {
    var parts := Split(path, '/');
    assert RootSegments(path) == parts;
    assert ResolveSegments(parts) == parts by {
      RemoveDotSegmentsKeepsPlain(parts);
    }
    assert Join(parts, '/') == path by {
      JoinSplit(path, '/');
    }
  }
}
