/** The part of urllib.parse that `redact_url_parameters` uses to take a URL apart and put it back:
    `urlparse` (`urlsplit` followed by splitting off `;params`) and `urlunparse`
    (re-attaching `;params`, then `urlunsplit`). The slots are the generic-syntax components
    of section 3 of RFC 3986 plus the legacy `;params` slot. */
module UrllibParse {
  import opened Strings

  /** The six slots of a ParseResult. */
  datatype UrlParts = UrlParts(
    scheme: string, netloc: string, path: string, params: string, query: string, fragment: string)

  /** The five slots of a SplitResult. */
  datatype SplitResult = SplitResult(
    scheme: string, netloc: string, path: string, query: string, fragment: string)

  /** `scheme_chars`: ASCII letters, digits and `+-.`. */
  predicate IsSchemeChar(c: char) { IsAsciiAlnum(c) || c == '+' || c == '-' || c == '.' }

  /** The C0 controls and space, stripped from the front of every URL. */
  predicate IsC0OrSpace(c: char) { c as int <= 0x20 }

  /** Tab, carriage return and line feed, removed from anywhere in a URL. */
  predicate IsUnsafe(c: char) { c == '\t' || c == '\r' || c == '\n' }

  /** The characters that end the network location. */
  predicate IsNetlocDelimiter(c: char) { c == '/' || c == '?' || c == '#' }

  /** `uses_netloc`: schemes for which `urlunsplit` writes `//` even when the netloc is empty. */
  const UsesNetloc: seq<string> := [
    "", "ftp", "http", "gopher", "nntp", "telnet", "imap", "wais", "file", "mms", "https", "shttp",
    "snews", "prospero", "rtsp", "rtsps", "rtspu", "rsync", "svn", "svn+ssh", "sftp", "nfs", "git",
    "git+ssh", "ws", "wss", "itms-services"]

  /** `uses_params`: schemes whose last path segment may carry `;params`. */
  const UsesParams: seq<string> := [
    "", "ftp", "hdl", "prospero", "http", "imap", "https", "shttp", "rtsp", "rtsps", "rtspu", "sip",
    "sips", "mms", "sftp", "tel"]

  /** The first position at or after `from` holding `/`, `?` or `#`, or |s| (the `min` over the
      three `find` calls of `_splitnetloc`). */
  function NetlocEnd(s: string, from: nat): (d: nat)
    requires from <= |s|
    ensures from <= d <= |s|
    ensures d < |s| ==> IsNetlocDelimiter(s[d])
    ensures forall k :: from <= k < d ==> !IsNetlocDelimiter(s[k])
    decreases |s| - from
  {
    if from == |s| || IsNetlocDelimiter(s[from]) then from else NetlocEnd(s, from + 1)
  }

  /** Takes `scheme:` off the front when everything before the first colon is a scheme
      beginning with an ASCII letter; the scheme is lower-cased. */
  function SplitScheme(url: string): (string, string)
  {
    var i := Find(url, ':');
    if 0 < i < |url| && IsAsciiLetter(url[0]) && forall k :: 0 <= k < i ==> IsSchemeChar(url[k])
    then (Lower(url[..i]), url[i + 1..])
    else ("", url)
  }

  /** `_splitnetloc(url, 2)` when the remainder starts with `//`. */
  function SplitNetloc(rest: string): (string, string)
  {
    if |rest| >= 2 && rest[..2] == "//" then
      var d := NetlocEnd(rest, 2); (rest[2..d], rest[d..])
    else ("", rest)
  }

  /** Splits off `#fragment` at the first `#`. */
  function SplitFragment(rest: string): (string, string)
  {
    var f := Find(rest, '#');
    if f < |rest| then (rest[..f], rest[f + 1..]) else (rest, "")
  }

  /** Splits off `?query` at the first `?`. */
  function SplitQuery(rest: string): (string, string)
  {
    var q := Find(rest, '?');
    if q < |rest| then (rest[..q], rest[q + 1..]) else (rest, "")
  }

  /** Leading C0 controls and spaces stripped, then every tab, CR and LF removed. */
  function Clean(raw: string): string
  {
    Remove(LStrip(raw, IsC0OrSpace), IsUnsafe)
  }

  /** `urlsplit(url)`, or None where it raises ValueError (a netloc holding only one of `[`, `]`). */
  function UrlSplit(raw: string): Option<SplitResult>
  {
    var (scheme, rest) := SplitScheme(Clean(raw));
    var (netloc, rest2) := SplitNetloc(rest);
    if ('[' in netloc) != (']' in netloc) then None
    else
      var (beforeFragment, fragment) := SplitFragment(rest2);
      var (path, query) := SplitQuery(beforeFragment);
      Some(SplitResult(scheme, netloc, path, query, fragment))
  }

  /** `_splitparams`: `;params` is what follows the first `;` after the last `/`
      (or the first `;` at all when there is no `/`). */
  function SplitParams(path: string): (r: (string, string))
    requires ';' in path
  {
    if '/' in path then
      var i := FindFrom(path, ';', RFind(path, '/'));
      if i == |path| then (path, "") else (path[..i], path[i + 1..])
    else
      var i := Find(path, ';');
      (path[..i], path[i + 1..])
  }

  /** `urlparse(url)`, or None where it raises. */
  function UrlParse(url: string): Option<UrlParts>
  {
    match UrlSplit(url)
    case None => None
    case Some(r) =>
      var (path, params) :=
        if r.scheme in UsesParams && ';' in r.path then SplitParams(r.path) else (r.path, "");
      Some(UrlParts(r.scheme, r.netloc, path, params, r.query, r.fragment))
  }

  /** `urlunsplit((scheme, netloc, url, query, fragment))`. */
  function UrlUnsplit(scheme: string, netloc: string, url: string, query: string, fragment: string): string
  {
    var withNetloc :=
      if netloc != "" || (scheme != "" && scheme in UsesNetloc && !(|url| >= 2 && url[..2] == "//")) then
        "//" + netloc + (if url != "" && url[0] != '/' then "/" + url else url)
      else url;
    var withScheme := if scheme != "" then scheme + ":" + withNetloc else withNetloc;
    withScheme + QueryTail(query) + FragmentTail(fragment)
  }

  /** `?query`, written only when the query is not empty. */
  function QueryTail(query: string): string { if query != "" then "?" + query else "" }

  /** `#fragment`, written only when the fragment is not empty. */
  function FragmentTail(fragment: string): string { if fragment != "" then "#" + fragment else "" }

  /** The path with `;params` re-attached, written only when the parameters are not empty. */
  function JoinParams(path: string, params: string): string
  {
    if params != "" then path + ";" + params else path
  }

  /** `urlunparse(p)`. */
  function UrlUnparse(p: UrlParts): string
  {
    UrlUnsplit(p.scheme, p.netloc, JoinParams(p.path, p.params), p.query, p.fragment)
  }

  // ---------------------------------------------------------------- reassembly round trip

  predicate NoUnsafe(s: string) { forall k :: 0 <= k < |s| ==> !IsUnsafe(s[k]) }

  /** No `;` after the last `/` of `path`. */
  predicate NoParamsAfterLastSlash(path: string)
  {
    forall k :: RFind(path, '/') < k < |path| ==> path[k] != ';'
  }

  predicate IsLowerScheme(scheme: string)
  {
    scheme != [] && IsAsciiLetter(scheme[0]) &&
    forall k :: 0 <= k < |scheme| ==> IsSchemeChar(scheme[k]) && !('A' <= scheme[k] <= 'Z')
  }

  /** What `urlparse` produces for a URL with a network location, slot by slot. */
  predicate WellFormed(p: UrlParts)
  {
    && (p.scheme == "" || IsLowerScheme(p.scheme))
    && p.netloc != ""
    && (forall k :: 0 <= k < |p.netloc| ==> !IsNetlocDelimiter(p.netloc[k]))
    && ('[' in p.netloc) == (']' in p.netloc)
    && (p.path == "" || p.path[0] == '/')
    && '?' !in p.path && '#' !in p.path
    && '/' !in p.params && '?' !in p.params && '#' !in p.params
    && (p.params != "" ==> p.scheme in UsesParams && p.path != "")
    && (p.scheme in UsesParams ==> NoParamsAfterLastSlash(p.path))
    && '#' !in p.query
    && NoUnsafe(p.scheme) && NoUnsafe(p.netloc) && NoUnsafe(p.path) && NoUnsafe(p.params)
    && NoUnsafe(p.query) && NoUnsafe(p.fragment)
  }

  /** The shape of `urlunparse(p)` when there is a network location: `//netloc` and the path
      are always written, behind `scheme:` when there is a scheme. */
  lemma UnparseShape(p: UrlParts)
    requires p.netloc != "" && (p.path == "" || p.path[0] == '/') && (p.params != "" ==> p.path != "")
    ensures var w := "//" + p.netloc + JoinParams(p.path, p.params);
      UrlUnparse(p) == (if p.scheme != "" then p.scheme + ":" + w else w) + QueryTail(p.query) + FragmentTail(p.fragment)
  {
    var url := JoinParams(p.path, p.params);
    assert url == "" || url[0] == '/';
  }

  /** A character `urlsplit` gives no meaning to: no delimiter, bracket, `;`, tab or line break. */
  predicate IsInert(c: char)
  {
    !IsNetlocDelimiter(c) && c != '[' && c != ']' && c != ';' && !IsUnsafe(c)
  }

  /** An `http` or `https` URL whose network location, path (after its leading `/`) and query
      hold only inert characters, with no parameters and no fragment, is a parse result. */
  lemma InertPartsWellFormed(p: UrlParts)
    requires p.scheme == "https" || p.scheme == "http"
    requires p.netloc != "" && p.params == "" && p.fragment == "" && (p.path == "" || p.path[0] == '/')
    requires forall k :: 0 <= k < |p.netloc| ==> IsInert(p.netloc[k])
    requires forall k :: 0 < k < |p.path| ==> IsInert(p.path[k])
    requires forall k :: 0 <= k < |p.query| ==> IsInert(p.query[k])
    ensures WellFormed(p)
  {
    assert '[' !in p.netloc && ']' !in p.netloc;
    assert NoParamsAfterLastSlash(p.path);
  }

  /** With a scheme, a network location, no parameters and no fragment, `urlunparse` writes
      `scheme://netloc` and the path, then the query behind a `?` when there is one. */
  lemma UnparseWithQuery(p: UrlParts)
    requires p.scheme != "" && p.netloc != "" && (p.path == "" || p.path[0] == '/')
    requires p.params == "" && p.fragment == ""
    ensures UrlUnparse(p.(query := "")) == p.scheme + ":" + ("//" + p.netloc + p.path)
    ensures UrlUnparse(p) == UrlUnparse(p.(query := "")) + QueryTail(p.query)
  {
    UnparseShape(p);
    UnparseShape(p.(query := ""));
  }

  lemma Regroup(x: string, netloc: string, path: string, query: string, fragment: string)
    ensures x + ("//" + netloc + (path + query + fragment)) == x + ("//" + netloc + path) + query + fragment
  {
  }

  lemma CleanUnchanged(u: string)
    requires u != [] && !IsC0OrSpace(u[0]) && NoUnsafe(u)
    ensures Clean(u) == u
  {
  }

  /** Cleaning a URL whose first part needs no cleaning only touches the rest. */
  lemma CleanKeepsPrefix(pre: string, rest: string)
    requires pre != [] && !IsC0OrSpace(pre[0]) && NoUnsafe(pre)
    ensures Clean(pre + rest) == pre + Remove(rest, IsUnsafe)
  {
    assert (pre + rest)[0] == pre[0];
    RemoveAppend(pre, rest, IsUnsafe);
  }

  lemma SplitSchemeOf(scheme: string, rest: string)
    requires IsLowerScheme(scheme)
    ensures SplitScheme(scheme + ":" + rest) == (scheme, rest)
  {
    var u := scheme + ":" + rest;
    assert u == scheme + ([':'] + rest);
    assert ':' !in scheme by {
      assert forall k :: 0 <= k < |scheme| ==> IsSchemeChar(scheme[k]);
    }
    FindAppend(scheme, [':'] + rest, ':');
    assert u[..|scheme|] == scheme;
    assert Lower(scheme) == scheme;
    assert u[|scheme| + 1..] == rest;
  }

  lemma SplitNetlocOf(netloc: string, rest: string)
    requires forall k :: 0 <= k < |netloc| ==> !IsNetlocDelimiter(netloc[k])
    requires rest == [] || IsNetlocDelimiter(rest[0])
    ensures SplitNetloc("//" + netloc + rest) == (netloc, rest)
  {
    var u := "//" + netloc + rest;
    assert u[..2] == "//";
    assert forall k :: 2 <= k < 2 + |netloc| ==> u[k] == netloc[k - 2];
    assert rest != [] ==> u[2 + |netloc|] == rest[0];
    assert NetlocEnd(u, 2) == 2 + |netloc|;
    assert u[2..2 + |netloc|] == netloc;
    assert u[2 + |netloc|..] == rest;
  }

  lemma SplitFragmentOf(before: string, fragment: string)
    requires '#' !in before
    ensures SplitFragment(before + FragmentTail(fragment)) == (before, fragment)
  {
    if fragment != "" {
      assert before + FragmentTail(fragment) == before + ['#'] + fragment;
      SplitAtFirst(before, fragment, '#');
    } else {
      assert before + FragmentTail(fragment) == before;
    }
  }

  lemma SplitQueryOf(path: string, query: string)
    requires '?' !in path
    ensures SplitQuery(path + QueryTail(query)) == (path, query)
  {
    if query != "" {
      assert path + QueryTail(query) == path + ['?'] + query;
      SplitAtFirst(path, query, '?');
    } else {
      assert path + QueryTail(query) == path;
    }
  }

  /** `_splitparams` finds the parameters where `urlunparse` put them. */
  lemma SplitParamsOfJoined(path: string, params: string)
    requires path != "" && path[0] == '/' && NoParamsAfterLastSlash(path) && '/' !in params
    ensures ';' in path + ";" + params
    ensures SplitParams(path + ";" + params) == (path, params)
  {
    var joined := path + ";" + params;
    assert joined[|path|] == ';';
    assert joined[0] == '/';
    var r := RFind(path, '/');
    assert path[0] == '/';
    assert 0 <= r < |path| && joined[r] == '/';
    assert forall k :: r < k < |joined| ==> joined[k] != '/' by {
      assert forall k :: r < k < |path| ==> joined[k] == path[k] != '/';
      assert forall k :: |path| < k < |joined| ==> joined[k] == params[k - |path| - 1];
    }
    assert RFind(joined, '/') == r;
    assert forall k :: r <= k < |path| ==> joined[k] != ';';
    assert FindFrom(joined, ';', r) == |path|;
    assert joined[..|path|] == path;
    assert joined[|path| + 1..] == params;
  }

  lemma SplitParamsNone(path: string)
    requires path != "" && path[0] == '/' && NoParamsAfterLastSlash(path) && ';' in path
    ensures SplitParams(path) == (path, "")
  {
    assert '/' in path;
    var r := RFind(path, '/');
    assert path[r] == '/';
    assert forall k :: r <= k < |path| ==> path[k] != ';';
  }

  lemma JoinParamsFacts(p: UrlParts)
    requires WellFormed(p)
    ensures var joined := JoinParams(p.path, p.params);
      && (joined == "" || joined[0] == '/')
      && '?' !in joined && '#' !in joined && NoUnsafe(joined)
  {
  }

  /** The rest of `urlunparse(p)` after `scheme:`, split into netloc and the slots after it. */
  lemma SplitAfterScheme(p: UrlParts)
    requires WellFormed(p)
    ensures var rest2 := JoinParams(p.path, p.params) + QueryTail(p.query) + FragmentTail(p.fragment);
      && SplitNetloc("//" + p.netloc + rest2) == (p.netloc, rest2)
      && SplitFragment(rest2) == (JoinParams(p.path, p.params) + QueryTail(p.query), p.fragment)
      && SplitQuery(JoinParams(p.path, p.params) + QueryTail(p.query)) == (JoinParams(p.path, p.params), p.query)
  {
    var joined := JoinParams(p.path, p.params);
    JoinParamsFacts(p);
    var rest2 := joined + QueryTail(p.query) + FragmentTail(p.fragment);
    assert rest2 == [] || IsNetlocDelimiter(rest2[0]);
    SplitNetlocOf(p.netloc, rest2);
    assert '#' !in joined + QueryTail(p.query);
    SplitFragmentOf(joined + QueryTail(p.query), p.fragment);
    SplitQueryOf(joined, p.query);
  }

  lemma NoUnsafeAppend(a: string, b: string)
    requires NoUnsafe(a) && NoUnsafe(b)
    ensures NoUnsafe(a + b)
  {
    assert forall k :: 0 <= k < |a| ==> (a + b)[k] == a[k];
    assert forall k :: |a| <= k < |a| + |b| ==> (a + b)[k] == b[k - |a|];
  }

  /** A lower-case scheme (or none) in front of `//...` is cleaned and split off intact. */
  lemma SchemeOfClean(scheme: string, rest: string)
    requires scheme == "" || IsLowerScheme(scheme)
    requires |rest| >= 2 && rest[0] == '/'
    requires NoUnsafe(scheme) && NoUnsafe(rest)
    ensures SplitScheme(Clean((if scheme != "" then scheme + ":" else "") + rest)) == (scheme, rest)
  {
    if scheme != "" {
      SchemeColonClean(scheme, rest);
      SplitSchemeOf(scheme, rest);
    } else {
      assert "" + rest == rest;
      CleanUnchanged(rest);
    }
  }

  /** A lower-case scheme, its `:` and a clean rest need no cleaning. */
  lemma SchemeColonClean(scheme: string, rest: string)
    requires IsLowerScheme(scheme) && NoUnsafe(scheme) && NoUnsafe(rest)
    ensures Clean(scheme + ":" + rest) == scheme + ":" + rest
  {
    NoUnsafeAppend(scheme, ":");
    NoUnsafeAppend(scheme + ":", rest);
    assert (scheme + ":" + rest)[0] == scheme[0];
    CleanUnchanged(scheme + ":" + rest);
  }

  /** `urlsplit` as the composition of its stages. */
  lemma UrlSplitOf(u: string, scheme: string, rest: string, netloc: string, rest2: string,
                   before: string, path: string, query: string, fragment: string)
    requires SplitScheme(Clean(u)) == (scheme, rest)
    requires SplitNetloc(rest) == (netloc, rest2)
    requires ('[' in netloc) == (']' in netloc)
    requires SplitFragment(rest2) == (before, fragment)
    requires SplitQuery(before) == (path, query)
    ensures UrlSplit(u) == Some(SplitResult(scheme, netloc, path, query, fragment))
  {
  }

  /** What `urlunparse` writes after the netloc has no tab or line break. */
  lemma UnparsedRestNoUnsafe(p: UrlParts)
    requires WellFormed(p)
    ensures NoUnsafe(JoinParams(p.path, p.params) + QueryTail(p.query) + FragmentTail(p.fragment))
  {
    var joined := JoinParams(p.path, p.params);
    JoinParamsFacts(p);
    NoUnsafeAppend("?", p.query);
    NoUnsafeAppend("#", p.fragment);
    NoUnsafeAppend(joined, QueryTail(p.query));
    NoUnsafeAppend(joined + QueryTail(p.query), FragmentTail(p.fragment));
  }

  /** A URL written as `scheme://netloc...` (or `//netloc...` with no scheme) is cleaned and
      split at the scheme intact. */
  lemma SchemeSplitOfShape(scheme: string, netloc: string, rest2: string)
    requires scheme == "" || IsLowerScheme(scheme)
    requires NoUnsafe(scheme) && NoUnsafe(netloc) && NoUnsafe(rest2)
    ensures SplitScheme(Clean((if scheme != "" then scheme + ":" else "") + ("//" + netloc + rest2)))
      == (scheme, "//" + netloc + rest2)
  {
    var rest := "//" + netloc + rest2;
    NoUnsafeAppend("//", netloc);
    NoUnsafeAppend("//" + netloc, rest2);
    SchemeOfClean(scheme, rest);
  }

  /** `urlunparse(p)` cleaned and split at the scheme gives the scheme back, followed by
      `//netloc` and the rest. */
  lemma UnparseSchemeSplit(p: UrlParts)
    requires WellFormed(p)
    ensures var rest2 := JoinParams(p.path, p.params) + QueryTail(p.query) + FragmentTail(p.fragment);
      SplitScheme(Clean(UrlUnparse(p))) == (p.scheme, "//" + p.netloc + rest2)
  {
    var joined := JoinParams(p.path, p.params);
    var rest2 := joined + QueryTail(p.query) + FragmentTail(p.fragment);
    var w := "//" + p.netloc + joined;
    var x := if p.scheme != "" then p.scheme + ":" else "";
    assert UrlUnparse(p) == x + ("//" + p.netloc + rest2) by {
      UnparseShape(p);
      assert (if p.scheme != "" then p.scheme + ":" + w else w) == x + w;
      Regroup(x, p.netloc, joined, QueryTail(p.query), FragmentTail(p.fragment));
    }
    UnparsedRestNoUnsafe(p);
    SchemeSplitOfShape(p.scheme, p.netloc, rest2);
  }

  /** `urlsplit(urlunparse(p))` finds every slot where `urlunparse` wrote it. */
  lemma SplitOfUnparse(p: UrlParts)
    requires WellFormed(p)
    ensures UrlSplit(UrlUnparse(p)) ==
      Some(SplitResult(p.scheme, p.netloc, JoinParams(p.path, p.params), p.query, p.fragment))
  {
    var joined := JoinParams(p.path, p.params);
    var rest2 := joined + QueryTail(p.query) + FragmentTail(p.fragment);
    UnparseSchemeSplit(p);
    SplitAfterScheme(p);
    UrlSplitOf(UrlUnparse(p), p.scheme, "//" + p.netloc + rest2, p.netloc, rest2,
               joined + QueryTail(p.query), joined, p.query, p.fragment);
  }

  /** `urlparse(urlunparse(p)) == p` for every ParseResult with a network location: reassembling
      writes the slots so that splitting finds each of them where it was. */
  lemma UnparseParse(p: UrlParts)
    requires WellFormed(p)
    ensures UrlParse(UrlUnparse(p)) == Some(p)
  {
    SplitOfUnparse(p);
    if p.params != "" {
      SplitParamsOfJoined(p.path, p.params);
    } else if p.scheme in UsesParams && ';' in p.path {
      SplitParamsNone(p.path);
    }
  }

  /** Cleaning `scheme://netloc` followed by a remainder that starts a path, a query or a
      fragment only drops tabs and line breaks from the remainder, which still starts the same. */
  lemma CleanNetlocUrl(scheme: string, netloc: string, rest: string)
    requires IsLowerScheme(scheme) && NoUnsafe(netloc)
    requires rest == [] || IsNetlocDelimiter(rest[0])
    ensures var rest2 := Remove(rest, IsUnsafe);
      && Clean(scheme + "://" + netloc + rest) == scheme + ":" + ("//" + netloc + rest2)
      && (rest2 == [] || IsNetlocDelimiter(rest2[0]))
  {
    CleanSchemePrefixed(scheme, netloc, rest);
    RemoveKeepsDelimiterHead(rest);
    RegroupScheme(scheme, netloc, Remove(rest, IsUnsafe));
  }

  /** Cleaning `scheme://netloc...` only touches what follows the netloc. */
  lemma CleanSchemePrefixed(scheme: string, netloc: string, rest: string)
    requires IsLowerScheme(scheme) && NoUnsafe(netloc)
    ensures Clean(scheme + "://" + netloc + rest) == scheme + "://" + netloc + Remove(rest, IsUnsafe)
  {
    var pre := scheme + "://" + netloc;
    assert NoUnsafe(scheme) by {
      assert forall k :: 0 <= k < |scheme| ==> IsSchemeChar(scheme[k]);
    }
    NoUnsafeAppend(scheme, "://");
    NoUnsafeAppend(scheme + "://", netloc);
    assert pre[0] == scheme[0];
    CleanKeepsPrefix(pre, rest);
  }

  /** Removing tabs and line breaks keeps a leading `/`, `?` or `#` in front. */
  lemma RemoveKeepsDelimiterHead(rest: string)
    requires rest == [] || IsNetlocDelimiter(rest[0])
    ensures var rest2 := Remove(rest, IsUnsafe); rest2 == [] || IsNetlocDelimiter(rest2[0])
  {
    if rest != [] {
      assert Remove(rest, IsUnsafe) == [rest[0]] + Remove(rest[1..], IsUnsafe);
    }
  }

  lemma RegroupScheme(scheme: string, netloc: string, rest: string)
    ensures scheme + "://" + netloc + rest == scheme + ":" + ("//" + netloc + rest)
  {
    assert scheme + "://" == scheme + ":" + "//";
  }

  /** A URL `scheme://netloc...` whose netloc has no delimiter, no tab or line break and
      balanced brackets, and whose remainder starts a path, a query or a fragment, parses
      with that scheme and that netloc. */
  lemma ParseOfNetlocUrl(scheme: string, netloc: string, rest: string)
    requires IsLowerScheme(scheme) && NoUnsafe(netloc)
    requires forall k :: 0 <= k < |netloc| ==> !IsNetlocDelimiter(netloc[k])
    requires ('[' in netloc) == (']' in netloc)
    requires rest == [] || IsNetlocDelimiter(rest[0])
    ensures var p := UrlParse(scheme + "://" + netloc + rest);
      p.Some? && p.value.scheme == scheme && p.value.netloc == netloc
  {
    CleanNetlocUrl(scheme, netloc, rest);
    var rest2 := Remove(rest, IsUnsafe);
    SplitSchemeOf(scheme, "//" + netloc + rest2);
    SplitNetlocOf(netloc, rest2);
    var (before, fragment) := SplitFragment(rest2);
    var (path, query) := SplitQuery(before);
    UrlSplitOf(scheme + "://" + netloc + rest, scheme, "//" + netloc + rest2, netloc, rest2,
               before, path, query, fragment);
  }

  // ---------------------------------------------------------------- what parsing produces

  lemma NoUnsafeSlice(s: string, i: nat, j: nat)
    requires NoUnsafe(s) && i <= j <= |s|
    ensures NoUnsafe(s[i..j])
  {
    assert forall k :: 0 <= k < j - i ==> s[i..j][k] == s[i + k];
  }

  /** The scheme `urlsplit` takes off is lower-case (or absent) and brings no unsafe characters. */
  lemma SplitSchemeFacts(u: string)
    requires NoUnsafe(u)
    ensures var (scheme, rest) := SplitScheme(u);
      (scheme == "" || IsLowerScheme(scheme)) && NoUnsafe(scheme) && NoUnsafe(rest)
  {
    var i := Find(u, ':');
    if 0 < i < |u| && IsAsciiLetter(u[0]) && forall k :: 0 <= k < i ==> IsSchemeChar(u[k]) {
      NoUnsafeSlice(u, i + 1, |u|);
      assert u[i + 1..] == u[i + 1..|u|];
      var scheme := Lower(u[..i]);
      assert forall k :: 0 <= k < |scheme| ==> IsSchemeChar(scheme[k]) && !('A' <= scheme[k] <= 'Z');
    }
  }

  /** The netloc `_splitnetloc` takes off holds no delimiter, and what follows it starts with one. */
  lemma SplitNetlocFacts(rest: string)
    requires NoUnsafe(rest)
    ensures var (netloc, rest2) := SplitNetloc(rest);
      && (forall k :: 0 <= k < |netloc| ==> !IsNetlocDelimiter(netloc[k]))
      && (netloc != "" ==> rest2 == "" || IsNetlocDelimiter(rest2[0]))
      && NoUnsafe(netloc) && NoUnsafe(rest2)
  {
    if |rest| >= 2 && rest[..2] == "//" {
      var d := NetlocEnd(rest, 2);
      NoUnsafeSlice(rest, 2, d);
      NoUnsafeSlice(rest, d, |rest|);
      assert rest[d..] == rest[d..|rest|];
    }
  }

  lemma SplitFragmentFacts(rest2: string)
    requires NoUnsafe(rest2)
    ensures var (before, fragment) := SplitFragment(rest2);
      && '#' !in before && NoUnsafe(before) && NoUnsafe(fragment)
      && ((rest2 == "" || IsNetlocDelimiter(rest2[0])) ==> before == "" || before[0] in "/?")
  {
    var f := Find(rest2, '#');
    if f < |rest2| {
      NoUnsafeSlice(rest2, 0, f);
      NoUnsafeSlice(rest2, f + 1, |rest2|);
      assert rest2[f + 1..] == rest2[f + 1..|rest2|];
      assert rest2[..f] == rest2[0..f];
      assert forall k :: 0 <= k < f ==> rest2[..f][k] != '#';
    }
  }

  lemma SplitQueryFacts(before: string)
    requires NoUnsafe(before) && '#' !in before
    requires before == "" || before[0] in "/?"
    ensures var (path, query) := SplitQuery(before);
      && '?' !in path && '#' !in path && '#' !in query && NoUnsafe(path) && NoUnsafe(query)
      && (path == "" || path[0] == '/')
  {
    var q := Find(before, '?');
    if q < |before| {
      NoUnsafeSlice(before, 0, q);
      NoUnsafeSlice(before, q + 1, |before|);
      assert before[q + 1..] == before[q + 1..|before|];
      assert before[..q] == before[0..q];
      assert forall k :: 0 <= k < q ==> before[..q][k] != '?';
      assert forall k :: 0 <= k < q ==> before[..q][k] == before[k];
    }
  }

  /** What `_splitparams` leaves in the path and the parameters. */
  lemma SplitParamsFacts(path: string)
    requires path != "" && path[0] == '/' && ';' in path
    requires '?' !in path && '#' !in path && NoUnsafe(path)
    ensures var (path', params) := SplitParams(path);
      && path' != "" && path'[0] == '/' && NoParamsAfterLastSlash(path')
      && '?' !in path' && '#' !in path' && NoUnsafe(path')
      && '/' !in params && '?' !in params && '#' !in params && NoUnsafe(params)
  {
    assert path[0] == '/';
    var r := RFind(path, '/');
    assert 0 <= r;
    var i := FindFrom(path, ';', r);
    assert i > r;
    if i < |path| {
      var path' := path[..i];
      NoUnsafeSlice(path, 0, i);
      NoUnsafeSlice(path, i + 1, |path|);
      assert path[..i] == path[0..i];
      assert path[i + 1..] == path[i + 1..|path|];
      assert forall k :: 0 <= k < i ==> path'[k] == path[k];
      assert path'[r] == '/';
      assert forall k :: r < k < |path'| ==> path'[k] != '/';
      assert RFind(path', '/') == r;
    }
  }

  /** Every ParseResult with a network location that `urlparse` produces is one that
      `urlunparse` reassembles faithfully. */
  lemma ParsedIsWellFormed(url: string)
    requires UrlParse(url).Some? && UrlParse(url).value.netloc != ""
    ensures WellFormed(UrlParse(url).value)
  {
    var u := Clean(url);
    var (scheme, rest) := SplitScheme(u);
    SplitSchemeFacts(u);
    var (netloc, rest2) := SplitNetloc(rest);
    SplitNetlocFacts(rest);
    var (before, fragment) := SplitFragment(rest2);
    SplitFragmentFacts(rest2);
    var (path, query) := SplitQuery(before);
    SplitQueryFacts(before);
    UrlSplitOf(url, scheme, rest, netloc, rest2, before, path, query, fragment);
    if scheme in UsesParams && ';' in path {
      SplitParamsFacts(path);
    }
  }
}
