/** `process_line`: the URL pattern of main.py and the `re.sub` scan that replaces every match
    with the redacted URL.

    The pattern, read as a regular expression, is

        \b https?:// ( [a-zA-Z0-9.-]+ | \[[a-fA-F0-9:]+\] ) (:[0-9]+)?
           ( / P* . P* )* ( \? Q* Q* )? ( \# Q* Q* )? \b

    with P = [a-zA-Z0-9_@%+-] and Q = [a-zA-Z0-9_@%&+=;-]. The `.` in a path segment is not
    escaped, so it stands for any character except a line feed. That `.` also takes the `?` of
    a query, after which the second `P*` stops at the first `=`: the match then ends inside the
    query (`WrittenLeaksValue`). The model therefore carries two patterns (`Pattern`): the one
    main.py compiles, and a corrected one whose path segments are `/[a-zA-Z0-9_@%+.-]*`, path
    characters and literal dots. Everything below holds for both unless it names one.

    The regex engine backtracks: every greedy repetition first takes as much as it can and then
    gives back one character at a time, every optional part is first tried present, and the
    first combination for which the final `\b` holds is the match. The search functions below
    try the same ends in the same order, stage by stage (the two stars of `Q* Q*` act as one
    run, which reaches the same ends); `IsUrlMatch` says declaratively what a match is, and the
    search is proved sound and complete against it. */
module Locator {
  import opened Strings
  import opened UrllibParse
  import opened Redactor
  import opened QueryString

  /** The character classes of the pattern. */
  datatype CharClass =
    | HostClass     // [a-zA-Z0-9.-]
    | BracketClass  // [a-fA-F0-9:]
    | DigitClass    // [0-9]
    | PathClass     // [a-zA-Z0-9_@%+-]
    | QueryClass    // [a-zA-Z0-9_@%&+=;-]
    | SegmentClass  // [a-zA-Z0-9_@%+.-], the corrected path segment

  /** The pattern main.py compiles, and the same pattern with path segments made of path
      characters and literal dots. */
  datatype Pattern = Written | Corrected

  predicate InClass(c: char, k: CharClass)
  {
    match k
    case HostClass => IsAsciiAlnum(c) || c == '.' || c == '-'
    case BracketClass => IsHexDigit(c) || c == ':'
    case DigitClass => IsDigit(c)
    case PathClass => IsAsciiAlnum(c) || c == '_' || c == '@' || c == '%' || c == '+' || c == '-'
    case QueryClass =>
      IsAsciiAlnum(c) || c == '_' || c == '@' || c == '%' || c == '&' || c == '+' || c == '='
      || c == ';' || c == '-'
    case SegmentClass =>
      IsAsciiAlnum(c) || c == '_' || c == '@' || c == '%' || c == '+' || c == '-' || c == '.'
  }

  /** Every character of `s[i..j]` is in the class. */
  predicate AllIn(s: string, i: nat, j: nat, k: CharClass)
    requires i <= j <= |s|
  {
    forall t :: i <= t < j ==> InClass(s[t], k)
  }

  /** How far a greedy `[...]*` of the class reaches from `i`. */
  function Run(s: string, i: nat, k: CharClass): (n: nat)
    requires i <= |s|
    ensures i + n <= |s| && AllIn(s, i, i + n, k)
    ensures i + n < |s| ==> !InClass(s[i + n], k)
    decreases |s| - i
  {
    if i < |s| && InClass(s[i], k) then 1 + Run(s, i + 1, k) else 0
  }

  /** A run of the class never reaches past the greedy run. */
  lemma RunBound(s: string, i: nat, j: nat, k: CharClass)
    requires i <= j <= |s| && AllIn(s, i, j, k)
    ensures j - i <= Run(s, i, k)
  {
  }

  /** `\w`, on ASCII: letters, digits and the underscore. */
  predicate IsWordChar(c: char) { IsAsciiAlnum(c) || c == '_' }

  /** `\b` at position `p`: exactly one of the characters on either side is a word character. */
  predicate Boundary(s: string, p: nat)
    requires p <= |s|
  {
    (p > 0 && IsWordChar(s[p - 1])) != (p < |s| && IsWordChar(s[p]))
  }

  // ---------------------------------------------------------------- what a match is

  /** The positions where each part of a match ends. */
  datatype UrlMatch = UrlMatch(
    start: nat, hostStart: nat, hostEnd: nat, portEnd: nat, segEnds: seq<nat>, queryEnd: nat, end: nat)

  /** What follows the port: the path segments, the query and the fragment. */
  datatype Tail = Tail(segEnds: seq<nat>, queryEnd: nat, end: nat)

  /** `https?://` from `st` up to `hs`. */
  predicate SchemeOK(s: string, st: nat, hs: nat)
  {
    (hs == st + 7 && hs <= |s| && s[st..hs] == "http://")
    || (hs == st + 8 && hs <= |s| && s[st..hs] == "https://")
  }

  /** `[a-zA-Z0-9.-]+` or `\[[a-fA-F0-9:]+\]` from `hs` up to `he`. */
  predicate HostOK(s: string, hs: nat, he: nat)
  {
    hs < he <= |s| &&
    (AllIn(s, hs, he, HostClass)
     || (hs + 2 < he && s[hs] == '[' && s[he - 1] == ']' && AllIn(s, hs + 1, he - 1, BracketClass)))
  }

  /** `(:[0-9]+)?` from `h` up to `q`. */
  predicate PortOK(s: string, h: nat, q: nat)
  {
    h <= q <= |s| && (q == h || (h + 1 < q && s[h] == ':' && AllIn(s, h + 1, q, DigitClass)))
  }

  /** One path segment from `p` up to `q`: `/ P* . P*` as written, `/[a-zA-Z0-9_@%+.-]*` corrected. */
  predicate Seg(pat: Pattern, s: string, p: nat, q: nat)
  {
    p < q <= |s| && s[p] == '/' &&
    match pat
    case Written =>
      exists d :: p < d < q && AllIn(s, p + 1, d, PathClass) && s[d] != '\n' && AllIn(s, d + 1, q, PathClass)
    case Corrected => AllIn(s, p + 1, q, SegmentClass)
  }

  /** The path segments from `p`, ending at `ends`. */
  predicate SegsOK(pat: Pattern, s: string, p: nat, ends: seq<nat>)
    decreases |ends|
  {
    ends == [] || (Seg(pat, s, p, ends[0]) && SegsOK(pat, s, ends[0], ends[1..]))
  }

  /** Where the path segments from `p` end. */
  function SegsEnd(p: nat, ends: seq<nat>): nat
  {
    if ends == [] then p else ends[|ends| - 1]
  }

  /** `( \? Q* Q* )?` from `p` up to `q`. */
  predicate QueryOK(s: string, p: nat, q: nat)
  {
    p <= q <= |s| && (q == p || (s[p] == '?' && AllIn(s, p + 1, q, QueryClass)))
  }

  /** `( \# Q* Q* )?` from `p` up to `q`. */
  predicate FragOK(s: string, p: nat, q: nat)
  {
    p <= q <= |s| && (q == p || (s[p] == '#' && AllIn(s, p + 1, q, QueryClass)))
  }

  /** Everything after the port, up to and including the closing `\b`. */
  predicate TailOK(pat: Pattern, s: string, p: nat, t: Tail)
  {
    SegsOK(pat, s, p, t.segEnds) && QueryOK(s, SegsEnd(p, t.segEnds), t.queryEnd)
    && FragOK(s, t.queryEnd, t.end) && Boundary(s, t.end)
  }

  /** `s[m.start..m.end]` is matched by the pattern, in the parts `m` names. */
  predicate IsUrlMatch(pat: Pattern, s: string, m: UrlMatch)
  {
    m.start <= |s| && Boundary(s, m.start) && SchemeOK(s, m.start, m.hostStart)
    && HostOK(s, m.hostStart, m.hostEnd) && PortOK(s, m.hostEnd, m.portEnd)
    && TailOK(pat, s, m.portEnd, Tail(m.segEnds, m.queryEnd, m.end))
  }

  lemma SegsEndBound(pat: Pattern, s: string, p: nat, ends: seq<nat>)
    requires SegsOK(pat, s, p, ends)
    ensures p <= SegsEnd(p, ends)
    ensures p <= |s| ==> SegsEnd(p, ends) <= |s|
    ensures ends != [] ==> p < SegsEnd(p, ends)
    decreases |ends|
  {
    if ends != [] {
      SegsEndBound(pat, s, ends[0], ends[1..]);
    }
  }

  lemma TailBound(pat: Pattern, s: string, p: nat, t: Tail)
    requires p <= |s| && TailOK(pat, s, p, t)
    ensures p <= SegsEnd(p, t.segEnds) <= t.queryEnd <= t.end <= |s|
  {
    SegsEndBound(pat, s, p, t.segEnds);
  }

  // ---------------------------------------------------------------- the backtracking search

  /** `( \# Q* Q* )? \b` from `p`: the fragment is tried first, with its greedy run given back
      one character at a time, then the fragment is skipped. */
  function FragThen(s: string, p: nat): (r: Option<nat>)
    requires p <= |s|
  {
    if p < |s| && s[p] == '#' then
      match FragDown(s, p + 1, Run(s, p + 1, QueryClass))
      case Some(e) => Some(e)
      case None => if Boundary(s, p) then Some(p) else None
    else if Boundary(s, p) then Some(p) else None
  }

  /** The first of `from + n, from + n - 1, ..., from` at which `\b` holds. */
  function FragDown(s: string, from: nat, n: nat): (r: Option<nat>)
    requires from + n <= |s|
    decreases n
  {
    if Boundary(s, from + n) then Some(from + n) else if n == 0 then None else FragDown(s, from, n - 1)
  }

  /** `( \? Q* Q* )? ( \# Q* Q* )? \b` from `p`: gives the end of the query and of the match. */
  function QueryThen(s: string, p: nat): (r: Option<(nat, nat)>)
    requires p <= |s|
  {
    var skip := match FragThen(s, p) case Some(e) => Some((p, e)) case None => None;
    if p < |s| && s[p] == '?' then
      match QueryDown(s, p + 1, Run(s, p + 1, QueryClass))
      case Some(r) => Some(r)
      case None => skip
    else skip
  }

  /** The first of the query ends `from + n, ..., from` after which the rest can finish. */
  function QueryDown(s: string, from: nat, n: nat): (r: Option<(nat, nat)>)
    requires from + n <= |s|
    decreases n
  {
    match FragThen(s, from + n)
    case Some(e) => Some((from + n, e))
    case None => if n == 0 then None else QueryDown(s, from, n - 1)
  }

  /** The path segments and the rest from `p`: another segment is tried first, then the query. */
  function SegsThen(pat: Pattern, s: string, p: nat): (r: Option<Tail>)
    requires p <= |s|
    decreases |s| - p, 2, 0
  {
    var stop := match QueryThen(s, p) case Some(qe) => Some(Tail([], qe.0, qe.1)) case None => None;
    if p < |s| && s[p] == '/' then
      match SegAt(pat, s, p)
      case Some(t) => Some(t)
      case None => stop
    else stop
  }

  /** A segment at `p` and the rest, searched as the pattern's segment is. */
  function SegAt(pat: Pattern, s: string, p: nat): (r: Option<Tail>)
    requires p < |s| && s[p] == '/'
    decreases |s| - p, 1, |s|
  {
    match pat
    case Written => SegDot(s, p, Run(s, p + 1, PathClass))
    case Corrected => SegRun(s, p, Run(s, p + 1, SegmentClass))
  }

  /** The corrected segment at `p`, its run taking `b`, `b - 1`, ..., 0 characters before the
      rest of the pattern goes on. */
  function SegRun(s: string, p: nat, b: nat): (r: Option<Tail>)
    requires p < |s| && s[p] == '/' && p + 1 + b <= |s| && AllIn(s, p + 1, p + 1 + b, SegmentClass)
    decreases |s| - p, 0, b
  {
    var q := p + 1 + b;
    match SegsThen(Corrected, s, q)
    case Some(t) => Some(Tail([q] + t.segEnds, t.queryEnd, t.end))
    case None => if b == 0 then None else SegRun(s, p, b - 1)
  }

  /** The segment at `p` with its first `P*` taking `a`, `a - 1`, ..., 0 characters before the `.`. */
  function SegDot(s: string, p: nat, a: nat): (r: Option<Tail>)
    requires p < |s| && s[p] == '/' && p + 1 + a <= |s| && AllIn(s, p + 1, p + 1 + a, PathClass)
    decreases |s| - p, 1, a
  {
    var d := p + 1 + a;
    var here :=
      if d < |s| && s[d] != '\n' then SegAfter(s, p, d + 1, Run(s, d + 1, PathClass)) else None;
    match here
    case Some(t) => Some(t)
    case None => if a == 0 then None else SegDot(s, p, a - 1)
  }

  /** The segment at `p` whose `.` ends at `from`, with its second `P*` taking `b`, `b - 1`, ...,
      0 characters before the rest of the pattern goes on. */
  function SegAfter(s: string, p: nat, from: nat, b: nat): (r: Option<Tail>)
    requires p + 1 < from && from + b <= |s| && s[p] == '/'
    requires AllIn(s, p + 1, from - 1, PathClass) && s[from - 1] != '\n'
    requires AllIn(s, from, from + b, PathClass)
    decreases |s| - p, 0, b
  {
    var q := from + b;
    match SegsThen(Written, s, q)
    case Some(t) => Some(Tail([q] + t.segEnds, t.queryEnd, t.end))
    case None =>
      if b == 0 then None else SegAfter(s, p, from, b - 1)
  }

  /** `(:[0-9]+)?` and the rest from `h`: the port is tried first. Gives the end of the port. */
  function PortThen(pat: Pattern, s: string, h: nat): (r: Option<(nat, Tail)>)
    requires h <= |s|
  {
    var skip := match SegsThen(pat, s, h) case Some(t) => Some((h, t)) case None => None;
    if h < |s| && s[h] == ':' && Run(s, h + 1, DigitClass) > 0 then
      match PortDown(pat, s, h, Run(s, h + 1, DigitClass))
      case Some(r) => Some(r)
      case None => skip
    else skip
  }

  /** The port taking `n`, `n - 1`, ..., 1 digits. */
  function PortDown(pat: Pattern, s: string, h: nat, n: nat): (r: Option<(nat, Tail)>)
    requires h < |s| && s[h] == ':' && 0 < n && h + 1 + n <= |s| && AllIn(s, h + 1, h + 1 + n, DigitClass)
    decreases n
  {
    match SegsThen(pat, s, h + 1 + n)
    case Some(t) => Some((h + 1 + n, t))
    case None => if n == 1 then None else PortDown(pat, s, h, n - 1)
  }

  /** The host name taking `n`, `n - 1`, ..., 1 characters. Gives the end of the host. */
  function HostDown(pat: Pattern, s: string, hs: nat, n: nat): (r: Option<(nat, nat, Tail)>)
    requires 0 < n && hs + n <= |s| && AllIn(s, hs, hs + n, HostClass)
    decreases n
  {
    match PortThen(pat, s, hs + n)
    case Some((q, t)) => Some((hs + n, q, t))
    case None => if n == 1 then None else HostDown(pat, s, hs, n - 1)
  }

  /** Where the host starts when `https?://` is at `st`, or None. The `s` is tried first; when the
      rest fails after `https://`, the engine's retry without the `s` fails at once, because it
      then needs a `:` where the `s` is. */
  function SchemeEnd(s: string, st: nat): (r: Option<nat>)
    requires st <= |s|
    ensures r.Some? ==> SchemeOK(s, st, r.value)
    ensures forall hs: nat :: SchemeOK(s, st, hs) ==> r == Some(hs)
  {
    if st + 8 <= |s| && s[st..st + 8] == "https://" then
      assert s[st + 4] == s[st..st + 8][4] == 's';
      assert s[st..st + 7][4] == s[st + 4];
      Some(st + 8)
    else if st + 7 <= |s| && s[st..st + 7] == "http://" then Some(st + 7)
    else None
  }

  /** `\[[a-fA-F0-9:]+\]` and the rest from `hs`: the run of hexadecimal digits and colons
      must be followed by `]`, so no shorter run is worth trying. */
  function BracketHost(pat: Pattern, s: string, hs: nat): (r: Option<(nat, nat, Tail)>)
    requires hs < |s| && s[hs] == '['
  {
    var n := Run(s, hs + 1, BracketClass);
    var he := hs + 1 + n + 1;
    if n > 0 && hs + 1 + n < |s| && s[hs + 1 + n] == ']' then
      match PortThen(pat, s, he)
      case Some((q, t)) => Some((he, q, t))
      case None => None
    else None
  }

  lemma BracketHostOK(s: string, hs: nat, n: nat)
    requires hs < |s| && s[hs] == '[' && 0 < n && hs + 1 + n < |s| && s[hs + 1 + n] == ']'
    requires AllIn(s, hs + 1, hs + 1 + n, BracketClass)
    ensures HostOK(s, hs, hs + n + 2)
  {
    assert hs + n + 2 - 1 == hs + 1 + n;
  }

  /** The host and everything after it from `hs`: a host name is tried first, then a bracketed
      address (the two cannot both start at the same place). */
  function HostThen(pat: Pattern, s: string, hs: nat): (r: Option<(nat, nat, Tail)>)
    requires hs <= |s|
  {
    if Run(s, hs, HostClass) > 0 then HostDown(pat, s, hs, Run(s, hs, HostClass))
    else if hs < |s| && s[hs] == '[' then BracketHost(pat, s, hs)
    else None
  }

  /** The match the pattern finds when tried at `st`, if any. */
  function MatchAt(pat: Pattern, s: string, st: nat): (r: Option<UrlMatch>)
    requires st <= |s|
    ensures r.Some? ==> IsUrlMatch(pat, s, r.value) && r.value.start == st
  {
    if !Boundary(s, st) then None
    else match SchemeEnd(s, st)
      case None => None
      case Some(hs) =>
        match HostThen(pat, s, hs)
        case Some((he, q, t)) =>
          HostThenSound(pat, s, hs, he, q, t);
          Some(UrlMatch(st, hs, he, q, t.segEnds, t.queryEnd, t.end))
        case None => None
  }

  // ---------------------------------------------------------------- soundness

  lemma {:induction false} FragDownSound(s: string, from: nat, n: nat, e: nat)
    requires from + n <= |s| && FragDown(s, from, n) == Some(e)
    ensures from <= e <= from + n && Boundary(s, e)
    decreases n
  {
    if !Boundary(s, from + n) {
      FragDownSound(s, from, n - 1, e);
    }
  }

  /** What the fragment stage finds is an optional fragment followed by `\b`. */
  lemma FragThenSound(s: string, p: nat, e: nat)
    requires p <= |s| && FragThen(s, p) == Some(e)
    ensures FragOK(s, p, e) && Boundary(s, e)
  {
    if p < |s| && s[p] == '#' && FragDown(s, p + 1, Run(s, p + 1, QueryClass)).Some? {
      FragDownSound(s, p + 1, Run(s, p + 1, QueryClass), e);
    }
  }

  lemma {:induction false} QueryDownSound(s: string, from: nat, n: nat, q: nat, e: nat)
    requires from + n <= |s| && QueryDown(s, from, n) == Some((q, e))
    ensures from <= q <= from + n && FragOK(s, q, e) && Boundary(s, e)
    decreases n
  {
    if FragThen(s, from + n).Some? {
      FragThenSound(s, from + n, e);
    } else {
      QueryDownSound(s, from, n - 1, q, e);
    }
  }

  /** What the query stage finds is an optional query, an optional fragment and `\b`. */
  lemma QueryThenSound(s: string, p: nat, q: nat, e: nat)
    requires p <= |s| && QueryThen(s, p) == Some((q, e))
    ensures QueryOK(s, p, q) && FragOK(s, q, e) && Boundary(s, e)
  {
    if p < |s| && s[p] == '?' && QueryDown(s, p + 1, Run(s, p + 1, QueryClass)).Some? {
      QueryDownSound(s, p + 1, Run(s, p + 1, QueryClass), q, e);
    } else {
      FragThenSound(s, p, e);
    }
  }

  /** What the path stage finds is a list of segments followed by the query, the fragment and
      `\b`. */
  lemma {:induction false} SegsThenSound(pat: Pattern, s: string, p: nat, t: Tail)
    requires p <= |s| && SegsThen(pat, s, p) == Some(t)
    ensures TailOK(pat, s, p, t)
    decreases |s| - p, 2, 0
  {
    if p < |s| && s[p] == '/' && SegAt(pat, s, p).Some? {
      SegAtSound(pat, s, p, t);
    } else {
      QueryThenSound(s, p, t.queryEnd, t.end);
    }
  }

  lemma {:induction false} SegAtSound(pat: Pattern, s: string, p: nat, t: Tail)
    requires p < |s| && s[p] == '/' && SegAt(pat, s, p) == Some(t)
    ensures TailOK(pat, s, p, t)
    decreases |s| - p, 1, |s|
  {
    match pat
    case Written => SegDotSound(s, p, Run(s, p + 1, PathClass), t);
    case Corrected => SegRunSound(s, p, Run(s, p + 1, SegmentClass), t);
  }

  lemma {:induction false} SegRunSound(s: string, p: nat, b: nat, t: Tail)
    requires p < |s| && s[p] == '/' && p + 1 + b <= |s| && AllIn(s, p + 1, p + 1 + b, SegmentClass)
    requires SegRun(s, p, b) == Some(t)
    ensures TailOK(Corrected, s, p, t)
    decreases |s| - p, 0, b
  {
    var q := p + 1 + b;
    if SegsThen(Corrected, s, q).Some? {
      var rest := SegsThen(Corrected, s, q).value;
      SegsThenSound(Corrected, s, q, rest);
      SegRunHit(s, p, b, rest, t);
    } else {
      assert SegRun(s, p, b) == SegRun(s, p, b - 1);
      SegRunSound(s, p, b - 1, t);
    }
  }

  /** When the rest of the pattern follows the whole run, the corrected segment and that rest
      form the tail `SegRun` returns. */
  lemma SegRunHit(s: string, p: nat, b: nat, rest: Tail, t: Tail)
    requires p < |s| && s[p] == '/' && p + 1 + b <= |s| && AllIn(s, p + 1, p + 1 + b, SegmentClass)
    requires SegsThen(Corrected, s, p + 1 + b) == Some(rest) && TailOK(Corrected, s, p + 1 + b, rest)
    requires SegRun(s, p, b) == Some(t)
    ensures TailOK(Corrected, s, p, t)
  {
    var q := p + 1 + b;
    assert t == Tail([q] + rest.segEnds, rest.queryEnd, rest.end);
    assert Seg(Corrected, s, p, q);
    SegsCons(Corrected, s, p, q, rest);
  }

  lemma {:induction false} SegDotSound(s: string, p: nat, a: nat, t: Tail)
    requires p < |s| && s[p] == '/' && p + 1 + a <= |s| && AllIn(s, p + 1, p + 1 + a, PathClass)
    requires SegDot(s, p, a) == Some(t)
    ensures TailOK(Written, s, p, t)
    decreases |s| - p, 1, a
  {
    var d := p + 1 + a;
    if d < |s| && s[d] != '\n' && SegAfter(s, p, d + 1, Run(s, d + 1, PathClass)).Some? {
      SegAfterSound(s, p, d + 1, Run(s, d + 1, PathClass), t);
    } else {
      SegDotSound(s, p, a - 1, t);
    }
  }

  lemma {:induction false} SegAfterSound(s: string, p: nat, from: nat, b: nat, t: Tail)
    requires p + 1 < from && from + b <= |s| && s[p] == '/'
    requires AllIn(s, p + 1, from - 1, PathClass) && s[from - 1] != '\n'
    requires AllIn(s, from, from + b, PathClass)
    requires SegAfter(s, p, from, b) == Some(t)
    ensures TailOK(Written, s, p, t)
    decreases |s| - p, 0, b
  {
    var q := from + b;
    if SegsThen(Written, s, q).Some? {
      var rest := SegsThen(Written, s, q).value;
      SegsThenSound(Written, s, q, rest);
      SegAfterHit(s, p, from, b, rest, t);
    } else {
      assert SegAfter(s, p, from, b) == SegAfter(s, p, from, b - 1);
      SegAfterSound(s, p, from, b - 1, t);
    }
  }

  /** When the rest of the pattern follows the whole second run, the segment and that rest
      form the tail `SegAfter` returns. */
  lemma SegAfterHit(s: string, p: nat, from: nat, b: nat, rest: Tail, t: Tail)
    requires p + 1 < from && from + b <= |s| && s[p] == '/'
    requires AllIn(s, p + 1, from - 1, PathClass) && s[from - 1] != '\n'
    requires AllIn(s, from, from + b, PathClass)
    requires SegsThen(Written, s, from + b) == Some(rest) && TailOK(Written, s, from + b, rest)
    requires SegAfter(s, p, from, b) == Some(t)
    ensures TailOK(Written, s, p, t)
  {
    var q := from + b;
    assert t == Tail([q] + rest.segEnds, rest.queryEnd, rest.end);
    SegOf(s, p, from - 1, q);
    SegsCons(Written, s, p, q, rest);
  }

  /** A `/`, a run of `P`, any character but a line feed at `d` and another run of `P` form a
      segment. */
  lemma SegOf(s: string, p: nat, d: nat, q: nat)
    requires p < d < q <= |s| && s[p] == '/' && s[d] != '\n'
    requires AllIn(s, p + 1, d, PathClass) && AllIn(s, d + 1, q, PathClass)
    ensures Seg(Written, s, p, q)
  {
  }

  /** A segment from `p` to `q` in front of a tail from `q` is a tail from `p`. */
  lemma SegsCons(pat: Pattern, s: string, p: nat, q: nat, t: Tail)
    requires Seg(pat, s, p, q) && TailOK(pat, s, q, t)
    ensures TailOK(pat, s, p, Tail([q] + t.segEnds, t.queryEnd, t.end))
  {
    assert SegsEnd(p, [q] + t.segEnds) == SegsEnd(q, t.segEnds);
    assert ([q] + t.segEnds)[1..] == t.segEnds;
  }

  lemma {:induction false} PortDownSound(pat: Pattern, s: string, h: nat, n: nat, q: nat, t: Tail)
    requires h < |s| && s[h] == ':' && 0 < n && h + 1 + n <= |s| && AllIn(s, h + 1, h + 1 + n, DigitClass)
    requires PortDown(pat, s, h, n) == Some((q, t))
    ensures PortOK(s, h, q) && TailOK(pat, s, q, t)
    decreases n
  {
    if SegsThen(pat, s, h + 1 + n).Some? {
      assert q == h + 1 + n && SegsThen(pat, s, q) == Some(t);
      assert PortOK(s, h, q);
      SegsThenSound(pat, s, q, t);
    } else {
      PortDownMiss(pat, s, h, n, q, t);
      PortDownSound(pat, s, h, n - 1, q, t);
    }
  }

  /** When the rest cannot follow the port of `n` digits, `PortDown` returns what it returns
      for `n - 1`. */
  lemma PortDownMiss(pat: Pattern, s: string, h: nat, n: nat, q: nat, t: Tail)
    requires h < |s| && s[h] == ':' && 0 < n && h + 1 + n <= |s| && AllIn(s, h + 1, h + 1 + n, DigitClass)
    requires SegsThen(pat, s, h + 1 + n).None? && PortDown(pat, s, h, n) == Some((q, t))
    ensures 1 < n && AllIn(s, h + 1, h + 1 + (n - 1), DigitClass) && PortDown(pat, s, h, n - 1) == Some((q, t))
  {
  }

  /** What the port stage finds is an optional port followed by the rest of the pattern. */
  lemma PortThenSound(pat: Pattern, s: string, h: nat, q: nat, t: Tail)
    requires h <= |s| && PortThen(pat, s, h) == Some((q, t))
    ensures PortOK(s, h, q) && TailOK(pat, s, q, t)
  {
    if h < |s| && s[h] == ':' && Run(s, h + 1, DigitClass) > 0 && PortDown(pat, s, h, Run(s, h + 1, DigitClass)).Some? {
      PortDownSound(pat, s, h, Run(s, h + 1, DigitClass), q, t);
    } else {
      SegsThenSound(pat, s, h, t);
    }
  }

  lemma {:induction false} HostDownSound(pat: Pattern, s: string, hs: nat, n: nat, he: nat, q: nat, t: Tail)
    requires 0 < n && hs + n <= |s| && AllIn(s, hs, hs + n, HostClass)
    requires HostDown(pat, s, hs, n) == Some((he, q, t))
    ensures HostOK(s, hs, he) && PortOK(s, he, q) && TailOK(pat, s, q, t)
    decreases n
  {
    if PortThen(pat, s, hs + n).Some? {
      HostDownHit(pat, s, hs, n, he, q, t);
      PortThenSound(pat, s, hs + n, q, t);
    } else {
      HostDownMiss(pat, s, hs, n, he, q, t);
      HostDownSound(pat, s, hs, n - 1, he, q, t);
    }
  }

  /** When the port and the rest cannot follow the host name of `n` characters, `HostDown`
      returns what it returns for `n - 1`. */
  lemma HostDownMiss(pat: Pattern, s: string, hs: nat, n: nat, he: nat, q: nat, t: Tail)
    requires 0 < n && hs + n <= |s| && AllIn(s, hs, hs + n, HostClass)
    requires PortThen(pat, s, hs + n).None? && HostDown(pat, s, hs, n) == Some((he, q, t))
    ensures 1 < n && AllIn(s, hs, hs + (n - 1), HostClass) && HostDown(pat, s, hs, n - 1) == Some((he, q, t))
  {
  }

  /** When the port and the rest follow the host name of `n` characters, that is the host
      `HostDown` returns. */
  lemma HostDownHit(pat: Pattern, s: string, hs: nat, n: nat, he: nat, q: nat, t: Tail)
    requires 0 < n && hs + n <= |s| && AllIn(s, hs, hs + n, HostClass)
    requires PortThen(pat, s, hs + n).Some? && HostDown(pat, s, hs, n) == Some((he, q, t))
    ensures he == hs + n && HostOK(s, hs, he) && PortThen(pat, s, he) == Some((q, t))
  {
  }

  lemma BracketHostSound(pat: Pattern, s: string, hs: nat, he: nat, q: nat, t: Tail)
    requires hs < |s| && s[hs] == '[' && BracketHost(pat, s, hs) == Some((he, q, t))
    ensures HostOK(s, hs, he) && PortOK(s, he, q) && TailOK(pat, s, q, t)
  {
    var n := Run(s, hs + 1, BracketClass);
    if n > 0 && hs + 1 + n < |s| && s[hs + 1 + n] == ']' {
      BracketHostOK(s, hs, n);
      PortThenSound(pat, s, hs + 1 + n + 1, q, t);
    }
  }

  /** What the host stage finds is a host, an optional port and the rest of the pattern. */
  lemma HostThenSound(pat: Pattern, s: string, hs: nat, he: nat, q: nat, t: Tail)
    requires hs <= |s| && HostThen(pat, s, hs) == Some((he, q, t))
    ensures HostOK(s, hs, he) && PortOK(s, he, q) && TailOK(pat, s, q, t)
  {
    if Run(s, hs, HostClass) > 0 {
      HostDownSound(pat, s, hs, Run(s, hs, HostClass), he, q, t);
    } else {
      BracketHostSound(pat, s, hs, he, q, t);
    }
  }

  // ---------------------------------------------------------------- completeness

  /** A greedy run stops at the first character outside the class. */
  lemma {:induction false} RunStops(s: string, i: nat, j: nat, k: CharClass)
    requires i <= j < |s| && !InClass(s[j], k)
    ensures Run(s, i, k) <= j - i
    decreases j - i
  {
    if i < j && InClass(s[i], k) {
      RunStops(s, i + 1, j, k);
    }
  }

  lemma {:induction false} FragDownComplete(s: string, from: nat, n: nat, e: nat)
    requires from + n <= |s| && from <= e <= from + n && Boundary(s, e)
    ensures FragDown(s, from, n).Some?
    decreases n
  {
    if e < from + n {
      FragDownComplete(s, from, n - 1, e);
    }
  }

  /** If the fragment can end at `e`, the search finds a way to finish. */
  lemma FragThenComplete(s: string, p: nat, e: nat)
    requires FragOK(s, p, e) && Boundary(s, e)
    ensures FragThen(s, p).Some?
  {
    if e > p {
      RunBound(s, p + 1, e, QueryClass);
      FragDownComplete(s, p + 1, Run(s, p + 1, QueryClass), e);
    }
  }

  lemma {:induction false} QueryDownComplete(s: string, from: nat, n: nat, q: nat)
    requires from <= q <= from + n <= |s| && FragThen(s, q).Some?
    ensures QueryDown(s, from, n).Some?
    decreases n
  {
    if q < from + n {
      QueryDownComplete(s, from, n - 1, q);
    }
  }

  lemma QueryThenComplete(s: string, p: nat, q: nat)
    requires QueryOK(s, p, q) && FragThen(s, q).Some?
    ensures QueryThen(s, p).Some?
  {
    if q > p {
      RunBound(s, p + 1, q, QueryClass);
      QueryDownComplete(s, p + 1, Run(s, p + 1, QueryClass), q);
    }
  }

  lemma {:induction false} SegAfterComplete(s: string, p: nat, from: nat, b: nat, q: nat)
    requires p + 1 < from && from + b <= |s| && s[p] == '/'
    requires AllIn(s, p + 1, from - 1, PathClass) && s[from - 1] != '\n'
    requires AllIn(s, from, from + b, PathClass)
    requires from <= q <= from + b && SegsThen(Written, s, q).Some?
    ensures SegAfter(s, p, from, b).Some?
    decreases b
  {
    SegAfterStep(s, p, from, b);
    if q < from + b {
      SegAfterComplete(s, p, from, b - 1, q);
    }
  }

  /** `SegAfter` succeeds when the rest of the pattern can go on after the whole second run,
      or else when a shorter second run succeeds. */
  lemma SegAfterStep(s: string, p: nat, from: nat, b: nat)
    requires p + 1 < from && from + b <= |s| && s[p] == '/'
    requires AllIn(s, p + 1, from - 1, PathClass) && s[from - 1] != '\n'
    requires AllIn(s, from, from + b, PathClass)
    ensures SegsThen(Written, s, from + b).Some? ==> SegAfter(s, p, from, b).Some?
    ensures b > 0 && SegAfter(s, p, from, b - 1).Some? ==> SegAfter(s, p, from, b).Some?
  {
  }

  lemma {:induction false} SegDotComplete(s: string, p: nat, a: nat, d: nat)
    requires p < |s| && s[p] == '/' && p + 1 + a <= |s| && AllIn(s, p + 1, p + 1 + a, PathClass)
    requires p + 1 <= d <= p + 1 + a && d < |s| && s[d] != '\n' && AllIn(s, p + 1, d, PathClass)
    requires SegAfter(s, p, d + 1, Run(s, d + 1, PathClass)).Some?
    ensures SegDot(s, p, a).Some?
    decreases a
  {
    SegDotStep(s, p, a);
    if d < p + 1 + a {
      SegDotComplete(s, p, a - 1, d);
    }
  }

  /** `SegDot` succeeds when the `.` can follow the whole first run and the segment can go on
      from there, or else when a shorter first run succeeds. */
  lemma SegDotStep(s: string, p: nat, a: nat)
    requires p < |s| && s[p] == '/' && p + 1 + a <= |s| && AllIn(s, p + 1, p + 1 + a, PathClass)
    ensures var d := p + 1 + a;
      d < |s| && s[d] != '\n' && SegAfter(s, p, d + 1, Run(s, d + 1, PathClass)).Some? ==>
        SegDot(s, p, a).Some?
    ensures a > 0 && SegDot(s, p, a - 1).Some? ==> SegDot(s, p, a).Some?
  {
  }

  /** A segment from `p` to `q` with its `.` at `d`, after which the search can finish: the
      search from `p` can too. */
  lemma SegCompleteAt(s: string, p: nat, d: nat, q: nat)
    requires p < d < q <= |s| && s[p] == '/' && s[d] != '\n'
    requires AllIn(s, p + 1, d, PathClass) && AllIn(s, d + 1, q, PathClass)
    requires SegsThen(Written, s, q).Some?
    ensures SegsThen(Written, s, p).Some?
  {
    var a, b := Run(s, p + 1, PathClass), Run(s, d + 1, PathClass);
    RunBound(s, d + 1, q, PathClass);
    SegAfterComplete(s, p, d + 1, b, q);
    RunBound(s, p + 1, d, PathClass);
    SegDotComplete(s, p, a, d);
  }

  /** A segment from `p` to `q` after which the search can finish: the search from `p` can too. */
  lemma SegComplete(pat: Pattern, s: string, p: nat, q: nat)
    requires Seg(pat, s, p, q) && SegsThen(pat, s, q).Some?
    ensures SegsThen(pat, s, p).Some?
  {
    match pat
    case Written =>
      var d :| p < d < q && AllIn(s, p + 1, d, PathClass) && s[d] != '\n' && AllIn(s, d + 1, q, PathClass);
      SegCompleteAt(s, p, d, q);
    case Corrected =>
      RunBound(s, p + 1, q, SegmentClass);
      SegRunComplete(s, p, Run(s, p + 1, SegmentClass), q);
  }

  lemma {:induction false} SegRunComplete(s: string, p: nat, b: nat, q: nat)
    requires p < |s| && s[p] == '/' && p + 1 + b <= |s| && AllIn(s, p + 1, p + 1 + b, SegmentClass)
    requires p + 1 <= q <= p + 1 + b && SegsThen(Corrected, s, q).Some?
    ensures SegRun(s, p, b).Some?
    decreases b
  {
    SegRunStep(s, p, b);
    if q < p + 1 + b {
      SegRunComplete(s, p, b - 1, q);
    }
  }

  /** `SegRun` succeeds when the rest of the pattern can go on after the whole run, or else
      when a shorter run succeeds. */
  lemma SegRunStep(s: string, p: nat, b: nat)
    requires p < |s| && s[p] == '/' && p + 1 + b <= |s| && AllIn(s, p + 1, p + 1 + b, SegmentClass)
    ensures SegsThen(Corrected, s, p + 1 + b).Some? ==> SegRun(s, p, b).Some?
    ensures b > 0 && SegRun(s, p, b - 1).Some? ==> SegRun(s, p, b).Some?
  {
  }

  /** If the rest of the pattern can match from `p` in the parts `t` names, the search finds a
      way to finish. */
  lemma {:induction false} SegsThenComplete(pat: Pattern, s: string, p: nat, t: Tail)
    requires p <= |s| && TailOK(pat, s, p, t)
    ensures SegsThen(pat, s, p).Some?
    decreases |t.segEnds|
  {
    if t.segEnds == [] {
      FragThenComplete(s, t.queryEnd, t.end);
      QueryThenComplete(s, p, t.queryEnd);
    } else {
      var q := t.segEnds[0];
      var rest := Tail(t.segEnds[1..], t.queryEnd, t.end);
      assert SegsEnd(q, rest.segEnds) == SegsEnd(p, t.segEnds);
      assert TailOK(pat, s, q, rest);
      SegsThenComplete(pat, s, q, rest);
      SegComplete(pat, s, p, q);
    }
  }

  lemma {:induction false} PortDownComplete(pat: Pattern, s: string, h: nat, n: nat, q: nat)
    requires h < |s| && s[h] == ':' && 0 < n && h + 1 + n <= |s| && AllIn(s, h + 1, h + 1 + n, DigitClass)
    requires h + 2 <= q <= h + 1 + n && SegsThen(pat, s, q).Some?
    ensures PortDown(pat, s, h, n).Some?
    decreases n
  {
    PortDownStep(pat, s, h, n);
    if q < h + 1 + n {
      PortDownComplete(pat, s, h, n - 1, q);
    }
  }

  /** `PortDown` succeeds when the rest can follow all `n` digits, or else with fewer digits. */
  lemma PortDownStep(pat: Pattern, s: string, h: nat, n: nat)
    requires h < |s| && s[h] == ':' && 0 < n && h + 1 + n <= |s| && AllIn(s, h + 1, h + 1 + n, DigitClass)
    ensures SegsThen(pat, s, h + 1 + n).Some? ==> PortDown(pat, s, h, n).Some?
    ensures n > 1 && PortDown(pat, s, h, n - 1).Some? ==> PortDown(pat, s, h, n).Some?
  {
  }

  lemma PortThenComplete(pat: Pattern, s: string, h: nat, q: nat)
    requires PortOK(s, h, q) && SegsThen(pat, s, q).Some?
    ensures PortThen(pat, s, h).Some?
  {
    if q > h {
      RunBound(s, h + 1, q, DigitClass);
      PortDownComplete(pat, s, h, Run(s, h + 1, DigitClass), q);
    }
  }

  lemma {:induction false} HostDownComplete(pat: Pattern, s: string, hs: nat, n: nat, he: nat)
    requires 0 < n && hs + n <= |s| && AllIn(s, hs, hs + n, HostClass)
    requires hs < he <= hs + n && PortThen(pat, s, he).Some?
    ensures HostDown(pat, s, hs, n).Some?
    decreases n
  {
    HostDownStep(pat, s, hs, n);
    if he < hs + n {
      HostDownComplete(pat, s, hs, n - 1, he);
    }
  }

  /** `HostDown` succeeds when the port and the rest can follow all `n` characters, or else
      with fewer characters. */
  lemma HostDownStep(pat: Pattern, s: string, hs: nat, n: nat)
    requires 0 < n && hs + n <= |s| && AllIn(s, hs, hs + n, HostClass)
    ensures PortThen(pat, s, hs + n).Some? ==> HostDown(pat, s, hs, n).Some?
    ensures n > 1 && HostDown(pat, s, hs, n - 1).Some? ==> HostDown(pat, s, hs, n).Some?
  {
  }

  /** A bracketed address from `hs` to `he` after which the search can finish: the bracketed
      branch finds it. */
  lemma BracketHostComplete(pat: Pattern, s: string, hs: nat, he: nat)
    requires hs + 2 < he <= |s| && s[hs] == '[' && s[he - 1] == ']'
    requires AllIn(s, hs + 1, he - 1, BracketClass) && PortThen(pat, s, he).Some?
    ensures BracketHost(pat, s, hs).Some?
  {
    BracketRun(s, hs, he);
    BracketHostStep(pat, s, hs, he - hs - 2);
  }

  /** The run of hexadecimal digits and colons inside brackets stops at the `]`. */
  lemma BracketRun(s: string, hs: nat, he: nat)
    requires hs + 2 < he <= |s| && s[hs] == '[' && s[he - 1] == ']'
    requires AllIn(s, hs + 1, he - 1, BracketClass)
    ensures Run(s, hs + 1, BracketClass) == he - hs - 2
  {
    RunBound(s, hs + 1, he - 1, BracketClass);
    RunStops(s, hs + 1, he - 1, BracketClass);
  }

  /** With the run of hexadecimal digits and colons `n` long and followed by `]`, the bracketed
      branch succeeds when the port and the rest can follow the `]`. */
  lemma BracketHostStep(pat: Pattern, s: string, hs: nat, n: nat)
    requires hs < |s| && s[hs] == '[' && n == Run(s, hs + 1, BracketClass)
    requires 0 < n && hs + 1 + n < |s| && s[hs + 1 + n] == ']'
    ensures PortThen(pat, s, hs + n + 2).Some? ==> BracketHost(pat, s, hs).Some?
  {
  }

  lemma HostThenComplete(pat: Pattern, s: string, hs: nat, he: nat)
    requires HostOK(s, hs, he) && PortThen(pat, s, he).Some?
    ensures HostThen(pat, s, hs).Some?
  {
    if s[hs] == '[' {
      RunStops(s, hs, hs, HostClass);
      BracketHostComplete(pat, s, hs, he);
    } else {
      RunBound(s, hs, he, HostClass);
      HostDownComplete(pat, s, hs, Run(s, hs, HostClass), he);
    }
  }

  /** The search is complete: wherever the pattern can match, `MatchAt` finds a match. */
  lemma MatchAtComplete(pat: Pattern, s: string, m: UrlMatch)
    requires IsUrlMatch(pat, s, m)
    ensures MatchAt(pat, s, m.start).Some?
  {
    var t := Tail(m.segEnds, m.queryEnd, m.end);
    SegsThenComplete(pat, s, m.portEnd, t);
    PortThenComplete(pat, s, m.hostEnd, m.portEnd);
    HostThenComplete(pat, s, m.hostStart, m.hostEnd);
  }

  // ---------------------------------------------------------------- the re.sub scan

  /** A match lies inside the line and is never empty. */
  lemma MatchBounds(pat: Pattern, s: string, m: UrlMatch)
    requires IsUrlMatch(pat, s, m)
    ensures m.start + 7 <= m.hostStart < m.hostEnd <= m.portEnd <= m.end <= |s|
  {
    TailBound(pat, s, m.portEnd, Tail(m.segEnds, m.queryEnd, m.end));
  }

  /** `pattern.search(s, from)`: the match at the first position from `from` on where the
      pattern matches. */
  function NextMatch(pat: Pattern, s: string, from: nat): (r: Option<UrlMatch>)
    requires from <= |s|
    ensures r.Some? ==> from <= r.value.start && IsUrlMatch(pat, s, r.value) && MatchAt(pat, s, r.value.start) == r
    ensures forall st :: from <= st <= |s| && (r.None? || st < r.value.start) ==> MatchAt(pat, s, st).None?
    decreases |s| - from
  {
    var here := MatchAt(pat, s, from);
    if here.Some? then here
    else if from == |s| then None
    else NextMatch(pat, s, from + 1)
  }

  /** Nothing the pattern could match starts in the part of the line a search has passed over. */
  lemma NextMatchLeftmost(pat: Pattern, s: string, from: nat, m: UrlMatch)
    requires from <= |s| && IsUrlMatch(pat, s, m) && from <= m.start
    ensures NextMatch(pat, s, from).Some? && NextMatch(pat, s, from).value.start <= m.start
  {
    MatchAtComplete(pat, s, m);
  }

  /** Spans are inside the line, each after the previous one. */
  predicate Ordered(s: string, from: nat, spans: seq<UrlMatch>)
  {
    (forall i :: 0 <= i < |spans| ==> from <= spans[i].start <= spans[i].end <= |s|)
    && (forall i, j :: 0 <= i < j < |spans| ==> spans[i].end <= spans[j].start)
  }

  /** The matches `re.sub` replaces in `s[from..]`, left to right: each search starts where the
      previous match ended. */
  function Spans(pat: Pattern, s: string, from: nat): (r: seq<UrlMatch>)
    requires from <= |s|
    ensures Ordered(s, from, r)
    decreases |s| - from
  {
    match NextMatch(pat, s, from)
    case None => []
    case Some(m) =>
      MatchBounds(pat, s, m);
      var rest := Spans(pat, s, m.end);
      SpansCons(s, from, m, rest);
      [m] + rest
  }

  /** A span followed by spans after it is an ordered list of spans. */
  lemma SpansCons(s: string, from: nat, m: UrlMatch, rest: seq<UrlMatch>)
    requires from <= m.start <= m.end <= |s| && Ordered(s, m.end, rest)
    ensures Ordered(s, from, [m] + rest)
  {
    assert forall i :: 0 < i < |rest| + 1 ==> ([m] + rest)[i] == rest[i - 1];
  }

  /** Every span the scan finds is a match of the pattern. */
  lemma {:induction false} SpansAreMatches(pat: Pattern, s: string, from: nat)
    requires from <= |s|
    ensures forall i :: 0 <= i < |Spans(pat, s, from)| ==> IsUrlMatch(pat, s, Spans(pat, s, from)[i])
    decreases |s| - from
  {
    if NextMatch(pat, s, from).Some? {
      var m := NextMatch(pat, s, from).value;
      MatchBounds(pat, s, m);
      var rest := Spans(pat, s, m.end);
      assert Spans(pat, s, from) == [m] + rest;
      SpansAreMatches(pat, s, m.end);
      MatchesCons(pat, s, m, rest);
    }
  }

  /** A match followed by matches is a list of matches. */
  lemma MatchesCons(pat: Pattern, s: string, m: UrlMatch, rest: seq<UrlMatch>)
    requires IsUrlMatch(pat, s, m)
    requires forall i :: 0 <= i < |rest| ==> IsUrlMatch(pat, s, rest[i])
    ensures forall i :: 0 <= i < |[m] + rest| ==> IsUrlMatch(pat, s, ([m] + rest)[i])
  {
    assert forall i :: 0 < i < |rest| + 1 ==> ([m] + rest)[i] == rest[i - 1];
  }

  /** `pattern.sub(replace_url, s)` from position `from`: the text before each match is copied,
      the match is replaced by `redact_url_parameters` of its text, and the scan goes on after it. */
  function Rewrite(pat: Pattern, s: string, from: nat, names: seq<string>, token: string): string
    requires from <= |s|
    decreases |s| - from
  {
    match NextMatch(pat, s, from)
    case None => s[from..]
    case Some(m) =>
      MatchBounds(pat, s, m);
      s[from..m.start] + RedactUrl(s[m.start..m.end], names, token) + Rewrite(pat, s, m.end, names, token)
  }

  /** `process_line(line, names, token)`. */
  function ProcessLine(pat: Pattern, line: string, names: seq<string>, token: string): string
  {
    Rewrite(pat, line, 0, names, token)
  }

  /** `s[from..]` with every span replaced by its replacement and the text around them copied. */
  function Splice(s: string, from: nat, spans: seq<UrlMatch>, reps: seq<string>): string
    requires from <= |s| && |reps| == |spans| && Ordered(s, from, spans)
    decreases |spans|
  {
    if spans == [] then s[from..]
    else
      assert Ordered(s, spans[0].end, spans[1..]) by {
        assert forall i :: 0 <= i < |spans| - 1 ==> spans[1..][i] == spans[i + 1];
      }
      s[from..spans[0].start] + reps[0] + Splice(s, spans[0].end, spans[1..], reps[1..])
  }

  /** The text of every span. */
  function Texts(s: string, spans: seq<UrlMatch>): (r: seq<string>)
    requires Ordered(s, 0, spans)
    ensures |r| == |spans|
    ensures forall i :: 0 <= i < |spans| ==> r[i] == s[spans[i].start..spans[i].end]
  {
    seq(|spans|, i requires 0 <= i < |spans| => s[spans[i].start..spans[i].end])
  }

  /** The redacted text of every span. */
  function Redactions(s: string, spans: seq<UrlMatch>, names: seq<string>, token: string): (r: seq<string>)
    requires Ordered(s, 0, spans)
    ensures |r| == |spans|
    ensures forall i :: 0 <= i < |spans| ==> r[i] == RedactUrl(s[spans[i].start..spans[i].end], names, token)
  {
    seq(|spans|, i requires 0 <= i < |spans| => RedactUrl(s[spans[i].start..spans[i].end], names, token))
  }

  // ---------------------------------------------------------------- what process_line does

  /** `re.sub` replaces exactly the spans of the scan, each by the redaction of its own text. */
  lemma {:induction false} RewriteIsSplice(pat: Pattern, s: string, from: nat, names: seq<string>, token: string)
    requires from <= |s|
    ensures Rewrite(pat, s, from, names, token) ==
      Splice(s, from, Spans(pat, s, from), Redactions(s, Spans(pat, s, from), names, token))
    decreases |s| - from
  {
    if NextMatch(pat, s, from).Some? {
      var m := NextMatch(pat, s, from).value;
      MatchBounds(pat, s, m);
      RewriteIsSplice(pat, s, m.end, names, token);
      RewriteSpliceStep(pat, s, from, names, token);
    } else {
      assert Spans(pat, s, from) == [] && Rewrite(pat, s, from, names, token) == s[from..];
    }
  }

  /** The inductive step of `RewriteIsSplice`: if the scan after the first match splices, so
      does the scan from `from`. */
  lemma RewriteSpliceStep(pat: Pattern, s: string, from: nat, names: seq<string>, token: string)
    requires from <= |s| && NextMatch(pat, s, from).Some?
    requires var m := NextMatch(pat, s, from).value;
      m.end <= |s| &&
      Rewrite(pat, s, m.end, names, token) == Splice(s, m.end, Spans(pat, s, m.end), Redactions(s, Spans(pat, s, m.end), names, token))
    ensures Rewrite(pat, s, from, names, token) ==
      Splice(s, from, Spans(pat, s, from), Redactions(s, Spans(pat, s, from), names, token))
  {
    var m := NextMatch(pat, s, from).value;
    ScanStep(pat, s, from, names, token);
    SpliceFirst(s, from, m, Spans(pat, s, m.end), names, token);
  }

  /** Splicing the redactions of one span followed by later spans: the text before the span,
      its redaction, and the splice of the later spans. */
  lemma SpliceFirst(s: string, from: nat, m: UrlMatch, rest: seq<UrlMatch>, names: seq<string>, token: string)
    requires from <= m.start <= m.end <= |s| && Ordered(s, m.end, rest)
    ensures Ordered(s, from, [m] + rest) && Ordered(s, 0, rest)
    ensures Splice(s, from, [m] + rest, Redactions(s, [m] + rest, names, token)) ==
      s[from..m.start] + RedactUrl(s[m.start..m.end], names, token) +
      Splice(s, m.end, rest, Redactions(s, rest, names, token))
  {
    var spans := [m] + rest;
    SpansCons(s, from, m, rest);
    assert spans[0] == m && spans[1..] == rest;
    RedactionsCons(s, spans, names, token);
    SpliceCons(s, from, spans, Redactions(s, spans, names, token));
  }

  /** A line whose only match starts it: the match is redacted and the rest is copied. */
  lemma RewriteFromStart(pat: Pattern, s: string, m: UrlMatch, names: seq<string>, token: string)
    requires NextMatch(pat, s, 0) == Some(m) && m.start == 0 && NextMatch(pat, s, m.end).None?
    ensures m.end <= |s|
    ensures ProcessLine(pat, s, names, token) == RedactUrl(s[..m.end], names, token) + s[m.end..]
  {
    MatchBounds(pat, s, m);
    var a, b := s[..m.start], s[m.start..m.end];
    assert a == [] && b == s[..m.end];
    assert a + RedactUrl(b, names, token) == RedactUrl(s[..m.end], names, token);
    RewriteOne(pat, s, m, names, token);
  }

  /** One step of the scan: the next match is the first span, and `re.sub` copies the text
      before it and replaces it. */
  lemma ScanStep(pat: Pattern, s: string, from: nat, names: seq<string>, token: string)
    requires from <= |s| && NextMatch(pat, s, from).Some?
    ensures var m := NextMatch(pat, s, from).value;
      && from <= m.start <= m.end <= |s|
      && Spans(pat, s, from) == [m] + Spans(pat, s, m.end)
      && Spans(pat, s, from)[0] == m && Spans(pat, s, from)[1..] == Spans(pat, s, m.end)
      && Rewrite(pat, s, from, names, token) ==
           s[from..m.start] + RedactUrl(s[m.start..m.end], names, token) + Rewrite(pat, s, m.end, names, token)
  {
    MatchBounds(pat, s, NextMatch(pat, s, from).value);
  }

  /** The redactions of a list of spans, split after the first. */
  lemma RedactionsCons(s: string, spans: seq<UrlMatch>, names: seq<string>, token: string)
    requires Ordered(s, 0, spans) && spans != []
    ensures Ordered(s, 0, spans[1..])
    ensures var r := Redactions(s, spans, names, token);
      && r[0] == RedactUrl(s[spans[0].start..spans[0].end], names, token)
      && r[1..] == Redactions(s, spans[1..], names, token)
  {
    assert forall i :: 0 <= i < |spans| - 1 ==> spans[1..][i] == spans[i + 1];
    var r, r1 := Redactions(s, spans, names, token), Redactions(s, spans[1..], names, token);
    forall i | 0 <= i < |r1|
      ensures r[1..][i] == r1[i]
    {
      assert spans[1..][i] == spans[i + 1];
    }
    assert r[1..] == r1;
  }

  /** `Splice` unfolded once. */
  lemma SpliceCons(s: string, from: nat, spans: seq<UrlMatch>, reps: seq<string>)
    requires from <= |s| && |reps| == |spans| && Ordered(s, from, spans) && spans != []
    ensures Ordered(s, spans[0].end, spans[1..])
    ensures Splice(s, from, spans, reps) ==
      s[from..spans[0].start] + reps[0] + Splice(s, spans[0].end, spans[1..], reps[1..])
  {
    assert forall i :: 0 <= i < |spans| - 1 ==> spans[1..][i] == spans[i + 1];
  }

  /** Putting the matched text back into the gaps gives the line back: everything outside the
      spans is copied verbatim and in order. */
  lemma {:induction false} SpliceTexts(s: string, from: nat, spans: seq<UrlMatch>)
    requires from <= |s| && Ordered(s, from, spans)
    ensures Splice(s, from, spans, Texts(s, spans)) == s[from..]
    decreases |spans|
  {
    if spans != [] {
      var m := spans[0];
      assert Ordered(s, m.end, spans[1..]) by {
        assert forall i :: 0 <= i < |spans| - 1 ==> spans[1..][i] == spans[i + 1];
      }
      SpliceTexts(s, m.end, spans[1..]);
      assert Texts(s, spans)[1..] == Texts(s, spans[1..]);
      assert s[from..m.start] + s[m.start..m.end] + s[m.end..] == s[from..];
    }
  }

  /** `process_line` copies the text outside the URL spans and replaces each span by
      `redact_url_parameters` of it. */
  lemma ProcessLineSplices(pat: Pattern, line: string, names: seq<string>, token: string)
    ensures var spans := Spans(pat, line, 0);
      && ProcessLine(pat, line, names, token) == Splice(line, 0, spans, Redactions(line, spans, names, token))
      && Splice(line, 0, spans, Texts(line, spans)) == line
  {
    RewriteIsSplice(pat, line, 0, names, token);
    SpliceTexts(line, 0, Spans(pat, line, 0));
  }

  /** When the redactor leaves every span as it is, the line comes back unchanged. */
  lemma FixedSpansUnchanged(pat: Pattern, line: string, names: seq<string>, token: string)
    requires forall m :: m in Spans(pat, line, 0) ==> RedactUrl(line[m.start..m.end], names, token) == line[m.start..m.end]
    ensures ProcessLine(pat, line, names, token) == line
  {
    var spans := Spans(pat, line, 0);
    forall i | 0 <= i < |spans|
      ensures RedactUrl(line[spans[i].start..spans[i].end], names, token) == line[spans[i].start..spans[i].end]
    {
      assert spans[i] in spans;
    }
    RedactionsFixed(line, spans, names, token);
    ProcessLineSplices(pat, line, names, token);
  }

  /** When redaction leaves every span as it is, the redactions are the texts. */
  lemma RedactionsFixed(s: string, spans: seq<UrlMatch>, names: seq<string>, token: string)
    requires Ordered(s, 0, spans)
    requires forall i :: 0 <= i < |spans| ==>
      RedactUrl(s[spans[i].start..spans[i].end], names, token) == s[spans[i].start..spans[i].end]
    ensures Redactions(s, spans, names, token) == Texts(s, spans)
  {
  }

  /** `http://` or `https://` at position `i`. */
  predicate HttpAt(s: string, i: nat)
  {
    (i + 7 <= |s| && s[i..i + 7] == "http://") || (i + 8 <= |s| && s[i..i + 8] == "https://")
  }

  /** Every replaced span begins with `http://` or `https://`. */
  lemma SpansBeginWithScheme(pat: Pattern, s: string, from: nat)
    requires from <= |s|
    ensures forall m :: m in Spans(pat, s, from) ==> HttpAt(s, m.start)
  {
    var spans := Spans(pat, s, from);
    SpansAreMatches(pat, s, from);
    forall m | m in spans
      ensures HttpAt(s, m.start)
    {
      var i :| 0 <= i < |spans| && spans[i] == m;
      SchemeHttp(s, m.start, m.hostStart);
    }
  }

  /** The scheme part of a match is `http://` or `https://`. */
  lemma SchemeHttp(s: string, st: nat, hs: nat)
    requires SchemeOK(s, st, hs)
    ensures HttpAt(s, st)
  {
  }

  /** A line with no `http://` or `https://` in it comes back unchanged. */
  lemma NoSchemeUnchanged(pat: Pattern, line: string, names: seq<string>, token: string)
    requires forall i :: 0 <= i <= |line| ==> !HttpAt(line, i)
    ensures ProcessLine(pat, line, names, token) == line
  {
    var r := NextMatch(pat, line, 0);
    assert r.Some? ==> HttpAt(line, r.value.start);
    assert line[0..] == line;
  }

  /** Every place where the pattern could match lies inside one of the replaced spans: the scan
      misses nothing, and a span only hides matches that would overlap it. */
  lemma {:induction false} SpansCoverMatches(pat: Pattern, s: string, from: nat, m: UrlMatch)
    requires from <= |s| && IsUrlMatch(pat, s, m) && from <= m.start
    ensures exists i :: 0 <= i < |Spans(pat, s, from)| && Spans(pat, s, from)[i].start <= m.start < Spans(pat, s, from)[i].end
    decreases |s| - from
  {
    NextMatchLeftmost(pat, s, from, m);
    var n := NextMatch(pat, s, from).value;
    MatchBounds(pat, s, n);
    MatchBounds(pat, s, m);
    if m.start >= n.end {
      SpansCoverMatches(pat, s, n.end, m);
      CoverLater(pat, s, from, m.start);
    } else {
      CoverFirst(pat, s, from, m.start);
    }
  }

  /** A position inside the next match is covered by the first span. */
  lemma CoverFirst(pat: Pattern, s: string, from: nat, k: nat)
    requires from <= |s| && NextMatch(pat, s, from).Some?
    requires NextMatch(pat, s, from).value.start <= k < NextMatch(pat, s, from).value.end
    ensures exists i :: 0 <= i < |Spans(pat, s, from)| && Spans(pat, s, from)[i].start <= k < Spans(pat, s, from)[i].end
  {
    SpansStep(pat, s, from);
  }

  /** A position covered by a span of the scan after the next match is covered by a span of the
      scan from `from`. */
  lemma CoverLater(pat: Pattern, s: string, from: nat, k: nat)
    requires from <= |s| && NextMatch(pat, s, from).Some?
    requires var n := NextMatch(pat, s, from).value;
      n.end <= |s| &&
      exists i :: 0 <= i < |Spans(pat, s, n.end)| && Spans(pat, s, n.end)[i].start <= k < Spans(pat, s, n.end)[i].end
    ensures exists i :: 0 <= i < |Spans(pat, s, from)| && Spans(pat, s, from)[i].start <= k < Spans(pat, s, from)[i].end
  {
    var n := NextMatch(pat, s, from).value;
    SpansStep(pat, s, from);
    var rest := Spans(pat, s, n.end);
    var i :| 0 <= i < |rest| && rest[i].start <= k < rest[i].end;
    assert Spans(pat, s, from)[i + 1] == rest[i];
  }

  /** The scan unfolded once: the next match is the first span, and the scan resumes after it. */
  lemma SpansStep(pat: Pattern, s: string, from: nat)
    requires from <= |s| && NextMatch(pat, s, from).Some?
    ensures var m := NextMatch(pat, s, from).value;
      && from <= m.start <= m.end <= |s|
      && |Spans(pat, s, from)| == |Spans(pat, s, m.end)| + 1
      && Spans(pat, s, from)[0] == m
      && forall i :: 0 <= i < |Spans(pat, s, m.end)| ==> Spans(pat, s, from)[i + 1] == Spans(pat, s, m.end)[i]
  {
    var m := NextMatch(pat, s, from).value;
    MatchBounds(pat, s, m);
    var rest := Spans(pat, s, m.end);
    assert Spans(pat, s, from) == [m] + rest;
    SeqConsIndex(m, rest);
  }

  lemma SeqConsIndex<T>(x: T, xs: seq<T>)
    ensures forall i :: 0 <= i < |xs| ==> ([x] + xs)[i + 1] == xs[i]
  {
  }

  /** The unescaped `.` of a path segment takes any character but a line feed, so a match can
      run across a space: in `http://a.com/x y` the written search takes the whole text as one
      URL, and `process_line` hands all of it to redaction. */
  lemma DotTakesSpace(names: seq<string>, token: string)
    ensures MatchAt(Written, "http://a.com/x y", 0) == Some(UrlMatch(0, 7, 12, 12, [16], 16, 16))
    ensures ProcessLine(Written, "http://a.com/x y", names, token)
      == RedactUrl("http://a.com/x y", names, token)
  {
    var s := "http://a.com/x y";
    assert s[..0] == [] && s[0..|s|] == s && s[|s|..] == [];
    DotSpaceMatch();
    var m := UrlMatch(0, 7, 12, 12, [16], 16, 16);
    NextMatchAt(Written, s, 0, 0);
    NoMatchFrom(Written, s, 16);
    RewriteOne(Written, s, m, names, token);
  }

  /** The written search on `http://a.com/x y`, stage by stage: no fragment, no query, one
      segment whose `.` is the space, no port, the whole host. */
  lemma DotSpaceMatch()
    ensures MatchAt(Written, "http://a.com/x y", 0) == Some(UrlMatch(0, 7, 12, 12, [16], 16, 16))
  {
    var s := "http://a.com/x y";
    DotSpaceShape();
    FragThenAt(s, 16);
    QueryThenNone(s, 16);
    SegsThenStop(Written, s, 16, 16, 16);
    SegDotWhole(s, 12, 14, 16, Tail([], 16, 16));
    assert [16] + [] == [16];
    var t := Tail([16], 16, 16);
    PortThenSkip(Written, s, 12, t);
    HostThenWhole(Written, s, 7, 12, 12, t);
    MatchAtWhole(Written, s, 0, 7, 12, 12, t);
  }

  /** Where the parts of `http://a.com/x y` lie. */
  lemma DotSpaceShape()
    ensures var s := "http://a.com/x y";
      && |s| == 16 && SchemeOK(s, 0, 7) && Boundary(s, 0) && Boundary(s, 16)
      && AllIn(s, 7, 12, HostClass) && !InClass(s[12], HostClass) && s[12] == '/'
      && AllIn(s, 13, 14, PathClass) && s[14] == ' ' && !InClass(s[14], PathClass)
      && AllIn(s, 15, 16, PathClass)
  {
    var s := "http://a.com/x y";
    assert s[0..7] == "http://";
  }

  /** With two path segments the `.` of the first takes the second `/`, and the segment ends
      at the `?`: in `http://a.com/a/b?k=v` the query is matched with the rest, and the whole
      text is handed to redaction. */
  lemma DotTakesSlash(names: seq<string>, token: string)
    ensures MatchAt(Written, "http://a.com/a/b?k=v", 0) == Some(UrlMatch(0, 7, 12, 12, [16], 20, 20))
    ensures ProcessLine(Written, "http://a.com/a/b?k=v", names, token)
      == RedactUrl("http://a.com/a/b?k=v", names, token)
  {
    var s := "http://a.com/a/b?k=v";
    assert s[..0] == [] && s[0..|s|] == s && s[|s|..] == [];
    DotSlashMatch();
    var m := UrlMatch(0, 7, 12, 12, [16], 20, 20);
    NextMatchAt(Written, s, 0, 0);
    NoMatchFrom(Written, s, 20);
    RewriteOne(Written, s, m, names, token);
  }

  /** The written search on `http://a.com/a/b?k=v`: a query to the end, one segment whose `.`
      is the second `/`, no port, the whole host. */
  lemma DotSlashMatch()
    ensures MatchAt(Written, "http://a.com/a/b?k=v", 0) == Some(UrlMatch(0, 7, 12, 12, [16], 20, 20))
  {
    var s := "http://a.com/a/b?k=v";
    DotSlashShape();
    FragThenAt(s, 20);
    QueryThenWhole(s, 16, 20);
    SegsThenStop(Written, s, 16, 20, 20);
    SegDotWhole(s, 12, 14, 16, Tail([], 20, 20));
    assert [16] + [] == [16];
    var t := Tail([16], 20, 20);
    PortThenSkip(Written, s, 12, t);
    HostThenWhole(Written, s, 7, 12, 12, t);
    MatchAtWhole(Written, s, 0, 7, 12, 12, t);
  }

  /** Where the parts of `http://a.com/a/b?k=v` lie. */
  lemma DotSlashShape()
    ensures var s := "http://a.com/a/b?k=v";
      && |s| == 20 && SchemeOK(s, 0, 7) && Boundary(s, 0) && Boundary(s, 20)
      && AllIn(s, 7, 12, HostClass) && !InClass(s[12], HostClass) && s[12] == '/'
      && AllIn(s, 13, 14, PathClass) && s[14] == '/' && !InClass(s[14], PathClass)
      && AllIn(s, 15, 16, PathClass) && s[16] == '?' && !InClass(s[16], PathClass)
      && AllIn(s, 17, 20, QueryClass)
  {
    var s := "http://a.com/a/b?k=v";
    assert s[0..7] == "http://";
  }

  /** Once the `.` of a segment has taken a `/`, a literal dot later in the segment ends the
      match: in `http://a.com/a/x.y?k=v` only `http://a.com/a/x` is redacted and `.y?k=v`,
      query included, stays in the line as it was. */
  lemma FileDotCutsMatch(names: seq<string>, token: string)
    ensures MatchAt(Written, "http://a.com/a/x.y?k=v", 0) == Some(UrlMatch(0, 7, 12, 12, [16], 16, 16))
    ensures var s := "http://a.com/a/x.y?k=v";
      && ProcessLine(Written, s, names, token) == RedactUrl(s[..16], names, token) + s[16..]
      && s[..16] == "http://a.com/a/x" && s[16..] == ".y?k=v"
  {
    var s := "http://a.com/a/x.y?k=v";
    FileDotMatch();
    var m := UrlMatch(0, 7, 12, 12, [16], 16, 16);
    NextMatchAt(Written, s, 0, 0);
    FileDotRest();
    NoMatchFrom(Written, s, 16);
    RewriteFromStart(Written, s, m, names, token);
    FileDotSlices();
  }

  /** The two sides of the cut in `http://a.com/a/x.y?k=v`. */
  lemma FileDotSlices()
    ensures var s := "http://a.com/a/x.y?k=v";
      s[..16] == "http://a.com/a/x" && s[16..] == ".y?k=v"
  {
    var s := "http://a.com/a/x.y?k=v";
    assert s[..16] == "http://a.com/a/x";
    assert s[16..] == ".y?k=v";
  }

  /** No `http://` or `https://` starts after the cut in `http://a.com/a/x.y?k=v`. */
  lemma FileDotRest()
    ensures var s := "http://a.com/a/x.y?k=v";
      forall i :: 16 <= i <= |s| ==> !HttpAt(s, i)
  {
    var s := "http://a.com/a/x.y?k=v";
    NoHttpIn(s, 16, |s| + 1);
  }

  /** The written search on `http://a.com/a/x.y?k=v`: no query and no fragment at the dot, one
      segment whose `.` is the second `/`, no port, the whole host. */
  lemma FileDotMatch()
    ensures MatchAt(Written, "http://a.com/a/x.y?k=v", 0) == Some(UrlMatch(0, 7, 12, 12, [16], 16, 16))
  {
    var s := "http://a.com/a/x.y?k=v";
    FileDotShape();
    FragThenAt(s, 16);
    QueryThenNone(s, 16);
    SegsThenStop(Written, s, 16, 16, 16);
    SegDotWhole(s, 12, 14, 16, Tail([], 16, 16));
    assert [16] + [] == [16];
    var t := Tail([16], 16, 16);
    PortThenSkip(Written, s, 12, t);
    HostThenWhole(Written, s, 7, 12, 12, t);
    MatchAtWhole(Written, s, 0, 7, 12, 12, t);
  }

  /** Where the parts of `http://a.com/a/x.y?k=v` lie. */
  lemma FileDotShape()
    ensures var s := "http://a.com/a/x.y?k=v";
      && |s| == 22 && SchemeOK(s, 0, 7) && Boundary(s, 0) && Boundary(s, 16)
      && AllIn(s, 7, 12, HostClass) && !InClass(s[12], HostClass) && s[12] == '/'
      && AllIn(s, 13, 14, PathClass) && s[14] == '/' && !InClass(s[14], PathClass)
      && AllIn(s, 15, 16, PathClass) && s[16] == '.' && !InClass(s[16], PathClass)
  {
    var s := "http://a.com/a/x.y?k=v";
    assert s[0..7] == "http://";
  }

  // ---------------------------------------------------------------- a located URL parses

  /** What a host and a port are made of. */
  predicate IsHostPortChar(c: char)
  {
    IsAsciiAlnum(c) || c == '.' || c == '-' || c == ':' || c == '[' || c == ']'
  }

  lemma HostChars(s: string, hs: nat, he: nat)
    requires HostOK(s, hs, he)
    ensures forall k :: hs <= k < he ==> IsHostPortChar(s[k])
    ensures s[hs] == '[' ==> s[he - 1] == ']'
    ensures s[hs] != '[' ==> forall k :: hs <= k < he ==> s[k] != '[' && s[k] != ']'
  {
    if s[hs] == '[' {
      assert !InClass(s[hs], HostClass);
      assert forall k :: hs < k < he - 1 ==> InClass(s[k], BracketClass);
    } else {
      assert forall k :: hs <= k < he ==> InClass(s[k], HostClass);
    }
  }

  lemma PortChars(s: string, h: nat, q: nat)
    requires PortOK(s, h, q)
    ensures forall k :: h <= k < q ==> s[k] == ':' || IsDigit(s[k])
  {
    assert forall k :: h < k < q ==> InClass(s[k], DigitClass);
  }

  /** The host and port of a match make a network location `urlsplit` accepts. */
  lemma MatchedNetloc(pat: Pattern, s: string, m: UrlMatch)
    requires IsUrlMatch(pat, s, m)
    ensures m.hostStart < m.portEnd <= |s|
    ensures var net := s[m.hostStart..m.portEnd];
      && NoUnsafe(net) && (forall k :: 0 <= k < |net| ==> !IsNetlocDelimiter(net[k]))
      && ('[' in net) == (']' in net)
  {
    MatchBounds(pat, s, m);
    HostPortNetloc(s, m.hostStart, m.hostEnd, m.portEnd);
  }

  /** A host and a port make a network location `urlsplit` accepts. */
  lemma HostPortNetloc(s: string, hs: nat, he: nat, pe: nat)
    requires HostOK(s, hs, he) && PortOK(s, he, pe)
    ensures var net := s[hs..pe];
      && NoUnsafe(net) && (forall k :: 0 <= k < |net| ==> !IsNetlocDelimiter(net[k]))
      && ('[' in net) == (']' in net)
  {
    var net := s[hs..pe];
    HostChars(s, hs, he);
    PortChars(s, he, pe);
    assert forall k :: 0 <= k < |net| ==> net[k] == s[hs + k];
    assert forall k :: 0 <= k < |net| ==> IsHostPortChar(net[k]);
    if s[hs] == '[' {
      assert net[0] == '[' && net[he - 1 - hs] == ']';
    } else {
      assert forall k :: 0 <= k < |net| ==> net[k] != '[' && net[k] != ']';
    }
  }

  /** After the port comes a path segment, a query, a fragment or the end of the match. */
  lemma TailStart(pat: Pattern, s: string, m: UrlMatch)
    requires IsUrlMatch(pat, s, m)
    ensures m.portEnd <= m.end <= |s|
    ensures m.portEnd < m.end ==> IsNetlocDelimiter(s[m.portEnd])
  {
    MatchBounds(pat, s, m);
    TailBound(pat, s, m.portEnd, Tail(m.segEnds, m.queryEnd, m.end));
  }

  /** Every URL the pattern finds is one `urlparse` accepts, with the matched scheme and with
      the matched host and port as its network location; so `redact_url_parameters` never
      falls back on it. */
  lemma MatchedSpanParses(pat: Pattern, s: string, m: UrlMatch)
    requires IsUrlMatch(pat, s, m)
    ensures m.start < m.hostStart < m.portEnd <= m.end <= |s|
    ensures var p := UrlParse(s[m.start..m.end]);
      && p.Some?
      && p.value.scheme == (if m.hostStart == m.start + 8 then "https" else "http")
      && p.value.netloc == s[m.hostStart..m.portEnd]
      && p.value.netloc != ""
  {
    MatchBounds(pat, s, m);
    MatchedNetloc(pat, s, m);
    TailStart(pat, s, m);
    var scheme := if m.hostStart == m.start + 8 then "https" else "http";
    var net := s[m.hostStart..m.portEnd];
    var rest := s[m.portEnd..m.end];
    SchemeText(s, m.start, m.hostStart);
    SliceSplit(s, m.start, m.hostStart, m.portEnd, m.end);
    assert rest != [] ==> rest[0] == s[m.portEnd];
    ParseOfNetlocUrl(scheme, net, rest);
  }

  /** The text of the scheme part of a match. */
  lemma SchemeText(s: string, st: nat, hs: nat)
    requires SchemeOK(s, st, hs)
    ensures s[st..hs] == (if hs == st + 8 then "https" else "http") + "://"
  {
  }

  lemma SliceSplit(s: string, a: nat, b: nat, c: nat, d: nat)
    requires a <= b <= c <= d <= |s|
    ensures s[a..d] == s[a..b] + s[b..c] + s[c..d]
  {
  }

  /** In every URL `process_line` replaces, each configured name that was a parameter now has
      the token as its only value, and every other parameter keeps its values. */
  lemma LocatedUrlRedacted(pat: Pattern, s: string, m: UrlMatch, names: seq<string>, token: string, name: string)
    requires IsUrlMatch(pat, s, m) && token != ""
    ensures m.start <= m.end <= |s| && UrlParse(s[m.start..m.end]).Some?
    ensures UrlParse(RedactUrl(s[m.start..m.end], names, token)).Some?
    ensures var before := ParseQs(UrlParse(s[m.start..m.end]).value.query);
      Lookup(ParseQs(UrlParse(RedactUrl(s[m.start..m.end], names, token)).value.query), name) ==
        if Lookup(before, name).Some? && name in names then Some([token]) else Lookup(before, name)
  {
    MatchedSpanParses(pat, s, m);
    RedactUrlHidesNames(s[m.start..m.end], names, token, name);
  }

  // ---------------------------------------------------------------- the search on a URL standing alone

  /** With no `#` to start a fragment, the fragment stage ends where it starts when `\b` holds
      there. */
  lemma FragThenAt(s: string, e: nat)
    requires e <= |s| && (e == |s| || s[e] != '#') && Boundary(s, e)
    ensures FragThen(s, e) == Some(e)
  {
  }

  /** A `?` and query characters up to where the query run stops, followed by the end of the
      pattern: the query stage takes the whole run. */
  lemma QueryThenWhole(s: string, p: nat, e: nat)
    requires p < e <= |s| && s[p] == '?' && AllIn(s, p + 1, e, QueryClass)
    requires (e == |s| || !InClass(s[e], QueryClass)) && FragThen(s, e) == Some(e)
    ensures QueryThen(s, p) == Some((e, e))
  {
    RunBound(s, p + 1, e, QueryClass);
    if e < |s| {
      RunStops(s, p + 1, e, QueryClass);
    }
  }

  /** Without a `?`, the query stage is skipped. */
  lemma QueryThenNone(s: string, p: nat)
    requires p <= |s| && (p == |s| || s[p] != '?') && FragThen(s, p) == Some(p)
    ensures QueryThen(s, p) == Some((p, p))
  {
  }

  /** Without a `/`, the path stage ends and the query stage goes on. */
  lemma SegsThenStop(pat: Pattern, s: string, p: nat, q: nat, e: nat)
    requires p <= |s| && (p == |s| || s[p] != '/') && QueryThen(s, p) == Some((q, e))
    ensures SegsThen(pat, s, p) == Some(Tail([], q, e))
  {
  }

  /** A corrected segment up to where its run stops, followed by the rest of the pattern: the
      search takes the whole run. */
  lemma SegRunWhole(s: string, p: nat, q: nat, t: Tail)
    requires p < q <= |s| && s[p] == '/' && AllIn(s, p + 1, q, SegmentClass)
    requires (q == |s| || !InClass(s[q], SegmentClass)) && SegsThen(Corrected, s, q) == Some(t)
    ensures SegsThen(Corrected, s, p) == Some(Tail([q] + t.segEnds, t.queryEnd, t.end))
  {
    RunBound(s, p + 1, q, SegmentClass);
    if q < |s| {
      RunStops(s, p + 1, q, SegmentClass);
    }
    SegRunFirst(s, p, q, t);
  }

  /** The corrected segment search succeeds at once when the rest of the pattern follows the
      whole run. */
  lemma SegRunFirst(s: string, p: nat, q: nat, t: Tail)
    requires p < q <= |s| && s[p] == '/' && AllIn(s, p + 1, q, SegmentClass)
    requires Run(s, p + 1, SegmentClass) == q - (p + 1) && SegsThen(Corrected, s, q) == Some(t)
    ensures SegsThen(Corrected, s, p) == Some(Tail([q] + t.segEnds, t.queryEnd, t.end))
  {
    var r := Tail([q] + t.segEnds, t.queryEnd, t.end);
    assert SegRun(s, p, q - (p + 1)) == Some(r);
    assert SegAt(Corrected, s, p) == Some(r);
  }

  /** A written segment whose first run stops at `d`, whose `.` takes `s[d]` and whose second run
      stops at `q`, followed by the rest of the pattern: the search takes both whole runs. */
  lemma SegDotWhole(s: string, p: nat, d: nat, q: nat, t: Tail)
    requires p < d < q <= |s| && s[p] == '/' && s[d] != '\n'
    requires AllIn(s, p + 1, d, PathClass) && !InClass(s[d], PathClass)
    requires AllIn(s, d + 1, q, PathClass) && (q == |s| || !InClass(s[q], PathClass))
    requires SegsThen(Written, s, q) == Some(t)
    ensures SegsThen(Written, s, p) == Some(Tail([q] + t.segEnds, t.queryEnd, t.end))
  {
    RunBound(s, p + 1, d, PathClass);
    RunStops(s, p + 1, d, PathClass);
    RunBound(s, d + 1, q, PathClass);
    if q < |s| {
      RunStops(s, d + 1, q, PathClass);
    }
    var r := Tail([q] + t.segEnds, t.queryEnd, t.end);
    SegAfterFirst(s, p, d, q, t);
    SegDotHere(s, p, d, q, r);
    SegAtWritten(s, p, r);
  }

  /** The written segment search stops at the first `.` position that succeeds. */
  lemma SegDotHere(s: string, p: nat, d: nat, q: nat, r: Tail)
    requires p < d < q <= |s| && s[p] == '/' && s[d] != '\n'
    requires AllIn(s, p + 1, d, PathClass) && AllIn(s, d + 1, q, PathClass)
    requires Run(s, p + 1, PathClass) == d - (p + 1) && Run(s, d + 1, PathClass) == q - (d + 1)
    requires SegAfter(s, p, d + 1, q - (d + 1)) == Some(r)
    ensures SegDot(s, p, Run(s, p + 1, PathClass)) == Some(r)
  {
    assert SegDot(s, p, d - (p + 1)) == Some(r);
  }

  /** A written segment is the segment search from the longest first run. */
  lemma SegAtWritten(s: string, p: nat, r: Tail)
    requires p < |s| && s[p] == '/' && SegDot(s, p, Run(s, p + 1, PathClass)) == Some(r)
    ensures SegAt(Written, s, p) == Some(r)
  {
  }

  /** The second run of a written segment, taken whole, is the first try that succeeds. */
  lemma SegAfterFirst(s: string, p: nat, d: nat, q: nat, t: Tail)
    requires p < d < q <= |s| && s[p] == '/' && s[d] != '\n'
    requires AllIn(s, p + 1, d, PathClass) && AllIn(s, d + 1, q, PathClass)
    requires SegsThen(Written, s, q) == Some(t)
    ensures SegAfter(s, p, d + 1, q - (d + 1)) == Some(Tail([q] + t.segEnds, t.queryEnd, t.end))
  {
  }

  /** Without a `:`, the port is skipped. */
  lemma PortThenSkip(pat: Pattern, s: string, h: nat, t: Tail)
    requires h <= |s| && (h == |s| || s[h] != ':') && SegsThen(pat, s, h) == Some(t)
    ensures PortThen(pat, s, h) == Some((h, t))
  {
  }

  /** A host name up to where its run stops, followed by the rest of the pattern: the search
      takes the whole run. */
  lemma HostThenWhole(pat: Pattern, s: string, hs: nat, he: nat, q: nat, t: Tail)
    requires hs < he <= |s| && AllIn(s, hs, he, HostClass) && (he == |s| || !InClass(s[he], HostClass))
    requires PortThen(pat, s, he) == Some((q, t))
    ensures HostThen(pat, s, hs) == Some((he, q, t))
  {
    RunBound(s, hs, he, HostClass);
    if he < |s| {
      RunStops(s, hs, he, HostClass);
    }
  }

  /** `\b`, the scheme and a host stage that succeeds: that is the match at `st`. */
  lemma MatchAtWhole(pat: Pattern, s: string, st: nat, hs: nat, he: nat, q: nat, t: Tail)
    requires st <= |s| && Boundary(s, st) && SchemeOK(s, st, hs)
    requires HostThen(pat, s, hs) == Some((he, q, t))
    ensures MatchAt(pat, s, st) == Some(UrlMatch(st, hs, he, q, t.segEnds, t.queryEnd, t.end))
  {
  }

  /** Without `http://` or `https://` from `from` on, the search finds nothing. */
  lemma NoMatchFrom(pat: Pattern, s: string, from: nat)
    requires from <= |s| && forall i :: from <= i <= |s| ==> !HttpAt(s, i)
    ensures NextMatch(pat, s, from).None?
  {
    var r := NextMatch(pat, s, from);
    if r.Some? {
      SchemeHttp(s, r.value.start, r.value.hostStart);
    }
  }

  /** When the pattern matches at `st` and no `http://` or `https://` comes before it, the search
      from `from` finds that match. */
  lemma NextMatchAt(pat: Pattern, s: string, from: nat, st: nat)
    requires from <= st <= |s| && MatchAt(pat, s, st).Some?
    requires forall i :: from <= i < st ==> !HttpAt(s, i)
    ensures NextMatch(pat, s, from) == MatchAt(pat, s, st)
  {
    var r := NextMatch(pat, s, from);
    assert r.Some? && r.value.start <= st;
    var m := r.value;
    SchemeHttp(s, m.start, m.hostStart);
    assert m.start == st;
  }

  /** A line in which the search finds one match and nothing after it: `process_line` replaces
      that match by its redaction and copies the rest. */
  lemma RewriteOne(pat: Pattern, s: string, m: UrlMatch, names: seq<string>, token: string)
    requires NextMatch(pat, s, 0) == Some(m) && NextMatch(pat, s, m.end).None?
    ensures m.start <= m.end <= |s|
    ensures ProcessLine(pat, s, names, token) ==
      s[..m.start] + RedactUrl(s[m.start..m.end], names, token) + s[m.end..]
  {
    ScanStep(pat, s, 0, names, token);
    assert Rewrite(pat, s, m.end, names, token) == s[m.end..];
  }

  // ---------------------------------------------------------------- a URL standing alone

  /** A character that cannot continue a URL: no class of the pattern holds it, and it is none
      of `/`, `?`, `#` and `:`. A space, a comma, a quote or a bracket is one. */
  predicate EndsUrl(c: char)
  {
    !InClass(c, SegmentClass) && !InClass(c, QueryClass) && c != '/' && c != '?' && c != '#' && c != ':'
  }

  /** From `p` on, `s` holds path segments of path characters and dots up to `pe`, then an
      optional query up to `e`. */
  predicate PathAndQuery(s: string, p: nat, pe: nat, e: nat)
  {
    && p <= pe <= e <= |s|
    && (p == pe || s[p] == '/')
    && (forall k :: p <= k < pe ==> s[k] == '/' || InClass(s[k], SegmentClass))
    && (pe == e || (s[pe] == '?' && AllIn(s, pe + 1, e, QueryClass)))
  }

  /** A URL ends at `e` with a word character, and the line ends there or goes on with a
      character that cannot continue it. */
  predicate UrlEndsAt(s: string, e: nat)
  {
    0 < e <= |s| && IsWordChar(s[e - 1]) && (e == |s| || EndsUrl(s[e]))
  }

  /** With the corrected pattern, the path stage takes every segment and the whole query. */
  lemma {:induction false} CorrectedTail(s: string, p: nat, pe: nat, e: nat)
    requires PathAndQuery(s, p, pe, e) && UrlEndsAt(s, e)
    ensures SegsThen(Corrected, s, p).Some? && SegsThen(Corrected, s, p).value.end == e
    decreases pe - p
  {
    if p < pe {
      if pe < |s| {
        RunStops(s, p + 1, pe, SegmentClass);
      }
      var q := p + 1 + Run(s, p + 1, SegmentClass);
      assert q < pe ==> s[q] == '/';
      CorrectedTail(s, q, pe, e);
      SegRunWhole(s, p, q, SegsThen(Corrected, s, q).value);
    } else {
      FragThenAt(s, e);
      if pe < e {
        QueryThenWhole(s, pe, e);
      } else {
        QueryThenNone(s, pe);
      }
      SegsThenStop(Corrected, s, pe, e, e);
    }
  }

  /** With the corrected pattern, a URL made of a scheme, a host name, path segments of path
      characters and dots and an optional query is matched whole. */
  lemma CorrectedMatchWhole(s: string, st: nat, hs: nat, he: nat, pe: nat, e: nat)
    requires SchemeOK(s, st, hs) && (st == 0 || !IsWordChar(s[st - 1]))
    requires hs < he && PathAndQuery(s, he, pe, e) && AllIn(s, hs, he, HostClass) && UrlEndsAt(s, e)
    ensures MatchAt(Corrected, s, st).Some?
    ensures MatchAt(Corrected, s, st).value.end == e
    ensures MatchAt(Corrected, s, st).value.hostStart == hs
    ensures MatchAt(Corrected, s, st).value.hostEnd == MatchAt(Corrected, s, st).value.portEnd == he
  {
    CorrectedTail(s, he, pe, e);
    var t := SegsThen(Corrected, s, he).value;
    PortThenSkip(Corrected, s, he, t);
    HostThenWhole(Corrected, s, hs, he, he, t);
    assert s[st] == s[st..hs][0] == 'h';
    MatchAtWhole(Corrected, s, st, hs, he, he, t);
  }

  /** With the corrected pattern, a URL standing alone in a line is found whole. The URL is
      `s[st..e]`: `http://` or `https://`, a host name up to `he`, path segments of path
      characters and dots up to `pe`, and an optional query; nothing before it or after it
      holds `http://` or `https://`. `process_line` then replaces the whole URL by its
      redaction, which keeps the host as the network location, and copies the text around it. */
  lemma CorrectedLineRedacted(s: string, st: nat, hs: nat, he: nat, pe: nat, e: nat,
                              names: seq<string>, token: string)
    requires SchemeOK(s, st, hs) && (st == 0 || !IsWordChar(s[st - 1]))
    requires hs < he && PathAndQuery(s, he, pe, e) && AllIn(s, hs, he, HostClass) && UrlEndsAt(s, e)
    requires forall i :: 0 <= i < st ==> !HttpAt(s, i)
    requires forall i :: e <= i <= |s| ==> !HttpAt(s, i)
    ensures st < e && UrlParse(s[st..e]).Some? && UrlParse(s[st..e]).value.netloc == s[hs..he]
    ensures ProcessLine(Corrected, s, names, token) == s[..st] + RedactUrl(s[st..e], names, token) + s[e..]
  {
    CorrectedMatchWhole(s, st, hs, he, pe, e);
    var m := MatchAt(Corrected, s, st).value;
    NextMatchAt(Corrected, s, 0, st);
    NoMatchFrom(Corrected, s, e);
    RewriteOne(Corrected, s, m, names, token);
    MatchedSpanParses(Corrected, s, m);
  }

  /** With the corrected pattern and a non-empty token, no configured parameter of a URL standing
      alone in a line keeps its value: in the line `process_line` writes, each configured name
      that was a parameter of the URL holds only the token, and every other parameter keeps its
      values. */
  lemma CorrectedLineHidesValues(s: string, st: nat, hs: nat, he: nat, pe: nat, e: nat,
                                 names: seq<string>, token: string, name: string)
    requires SchemeOK(s, st, hs) && (st == 0 || !IsWordChar(s[st - 1]))
    requires hs < he && PathAndQuery(s, he, pe, e) && AllIn(s, hs, he, HostClass) && UrlEndsAt(s, e)
    requires forall i :: 0 <= i < st ==> !HttpAt(s, i)
    requires forall i :: e <= i <= |s| ==> !HttpAt(s, i)
    requires token != ""
    ensures st < e && UrlParse(s[st..e]).Some? && UrlParse(RedactUrl(s[st..e], names, token)).Some?
    ensures ProcessLine(Corrected, s, names, token) == s[..st] + RedactUrl(s[st..e], names, token) + s[e..]
    ensures var before := ParseQs(UrlParse(s[st..e]).value.query);
      Lookup(ParseQs(UrlParse(RedactUrl(s[st..e], names, token)).value.query), name) ==
        if Lookup(before, name).Some? && name in names then Some([token]) else Lookup(before, name)
  {
    CorrectedLineRedacted(s, st, hs, he, pe, e, names, token);
    RedactUrlHidesNames(s[st..e], names, token, name);
  }

  // ---------------------------------------------------------------- the `.` takes the `?`

  /** As written, the unescaped `.` of a path segment takes the `?` of a query, and the second
      run of the segment stops at the first `=`. For a URL `scheme://host/path?name=value…`
      standing alone in a line, the match ends just before that `=`; the query `name` cut out
      with it has no `=`, so `parse_qs` drops it and the URL is written back without a query.
      The line loses `?name` and keeps `=value…`, whatever the configured names. */
  lemma WrittenDropsQueryName(s: string, st: nat, hs: nat, he: nat, d: nat, q: nat,
                              names: seq<string>, token: string)
    requires SchemeOK(s, st, hs) && (st == 0 || !IsWordChar(s[st - 1]))
    requires hs < he < d < q < |s| && AllIn(s, hs, he, HostClass) && s[he] == '/'
    requires AllIn(s, he + 1, d, PathClass) && s[d] == '?'
    requires AllIn(s, d + 1, q, PathClass) && IsWordChar(s[q - 1]) && s[q] == '='
    requires forall i :: 0 <= i < st ==> !HttpAt(s, i)
    requires forall i :: q <= i <= |s| ==> !HttpAt(s, i)
    ensures ProcessLine(Written, s, names, token) == s[..d] + s[q..]
  {
    assert d + 1 < q by {
      assert s[d] == '?' && !IsWordChar('?');
    }
    calc {
      ProcessLine(Written, s, names, token);
    == { WrittenLineCut(s, st, hs, he, d, q, names, token); }
      s[..st] + RedactUrl(s[st..q], names, token) + s[q..];
    == { WrittenCutRedacted(s, st, hs, he, d, q, names, token); }
      s[..st] + s[st..d] + s[q..];
    == { assert s[..st] + s[st..d] == s[..d]; }
      s[..d] + s[q..];
    }
  }

  /** On such a line, the written pattern replaces the text up to the `=` and nothing else. */
  lemma WrittenLineCut(s: string, st: nat, hs: nat, he: nat, d: nat, q: nat,
                       names: seq<string>, token: string)
    requires SchemeOK(s, st, hs) && (st == 0 || !IsWordChar(s[st - 1]))
    requires hs < he < d < q < |s| && AllIn(s, hs, he, HostClass) && s[he] == '/'
    requires AllIn(s, he + 1, d, PathClass) && s[d] == '?'
    requires AllIn(s, d + 1, q, PathClass) && IsWordChar(s[q - 1]) && s[q] == '='
    requires forall i :: 0 <= i < st ==> !HttpAt(s, i)
    requires forall i :: q <= i <= |s| ==> !HttpAt(s, i)
    ensures ProcessLine(Written, s, names, token) == s[..st] + RedactUrl(s[st..q], names, token) + s[q..]
  {
    WrittenMatchCuts(s, st, hs, he, d, q);
    var m := UrlMatch(st, hs, he, he, [q], q, q);
    NextMatchAt(Written, s, 0, st);
    NoMatchFrom(Written, s, q);
    RewriteOne(Written, s, m, names, token);
  }

  /** The written search on such a line: the match ends at the `=`. */
  lemma WrittenMatchCuts(s: string, st: nat, hs: nat, he: nat, d: nat, q: nat)
    requires SchemeOK(s, st, hs) && (st == 0 || !IsWordChar(s[st - 1]))
    requires hs < he < d < q < |s| && AllIn(s, hs, he, HostClass) && s[he] == '/'
    requires AllIn(s, he + 1, d, PathClass) && s[d] == '?'
    requires AllIn(s, d + 1, q, PathClass) && IsWordChar(s[q - 1]) && s[q] == '='
    ensures MatchAt(Written, s, st) == Some(UrlMatch(st, hs, he, he, [q], q, q))
  {
    FragThenAt(s, q);
    QueryThenNone(s, q);
    SegsThenStop(Written, s, q, q, q);
    SegDotWhole(s, he, d, q, Tail([], q, q));
    assert [q] + [] == [q];
    var t := Tail([q], q, q);
    PortThenSkip(Written, s, he, t);
    HostThenWhole(Written, s, hs, he, he, t);
    assert s[st..hs][0] == s[st];
    MatchAtWhole(Written, s, st, hs, he, he, t);
  }

  /** The text the written pattern cuts out is a URL whose query is a bare name; redaction
      drops that query. */
  lemma WrittenCutRedacted(s: string, st: nat, hs: nat, he: nat, d: nat, q: nat,
                           names: seq<string>, token: string)
    requires SchemeOK(s, st, hs)
    requires hs < he < d && d + 1 < q <= |s| && AllIn(s, hs, he, HostClass) && s[he] == '/'
    requires AllIn(s, he + 1, d, PathClass) && s[d] == '?' && AllIn(s, d + 1, q, PathClass)
    ensures RedactUrl(s[st..q], names, token) == s[st..d]
  {
    var scheme := if hs == st + 8 then "https" else "http";
    var p := UrlParts(scheme, s[hs..he], s[he..d], "", s[d + 1..q], "");
    assert UrlUnparse(p) == s[st..q] && UrlUnparse(p.(query := "")) == s[st..d] by {
      CutUnparse(s, st, hs, he, d, q, p);
    }
    CutQueryDropped(s, hs, he, d, q, p, names, token);
  }

  /** The slots of the cut-out URL write it back, and without the query they write the text
      before the `?`. */
  lemma CutUnparse(s: string, st: nat, hs: nat, he: nat, d: nat, q: nat, p: UrlParts)
    requires SchemeOK(s, st, hs) && hs < he < d && d + 1 < q <= |s| && s[he] == '/' && s[d] == '?'
    requires p == UrlParts(if hs == st + 8 then "https" else "http", s[hs..he], s[he..d], "", s[d + 1..q], "")
    ensures UrlUnparse(p) == s[st..q] && UrlUnparse(p.(query := "")) == s[st..d]
  {
    UnparseWithQuery(p);
    SchemeText(s, st, hs);
    SliceSplit(s, st, hs, he, d);
    RegroupScheme(p.scheme, s[hs..he], s[he..d]);
    SliceAt(s, st, d, q);
  }

  lemma SliceAt(s: string, a: nat, d: nat, q: nat)
    requires a <= d < q <= |s|
    ensures s[a..q] == s[a..d] + ([s[d]] + s[d + 1..q])
  {
  }

  /** The cut-out URL has a bare name as its query, so redaction drops the query. */
  lemma CutQueryDropped(s: string, hs: nat, he: nat, d: nat, q: nat, p: UrlParts,
                        names: seq<string>, token: string)
    requires p.scheme == "https" || p.scheme == "http"
    requires hs < he < d < q <= |s| && AllIn(s, hs, he, HostClass) && s[he] == '/'
    requires AllIn(s, he + 1, d, PathClass) && AllIn(s, d + 1, q, PathClass)
    requires p == UrlParts(p.scheme, s[hs..he], s[he..d], "", s[d + 1..q], "")
    ensures RedactUrl(UrlUnparse(p), names, token) == UrlUnparse(p.(query := ""))
  {
    CutPartsWellFormed(s, hs, he, d, q, p);
    assert '&' !in p.query && '=' !in p.query by {
      assert forall k :: 0 <= k < |p.query| ==> p.query[k] == s[d + 1 + k];
    }
    RedactUrlBareQuery(p, names, token);
  }

  /** The slots of the cut-out URL form a well-formed parse result. */
  lemma CutPartsWellFormed(s: string, hs: nat, he: nat, d: nat, q: nat, p: UrlParts)
    requires p.scheme == "https" || p.scheme == "http"
    requires hs < he < d < q <= |s| && AllIn(s, hs, he, HostClass) && s[he] == '/'
    requires AllIn(s, he + 1, d, PathClass) && AllIn(s, d + 1, q, PathClass)
    requires p == UrlParts(p.scheme, s[hs..he], s[he..d], "", s[d + 1..q], "")
    ensures WellFormed(p)
  {
    assert forall k :: 0 <= k < |p.netloc| ==> p.netloc[k] == s[hs + k];
    assert forall k :: 0 <= k < |p.path| ==> p.path[k] == s[he + k];
    assert forall k :: 0 <= k < |p.query| ==> p.query[k] == s[d + 1 + k];
    InertPartsWellFormed(p);
  }

  /** A URL the written pattern leaves with its secret in it: `?api_key` is removed and `=S`
      stays. */
  lemma WrittenLeaksValue()
    ensures ProcessLine(Written, "https://example.com/path?api_key=S", ["api_key"], "REDACTED")
      == "https://example.com/path" + "=S"
  {
    var s := "https://example.com/path?api_key=S";
    ExampleUrlHead();
    ExampleUrlRest();
    WrittenDropsQueryName(s, 0, 8, 19, 24, 32, ["api_key"], "REDACTED");
  }

  /** Where the parts of `https://example.com/path?api_key=S` lie. */
  lemma ExampleUrlHead()
    ensures var s := "https://example.com/path?api_key=S";
      && SchemeOK(s, 0, 8) && AllIn(s, 8, 19, HostClass) && s[19] == '/'
      && s[..24] == "https://example.com/path"
  {
    var s := "https://example.com/path?api_key=S";
    assert s[..8] == "https://";
    assert s[..24] == "https://example.com/path";
  }

  /** The rest of the same URL: the segment, the `?`, the name and what follows it. */
  lemma ExampleUrlRest()
    ensures var s := "https://example.com/path?api_key=S";
      && AllIn(s, 20, 24, PathClass) && s[24] == '?'
      && AllIn(s, 25, 32, PathClass) && IsWordChar(s[31]) && s[32] == '='
      && (forall i :: 32 <= i <= |s| ==> !HttpAt(s, i))
      && s[32..] == "=S"
  {
    var s := "https://example.com/path?api_key=S";
    assert s[32..] == "=S";
    NoHttpIn(s, 32, |s| + 1);
  }

  /** The same URL under the corrected pattern: the whole of it is matched and redacted. */
  lemma CorrectedTakesWholeUrl()
    ensures ProcessLine(Corrected, "https://example.com/path?api_key=S", ["api_key"], "REDACTED")
      == RedactUrl("https://example.com/path?api_key=S", ["api_key"], "REDACTED")
  {
    var s := "https://example.com/path?api_key=S";
    assert s[..0] == [] && s[0..|s|] == s && s[|s|..] == [];
    ExampleUrlHead();
    ExampleUrlWhole();
    CorrectedLineRedacted(s, 0, 8, 19, 24, |s|, ["api_key"], "REDACTED");
  }

  /** `https://example.com/path?api_key=S` read as the corrected pattern reads it after the
      host: one segment and a query, ending with the line. */
  lemma ExampleUrlWhole()
    ensures var s := "https://example.com/path?api_key=S";
      PathAndQuery(s, 19, 24, |s|) && UrlEndsAt(s, |s|)
  {
  }

  /** No `h` between `i` and `j`, so no `http://` or `https://` starts there. */
  lemma NoHttpIn(s: string, i: nat, j: nat)
    requires i <= j && forall k :: i <= k < j && k < |s| ==> s[k] != 'h'
    ensures forall k :: i <= k < j ==> !HttpAt(s, k)
  {
    forall k | i <= k < j
      ensures !HttpAt(s, k)
    {
      if k + 7 <= |s| {
        assert s[k..k + 7][0] == s[k];
      }
      if k + 8 <= |s| {
        assert s[k..k + 8][0] == s[k];
      }
    }
  }
}
