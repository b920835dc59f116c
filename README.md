# URL parameter redactor — a Dafny model

The tool reads log lines and looks for `http://` and `https://` URLs in them. Each URL it
finds is handed to a function that replaces the values of the configured query parameters with
a redaction token (default `REDACTED`). Everything else in the line is written back unchanged.

As written, the URL pattern does not deliver this for a common shape of URL: a path of one
segment, with no dot in it, followed by a query. There the unescaped `.` of the path part takes
the `?`, and the match stops just before the first `=`. So `https://example.com/path?api_key=S`
comes out as `https://example.com/path=S`: the secret stays in the line (see "## Findings").
Other shapes fare differently. With a second segment, the `.` takes the second `/` instead, and
the query is matched and redacted (`http://a.com/a/b?k=v`). With a second segment and a dot
in the last one (`http://a.com/a/x.y?k=v`), the match ends at that dot, and `.y?k=v`, query
included, is left in the line untouched.

This project models the two functions of `main.py` that do the work:

- `redact_url_parameters` (module `Redactor`) splits a URL with `urlparse` and decodes the
  query with `parse_qs`. It then overwrites the value list of every configured name that is a
  key, re-encodes the query with `urlencode(..., doseq=True)` and reassembles the URL with
  `urlunparse`. When anything raises, it returns the URL as it was.
- `process_line` (module `Locator`) is the URL regular expression plus the `re.sub` scan. The
  scan replaces each leftmost match with the redacted URL and resumes after the match.

The parts of Python's `urllib.parse` that these two rely on are modelled as well:

- `urlsplit`/`urlparse` and `urlunsplit`/`urlunparse` (module `UrllibParse`). This is the
  behaviour of CPython 3.11.4 through 3.12.3, including the removal of leading C0 control and
  space characters, but without the bracketed-host validation (see "## Left out"). Later
  releases also change how `urlunsplit` writes a path starting with `//` when the netloc is
  empty; the model keeps the earlier rule.
- `parse_qs` and `urlencode` (module `QueryString`).
- `quote_plus` and `unquote_plus` over UTF-8 with the `replace` error handler (module
  `PercentCoding`).
- The few `str` operations they use (module `Strings`).

A `dict` that keeps insertion order is modelled as a sequence of `(name, values)` pairs with
distinct names.

The regular expression is modelled in two ways, and for two patterns. `Pattern.Written` is the
pattern of `main.py`. `Pattern.Corrected` differs only in the path segment, which becomes
`/[a-zA-Z0-9_@%+.-]*`: path characters and literal dots. Every search and scan function takes the
pattern as a parameter, and every lemma below holds for both unless it names one.

- The search functions (`FragThen` … `MatchAt`) are the backtracking search the regex engine
  performs. Every greedy repetition first takes as much as it can and then gives characters
  back one at a time, and every optional part is tried present first.
- `IsUrlMatch` says declaratively which spans the pattern matches.

The search is proved sound against `IsUrlMatch` (the `...Sound` lemmas, one per stage, and
`MatchAt`'s ensures) and complete (`MatchAtComplete`).

Two behaviours of `main.py` that its comments do not suggest; the model follows the code:

- The path part of the pattern, `[a-zA-Z0-9_@%+-]*.[a-zA-Z0-9_@%+-]*`, has an unescaped `.`.
  It matches any character except a line feed, not only a literal dot. So a match can run
  across a space (`Locator.DotTakesSpace`). It can take the `?` that starts a query, which
  cuts the query short at its first `=` (`Locator.WrittenDropsQueryName`). It can take the
  second `/` of a two-segment path, so a literal dot later in that segment ends the match
  before the query (`Locator.DotTakesSlash`, `Locator.FileDotCutsMatch`).
- The re-encoded query keeps the order in which `parse_qs` first met each name, because the
  dict keeps insertion order. The order is therefore not arbitrary.

## Model

| member | source | states |
|---|---|---|
| UrllibParse.UnparseParse | main.py:93-102 | For every parse result with a network location, `urlparse(urlunparse(p)) == p`: reassembling writes each slot where splitting finds it again |
| UrllibParse.ParsedIsWellFormed | main.py:85 | What `urlparse` returns for a URL with a netloc is lower-case (or empty) in the scheme, free of tab/CR/LF, has no `/?#` in the netloc, has balanced brackets, and has a path that is empty or starts with `/`; this is the precondition of `UnparseParse` |
| UrllibParse.ParseOfNetlocUrl | main.py:85 | `urlparse` accepts `scheme://netloc` followed by a path, query or fragment, when the netloc has no delimiter and balanced brackets, and gives back exactly that scheme and netloc |
| PercentCoding.Utf8RoundTrip | main.py:86 | Decoding the UTF-8 encoding of any text gives the text back |
| PercentCoding.QuotePlus | main.py:92 | `quote_plus` output uses only unreserved characters, `%` and `+`, and is empty exactly when its input is |
| PercentCoding.QuoteRoundTrip | main.py:86 | `unquote_plus(quote_plus(s)) == s` for every text |
| PercentCoding.UnquotePlusNonEmpty | main.py:86 | Unquoting a non-empty text never gives the empty text |
| QueryString.AddPair | main.py:86 | Appending one value to the dict being built keeps names distinct, appends the value to that name's list and leaves every other name's lookup unchanged; every existing key stays at its position, and a new name becomes one new key at the end |
| QueryString.Group | main.py:86 | `parse_qs` grouping: distinct names, and looking a name up gives exactly the values that name had in the pairs, in order, or nothing when it had none |
| QueryString.ParsedNonBlank | main.py:86 | Every key `parse_qs` returns has at least one value, and no value is empty |
| QueryString.BlankValueDropped | main.py:86 | A field `name=` with an empty value is dropped, as if it were not there |
| QueryString.UrlEncode | main.py:92 | `urlencode(..., doseq=True)` output uses only the quoted alphabet plus `=` and `&` |
| QueryString.QueryRoundTrip | main.py:86-92 | For a dict with distinct names and no blank values (what `parse_qs` produces), `parse_qs(urlencode(q, doseq=True)) == q`, including value order and key order |
| Redactor.RedactQuery | main.py:88-90 | The loop over the configured names yields exactly the redacted dict: each configured key holds `[token]` and every other key is untouched |
| Redactor.RedactedKeys | main.py:88-90 | Redaction keeps the number, order and distinctness of the keys; it neither adds nor removes a key |
| Redactor.RedactedLookup | main.py:88-90 | Looking up a configured name that was a key gives `[token]`; any other name gives its old value, and a configured name that was not a key is still absent |
| Redactor.RedactedIdempotent | main.py:88-90 | Running the redaction loop a second time changes nothing |
| Redactor.RedactedNonBlank | main.py:88-92 | With a non-empty token, the redacted dict still has no blank values |
| Redactor.RedactUrlParameters | main.py:72-106 | The method returns the redacted URL; it falls back exactly when `urlparse` raises, and then returns the input URL |
| Redactor.EncodedQueryWellFormed | main.py:92-102 | The re-encoded query can stand in the query slot of a parsed URL |
| Redactor.RedactUrlKeepsSlots | main.py:93-102 | The result parses back to the same scheme, netloc, path, params and fragment; only the query differs, and it is the encoded redacted dict |
| Redactor.RedactUrlQuery | main.py:86-102 | With a non-empty token, parsing the result's query gives back exactly the redacted dict |
| Redactor.RedactUrlHidesNames | main.py:88-102 | In the result, every configured name that was a parameter has the token as its only value, and every other parameter keeps its values |
| Redactor.RedactUrlIdempotent | main.py:72-106 | With a non-empty token, redacting an already-redacted URL returns it unchanged |
| Locator.Run | main.py:128 | A greedy character-class run stays in the class and stops at the first character outside it |
| Locator.SchemeEnd | main.py:124-126 | `\bhttps?://` is found at a position exactly when the declarative scheme condition holds there, with the same end |
| Locator.FragThenSound | main.py:146-152 | Whatever end the fragment stage of the search returns, the optional fragment and the closing `\b` hold there |
| Locator.QueryThenSound | main.py:141-152 | Whatever the query stage returns, the optional query, the fragment and the closing `\b` hold |
| Locator.SegsThenSound | main.py:136-152 | Whatever segment list the path stage returns, the path, query, fragment and closing `\b` hold |
| Locator.PortThenSound | main.py:132-152 | Whatever the port stage returns, the optional port and the rest of the pattern hold |
| Locator.HostThenSound | main.py:127-152 | Whatever the host stage returns (domain branch first, then bracketed literal), the host and the rest of the pattern hold |
| Locator.MatchAt | main.py:122-155 | `pattern.match` at a position: any span it returns satisfies `IsUrlMatch` and starts there |
| Locator.MatchAtComplete | main.py:122-155 | Whenever some span at a position satisfies `IsUrlMatch`, the search at that position finds a match |
| Locator.DotTakesSpace | main.py:137-139 | The unescaped `.` makes the search take `http://a.com/x y` whole as one URL, space included, and `process_line` replaces the whole text by its redaction |
| Locator.DotTakesSlash | main.py:137-145 | In `http://a.com/a/b?k=v` the `.` takes the second `/`, the segment ends at the `?`, the query is matched to the end, and `process_line` hands the whole URL to redaction |
| Locator.FileDotCutsMatch | main.py:137-145 | In `http://a.com/a/x.y?k=v` the `.` takes the second `/` and the match ends at the literal dot; `process_line` redacts only `http://a.com/a/x` and leaves `.y?k=v` as it was |
| Locator.MatchBounds | main.py:122-155 | A match lies inside the line, its scheme part takes at least 7 characters and its host is not empty |
| Locator.NextMatch | main.py:162 | `re.sub`'s search finds a match starting at the leftmost position from where it resumes at which the pattern matches |
| Locator.NextMatchLeftmost | main.py:162 | No match starts between the resume point and the found match |
| Locator.Spans | main.py:158-162 | The spans `re.sub` replaces lie inside the line, in order and without overlap |
| Locator.SpansAreMatches | main.py:158-162 | Every span `re.sub` replaces is a match of the pattern |
| Locator.RewriteIsSplice | main.py:158-162 | `re.sub` output is the line with the spans replaced by their redactions |
| Locator.SpliceTexts | main.py:158-162 | Splicing each span's own text back gives the original line |
| Locator.ProcessLineSplices | main.py:109-163 | `process_line` replaces exactly the spans `re.sub` finds, each by `redact_url_parameters` of its text, and copies every character outside them |
| Locator.FixedSpansUnchanged | main.py:109-163 | If redaction leaves every found URL unchanged, the line is unchanged |
| Locator.SpansBeginWithScheme | main.py:124-126 | Every replaced span starts with `http://` or `https://` |
| Locator.NoSchemeUnchanged | main.py:109-163 | A line containing neither `http://` nor `https://` is returned unchanged |
| Locator.SpansCoverMatches | main.py:162 | Every position at or after the resume point where the pattern could match lies inside one of the spans `re.sub` replaces; no URL is skipped |
| Locator.MatchedNetloc | main.py:127-135 | The host and port of a match form a netloc with no delimiter, no tab/CR/LF and balanced brackets |
| Locator.TailStart | main.py:136-150 | After the port a match continues only with `/`, `?` or `#`, or ends |
| Locator.MatchedSpanParses | main.py:85 | Every located URL parses, under the modelled `urlsplit`, with the matched scheme and with the matched host and port as its netloc, so redaction never falls back on it |
| Locator.LocatedUrlRedacted | main.py:158-162 | With a non-empty token, in every URL `process_line` replaces, each configured name that was a parameter now has the token as its only value, and every other parameter keeps its values |
| QueryString.BareFieldDropped | main.py:86 | `parse_qs` of a single field without `=` gives an empty dict |
| Redactor.RedactUrlBareQuery | main.py:85-102 | A URL whose query is one field without `=` comes back with no query and no `?`, every other slot unchanged |
| Locator.WrittenDropsQueryName | main.py:136-140 | With the pattern as written, a line holding `http(s)://host/path?name=value…` on its own gets back the line with `?name` removed and `=value…` kept, whatever names are configured |
| Locator.WrittenLeaksValue | main.py:138 | With the pattern as written and `api_key` configured, `https://example.com/path?api_key=S` becomes `https://example.com/path=S` |
| Locator.CorrectedMatchWhole | main.py:122-155 | With the corrected segment, the search at the start of a URL standing alone (host, path segments, optional query, ending at a word character the line does not continue) matches the whole URL |
| Locator.CorrectedLineRedacted | main.py:109-163 | With the corrected segment, such a line comes back with the URL replaced by its redaction and nothing else changed, and the URL parses with its host as netloc |
| Locator.CorrectedLineHidesValues | main.py:109-163 | With the corrected segment and a non-empty token, in such a line every configured name that was a parameter of the URL holds only the token, and every other parameter keeps its values |
| Locator.CorrectedTakesWholeUrl | main.py:138 | With the corrected segment, `https://example.com/path?api_key=S` is matched whole and handed to redaction |

## Left out

- The command line (`argparse`), reading and writing files, encoding detection (`chardet`), the
  faker-based sample generator and logging are not modelled. The logged error of
  `redact_url_parameters` is exposed as the `fellBack` result of
  `Redactor.RedactUrlParameters`.
- `\b` and the pattern's classes use ASCII word characters. Python's `str` patterns use Unicode
  word characters, so a non-ASCII letter right next to a URL is treated differently.
- `urlsplit`'s validation of bracketed hosts (CPython 3.11.4 and later) is not modelled. The
  NFKC check of the netloc for non-ASCII characters is not modelled either. Only the
  unbalanced-bracket `ValueError` is.
- Lone surrogates in the input are not representable: Dafny characters are Unicode scalar
  values.
- Python's `try` also covers `parse_qs`, `urlencode` and `urlunparse`. On `str` input none of
  these raises in the modelled cases, so `urlparse` is the only modelled source of the fallback.
- Redactor.RedactUrlQuery: requires a non-empty token and a network location, as for
  `RedactUrlKeepsSlots`. With an empty token, `name=` is written and `parse_qs` drops it on
  re-reading (`QueryString.BlankValueDropped`).
- Redactor.RedactUrlIdempotent: requires a non-empty token, for the same reason, and a network
  location, as for `RedactUrlKeepsSlots`.
- Redactor.RedactUrlHidesNames: requires a non-empty token, for the same reason, and a network
  location, as for `RedactUrlKeepsSlots`.
- Redactor.RedactUrlKeepsSlots: requires a URL with a network location. Without one,
  `urlunparse` of a path starting with `//` can move part of the path into the netloc. Every URL
  `process_line` hands over has a netloc (`Locator.MatchedSpanParses`).
- Locator.LocatedUrlRedacted: requires a non-empty token, like `RedactUrlHidesNames`.
- Locator.CorrectedLineHidesValues: covers a line holding one URL of the plain shape the
  corrected pattern takes whole (no port, no fragment, no bracketed host); it also requires a
  non-empty token, like `RedactUrlHidesNames`. `LocatedUrlRedacted` covers every URL the scan
  finds, for both patterns.
- Locator.CorrectedLineRedacted: covers the same plain one-URL lines as
  `CorrectedLineHidesValues`.
- Locator.WrittenDropsQueryName: covers a line holding one URL with a single-segment path,
  without a dot, followed by a query; it shows the defect, it does not describe every line.
  `DotTakesSlash` and `FileDotCutsMatch` show two other shapes.
- Even with no configured names, the query is re-encoded: blank values are dropped and
  characters are re-quoted. The model reproduces this; it is not a loss of fidelity.

## Findings

| source | as written | input that shows it | evidently intended | confidence | as-written member | corrected member |
|---|---|---|---|---|---|---|
| main.py:138 | The path segment is `/[a-zA-Z0-9_@%+-]*.[a-zA-Z0-9_@%+-]*` with an unescaped `.`; after a one-segment path without a dot it takes the `?` of the query, the match then stops at the first `=` and the value is never redacted | `https://example.com/path?api_key=S` with `api_key` configured gives `https://example.com/path=S` | a literal dot inside the segment, so that a segment is path characters and dots (`/[a-zA-Z0-9_@%+.-]*`) and the `?` starts the query | high (not executed) | Locator.WrittenLeaksValue | Locator.CorrectedLineHidesValues |
