/** `redact_url_parameters`: the URL is split into its six slots, the query is decoded into a
    dict, every configured name that is a key has its value list overwritten with the single
    redaction token, and the URL is reassembled around the re-encoded query. When `urlparse`
    raises, the URL is returned as it was. */
module Redactor {
  import opened Strings
  import opened UrllibParse
  import opened QueryString

  /** The dict after the redaction loop: each key among `names` holds just `[token]`,
      every other key keeps its values, and no key is added, removed or moved. */
  function Redacted(q: Query, names: seq<string>, token: string): Query
  {
    seq(|q|, i requires 0 <= i < |q| => if q[i].0 in names then (q[i].0, [token]) else q[i])
  }

  /** The redaction loop, overwriting the dict entry of every configured name that is a key. */
  method RedactQuery(q: Query, names: seq<string>, token: string) returns (r: Query)
    requires DistinctNames(q)
    ensures r == Redacted(q, names, token)
  {
    r := q;
    var i := 0;
    while i < |names|
      invariant 0 <= i <= |names|
      invariant r == Redacted(q, names[..i], token)
    {
      var param := names[i];
      assert names[..i + 1] == names[..i] + [param];
      var k := IndexOf(r, param);
      if k < |r| {
        r := r[k := (param, [token])];
      }
      i := i + 1;
    }
    assert names[..|names|] == names;
  }

  /** Redaction keeps the keys, their number and their order. */
  lemma RedactedKeys(q: Query, names: seq<string>, token: string)
    ensures |Redacted(q, names, token)| == |q|
    ensures forall i :: 0 <= i < |q| ==> Redacted(q, names, token)[i].0 == q[i].0
    ensures DistinctNames(q) ==> DistinctNames(Redacted(q, names, token))
  {
  }

  /** What a lookup in the redacted dict gives: exactly `[token]` for a configured name that
      was a key, whatever values it had; nothing for a configured name that was not a key;
      the old values for every other name. */
  lemma RedactedLookup(q: Query, names: seq<string>, token: string, name: string)
    ensures Lookup(Redacted(q, names, token), name) ==
      if Lookup(q, name).Some? && name in names then Some([token]) else Lookup(q, name)
  {
    RedactedKeys(q, names, token);
    IndexOfSameNames(q, Redacted(q, names, token), name);
  }

  /** Running the redaction loop on its own output changes nothing. */
  lemma RedactedIdempotent(q: Query, names: seq<string>, token: string)
    ensures Redacted(Redacted(q, names, token), names, token) == Redacted(q, names, token)
  {
  }

  /** A redacted dict of `parse_qs` still has a value for every key and no empty value, as long
      as the token is not empty. */
  lemma RedactedNonBlank(q: Query, names: seq<string>, token: string)
    requires NonBlank(q) && token != ""
    ensures NonBlank(Redacted(q, names, token))
  {
    var r := Redacted(q, names, token);
    forall i | 0 <= i < |r| ensures r[i].1 != [] && forall v :: v in r[i].1 ==> v != "" {
      if q[i].0 in names {
        assert r[i].1 == [token];
      } else {
        assert r[i] == q[i];
      }
    }
  }

  /** The URL that `redact_url_parameters(url, names, token)` returns. */
  function RedactUrl(url: string, names: seq<string>, token: string): string
  {
    match UrlParse(url)
    case None => url
    case Some(p) => UrlUnparse(p.(query := UrlEncode(Redacted(ParseQs(p.query), names, token))))
  }

  /** `redact_url_parameters`, with the logged failure exposed as `fellBack`. */
  method RedactUrlParameters(url: string, names: seq<string>, token: string)
    returns (redacted: string, fellBack: bool)
    ensures redacted == RedactUrl(url, names, token)
    ensures fellBack <==> UrlParse(url).None?
    ensures fellBack ==> redacted == url
  {
    var parsed := UrlParse(url);
    if parsed.None? {
      return url, true;
    }
    var p := parsed.value;
    var queryParams := ParseQs(p.query);
    queryParams := RedactQuery(queryParams, names, token);
    var redactedQuery := UrlEncode(queryParams);
    redacted := UrlUnparse(UrlParts(p.scheme, p.netloc, p.path, p.params, redactedQuery, p.fragment));
    fellBack := false;
  }

  /** An encoded query can stand in the query slot of a parsed URL. */
  lemma EncodedQueryWellFormed(p: UrlParts, q: Query)
    requires WellFormed(p)
    ensures WellFormed(p.(query := UrlEncode(q)))
  {
    var e := UrlEncode(q);
    EncodedChars(e);
    QueryReplaced(p, e);
  }

  /** An encoded query has no `#` and no tab, CR or LF. */
  lemma EncodedChars(e: string)
    requires forall k :: 0 <= k < |e| ==> IsEncodedChar(e[k])
    ensures '#' !in e && NoUnsafe(e)
  {
    forall k | 0 <= k < |e|
      ensures e[k] != '#' && !IsUnsafe(e[k])
    {
      assert IsEncodedChar(e[k]);
    }
  }

  /** Any query without `#` and without tab, CR or LF can take the place of the query of a
      well-formed parse result. */
  lemma QueryReplaced(p: UrlParts, e: string)
    requires WellFormed(p) && '#' !in e && NoUnsafe(e)
    ensures WellFormed(p.(query := e))
  {
  }

  /** For a URL with a network location, the result parses back to the same scheme, netloc,
      path, params and fragment; only the query slot differs, and it holds the encoded
      redacted dict. */
  lemma RedactUrlKeepsSlots(url: string, names: seq<string>, token: string)
    requires UrlParse(url).Some? && UrlParse(url).value.netloc != ""
    ensures var p := UrlParse(url).value;
      UrlParse(RedactUrl(url, names, token)) ==
        Some(p.(query := UrlEncode(Redacted(ParseQs(p.query), names, token))))
  {
    var p := UrlParse(url).value;
    ParsedIsWellFormed(url);
    EncodedQueryWellFormed(p, Redacted(ParseQs(p.query), names, token));
    UnparseParse(p.(query := UrlEncode(Redacted(ParseQs(p.query), names, token))));
  }

  /** Reading the query of the result gives the redacted dict back, when the token is not
      empty (an empty token is a blank value, which `parse_qs` drops). */
  lemma RedactUrlQuery(url: string, names: seq<string>, token: string)
    requires UrlParse(url).Some? && UrlParse(url).value.netloc != "" && token != ""
    ensures var p := UrlParse(url).value;
      && UrlParse(RedactUrl(url, names, token)).Some?
      && ParseQs(UrlParse(RedactUrl(url, names, token)).value.query) ==
           Redacted(ParseQs(p.query), names, token)
  {
    var p := UrlParse(url).value;
    var q := ParseQs(p.query);
    RedactUrlKeepsSlots(url, names, token);
    ParsedNonBlank(p.query);
    RedactedKeys(q, names, token);
    RedactedNonBlank(q, names, token);
    QueryRoundTrip(Redacted(q, names, token));
  }

  /** In the result, every configured name that was a parameter of the URL has the token as its
      only value, and every other parameter keeps its values. */
  lemma RedactUrlHidesNames(url: string, names: seq<string>, token: string, name: string)
    requires UrlParse(url).Some? && UrlParse(url).value.netloc != "" && token != ""
    ensures var before := ParseQs(UrlParse(url).value.query);
      && UrlParse(RedactUrl(url, names, token)).Some?
      && Lookup(ParseQs(UrlParse(RedactUrl(url, names, token)).value.query), name) ==
           if Lookup(before, name).Some? && name in names then Some([token]) else Lookup(before, name)
  {
    RedactUrlQuery(url, names, token);
    RedactedLookup(ParseQs(UrlParse(url).value.query), names, token, name);
  }

  /** A URL whose query is one field without `=` loses its whole query: the field holds no
      parameter, so the re-encoded query is empty and `urlunparse` leaves out the `?`. */
  lemma RedactUrlBareQuery(p: UrlParts, names: seq<string>, token: string)
    requires WellFormed(p) && '&' !in p.query && '=' !in p.query
    ensures RedactUrl(UrlUnparse(p), names, token) == UrlUnparse(p.(query := ""))
  {
    UnparseParse(p);
    BareFieldDropped(p.query);
    assert Redacted([], names, token) == [];
    assert UrlEncode([]) == "" by {
      assert Flatten([]) == [];
      assert EncodeFields([]) == [];
    }
  }

  /** Redacting a URL that has already been redacted returns it unchanged. */
  lemma RedactUrlIdempotent(url: string, names: seq<string>, token: string)
    requires UrlParse(url).Some? && UrlParse(url).value.netloc != "" && token != ""
    ensures RedactUrl(RedactUrl(url, names, token), names, token) == RedactUrl(url, names, token)
  {
    var p := UrlParse(url).value;
    var q := Redacted(ParseQs(p.query), names, token);
    RedactUrlKeepsSlots(url, names, token);
    RedactUrlQuery(url, names, token);
    RedactedIdempotent(ParseQs(p.query), names, token);
    assert UrlParse(RedactUrl(url, names, token)) == Some(p.(query := UrlEncode(q)));
  }
}
