/** `parse_qs` (with its defaults: `&` as the only separator, blank values dropped) and
    `urlencode(..., doseq=True)`, the query codec of `redact_url_parameters`. The decoded query
    is a dict from name to list of values; it is kept here as a sequence of
    (name, values) pairs with distinct names, in the dict's insertion order. */
module QueryString {
  import opened Strings
  import opened PercentCoding

  /** A parsed query: the names in insertion order, each with its list of values. */
  type Query = seq<(string, seq<string>)>

  /** Dict keys are unique. */
  predicate DistinctNames(q: Query)
  {
    forall i, j :: 0 <= i < j < |q| ==> q[i].0 != q[j].0
  }

  /** Position of `name` among the keys, or |q| when it is not a key
      (`name in query_params` is `IndexOf(q, name) < |q|`). */
  function IndexOf(q: Query, name: string): (i: nat)
    ensures i <= |q|
    ensures i < |q| ==> q[i].0 == name
    ensures forall k :: 0 <= k < i ==> q[k].0 != name
    decreases |q|
  {
    if q == [] then 0 else if q[0].0 == name then 0 else 1 + IndexOf(q[1..], name)
  }

  /** `query_params.get(name)`. */
  function Lookup(q: Query, name: string): Option<seq<string>>
  {
    var i := IndexOf(q, name);
    if i < |q| then Some(q[i].1) else None
  }

  /** In a dict every key is found at its own position. */
  lemma IndexOfDistinct(q: Query, j: nat)
    requires DistinctNames(q) && j < |q|
    ensures IndexOf(q, q[j].0) == j
  {
  }

  /** Two queries with the same keys at the same positions find every name at the same place. */
  lemma {:induction false} IndexOfSameNames(q: Query, r: Query, name: string)
    requires |q| == |r| && forall k :: 0 <= k < |q| ==> q[k].0 == r[k].0
    ensures IndexOf(q, name) == IndexOf(r, name)
    decreases |q|
  {
    if q != [] && q[0].0 != name {
      IndexOfSameNames(q[1..], r[1..], name);
    }
  }

  // ---------------------------------------------------------------- parse_qsl / parse_qs

  /** One `&`-separated field as `parse_qsl` reads it when blank values are not kept: a field
      without `=` and a field whose value part is empty give nothing; otherwise the name (before
      the first `=`) and the value (after it) are each passed through `unquote_plus`. */
  function ParseField(field: string): Option<(string, string)>
  {
    var i := Find(field, '=');
    if i + 1 >= |field| then None
    else Some((UnquotePlus(field[..i]), UnquotePlus(field[i + 1..])))
  }

  /** The pairs of a list of fields, in order. */
  function ParseFields(fields: seq<string>): seq<(string, string)>
  {
    if fields == [] then []
    else
      (match ParseField(fields[0]) case None => [] case Some(nv) => [nv]) + ParseFields(fields[1..])
  }

  /** `parse_qsl(qs)`: the query split at every `&`, each field read in turn. */
  function ParseQsl(qs: string): seq<(string, string)>
  {
    ParseFields(Split(qs, '&'))
  }

  /** The values given for `name` in `pairs`, in order. */
  function ValuesOf(pairs: seq<(string, string)>, name: string): seq<string>
  {
    if pairs == [] then []
    else
      var last := pairs[|pairs| - 1];
      ValuesOf(pairs[..|pairs| - 1], name) + (if last.0 == name then [last.1] else [])
  }

  /** One step of `parse_qs`'s loop: the value is appended to the name's list when the name is
      already a key, and otherwise the name becomes a new key at the end with a one-value list. */
  function AddPair(q: Query, name: string, value: string): (r: Query)
    ensures DistinctNames(q) ==> DistinctNames(r)
    ensures Lookup(r, name) == Some((if Lookup(q, name).Some? then Lookup(q, name).value else []) + [value])
    ensures forall n :: n != name ==> Lookup(r, n) == Lookup(q, n)
    ensures |r| == |q| + (if Lookup(q, name).None? then 1 else 0)
    ensures forall k :: 0 <= k < |q| ==> r[k].0 == q[k].0
    ensures Lookup(q, name).None? ==> r[|q|].0 == name
  {
    var i := IndexOf(q, name);
    if i < |q| then
      var r := q[i := (name, q[i].1 + [value])];
      assert forall k :: 0 <= k < |q| ==> r[k].0 == q[k].0;
      assert forall n :: IndexOf(r, n) == IndexOf(q, n) by {
        forall n ensures IndexOf(r, n) == IndexOf(q, n) {
          IndexOfSameNames(q, r, n);
        }
      }
      r
    else
      var r := q + [(name, [value])];
      assert forall k :: 0 <= k < |q| ==> r[k] == q[k];
      assert forall n :: IndexOf(r, n) == if IndexOf(q, n) < |q| || n == name then IndexOf(q, n) else |q| + 1 by {
        forall n ensures IndexOf(r, n) == if IndexOf(q, n) < |q| || n == name then IndexOf(q, n) else |q| + 1 {
          IndexOfAppend(q, (name, [value]), n);
        }
      }
      assert Lookup(r, name) == Some([value]);
      assert [] + [value] == [value];
      r
  }

  /** Appending an entry leaves every earlier key where it was. */
  lemma {:induction false} IndexOfAppend(q: Query, e: (string, seq<string>), n: string)
    ensures IndexOf(q + [e], n) ==
      if IndexOf(q, n) < |q| then IndexOf(q, n) else if e.0 == n then |q| else |q| + 1
    decreases |q|
  {
    if q != [] {
      assert (q + [e])[1..] == q[1..] + [e];
      IndexOfAppend(q[1..], e, n);
    }
  }

  /** `parse_qs`: the pairs of `parse_qsl` grouped by name, each name at its first occurrence. */
  function Group(pairs: seq<(string, string)>): (r: Query)
    ensures DistinctNames(r)
    ensures forall n :: Lookup(r, n) == (if ValuesOf(pairs, n) == [] then None else Some(ValuesOf(pairs, n)))
  {
    if pairs == [] then []
    else
      var last := pairs[|pairs| - 1];
      var before := pairs[..|pairs| - 1];
      var q := Group(before);
      var r := AddPair(q, last.0, last.1);
      assert forall n :: Lookup(r, n) == (if ValuesOf(pairs, n) == [] then None else Some(ValuesOf(pairs, n))) by {
        forall n ensures Lookup(r, n) == (if ValuesOf(pairs, n) == [] then None else Some(ValuesOf(pairs, n))) {
          assert ValuesOf(pairs, n) == ValuesOf(before, n) + (if last.0 == n then [last.1] else []);
          if n == last.0 {
            assert ValuesOf(before, n) == [] ==> ValuesOf(before, n) + [last.1] == [last.1];
          } else {
            assert ValuesOf(pairs, n) == ValuesOf(before, n);
          }
        }
      }
      r
  }

  /** `parse_qs(qs)`. */
  function ParseQs(qs: string): Query
  {
    Group(ParseQsl(qs))
  }

  // ---------------------------------------------------------------- urlencode

  /** The (name, value) pairs of a query, one per value, names in order. */
  function Flatten(q: Query): seq<(string, string)>
  {
    if q == [] then [] else Flatten(q[..|q| - 1]) + PairsOf(q[|q| - 1].0, q[|q| - 1].1)
  }

  /** `(name, v)` for every value `v` of one name. */
  function PairsOf(name: string, values: seq<string>): (r: seq<(string, string)>)
    ensures |r| == |values| && forall k :: 0 <= k < |values| ==> r[k] == (name, values[k])
  {
    seq(|values|, k requires 0 <= k < |values| => (name, values[k]))
  }

  /** The characters of an encoded field: those `quote_plus` writes, and `=`. */
  predicate IsFieldChar(c: char) { IsQuoted(c) || c == '=' }

  /** The characters of an encoded query: those of its fields, and `&`. */
  predicate IsEncodedChar(c: char) { IsFieldChar(c) || c == '&' }

  /** `quote_plus(name) + '=' + quote_plus(value)`. */
  function EncodePair(nv: (string, string)): (r: string)
    ensures forall k :: 0 <= k < |r| ==> IsFieldChar(r[k])
  {
    QuotePlus(nv.0) + "=" + QuotePlus(nv.1)
  }

  /** `urlencode(q, doseq=True)`: one `name=value` field per value, joined with `&`. */
  function UrlEncode(q: Query): (r: string)
    ensures forall k :: 0 <= k < |r| ==> IsEncodedChar(r[k])
  {
    var fields := EncodeFields(Flatten(q));
    JoinAlphabet(fields);
    Join(fields, '&')
  }

  /** One encoded field per pair, in order. */
  function EncodeFields(pairs: seq<(string, string)>): (fields: seq<string>)
    ensures |fields| == |pairs|
    ensures forall j :: 0 <= j < |pairs| ==> fields[j] == EncodePair(pairs[j])
  {
    seq(|pairs|, k requires 0 <= k < |pairs| => EncodePair(pairs[k]))
  }

  /** Joining fields of quoted characters and `=` with `&` gives only those characters. */
  lemma {:induction false} JoinAlphabet(fields: seq<string>)
    requires forall j :: 0 <= j < |fields| ==> forall k :: 0 <= k < |fields[j]| ==> IsFieldChar(fields[j][k])
    ensures forall k :: 0 <= k < |Join(fields, '&')| ==> IsEncodedChar(Join(fields, '&')[k])
    decreases |fields|
  {
    if |fields| == 1 {
      assert Join(fields, '&') == fields[0];
    } else if |fields| > 1 {
      assert forall j :: 0 <= j < |fields| - 1 ==> fields[1..][j] == fields[j + 1];
      JoinAlphabet(fields[1..]);
      var t := Join(fields[1..], '&');
      var r := fields[0] + ['&'] + t;
      assert forall k :: 0 <= k < |fields[0]| ==> r[k] == fields[0][k];
      assert forall k :: |fields[0]| + 1 <= k < |r| ==> r[k] == t[k - |fields[0]| - 1];
      assert r == Join(fields, '&');
    }
  }

  // ---------------------------------------------------------------- round trip

  /** What `parse_qs` produces and `urlencode` writes back in full: every key has at least one
      value and no value is empty. */
  predicate NonBlank(q: Query)
  {
    forall i :: 0 <= i < |q| ==> q[i].1 != [] && forall v :: v in q[i].1 ==> v != ""
  }

  /** Reading an encoded field gives back its name and value, when the value is not empty. */
  lemma ParseEncodedField(nv: (string, string))
    requires nv.1 != ""
    ensures ParseField(EncodePair(nv)) == Some(nv)
  {
    var name, value := QuotePlus(nv.0), QuotePlus(nv.1);
    assert '=' !in name by {
      assert forall k :: 0 <= k < |name| ==> IsQuoted(name[k]);
    }
    assert EncodePair(nv) == name + ['='] + value;
    SplitAtFirst(name, value, '=');
    QuoteRoundTrip(nv.0);
    QuoteRoundTrip(nv.1);
  }

  lemma {:induction false} ParseEncodedFields(pairs: seq<(string, string)>)
    requires forall k :: 0 <= k < |pairs| ==> pairs[k].1 != ""
    ensures ParseFields(EncodeFields(pairs)) == pairs
    decreases |pairs|
  {
    if pairs != [] {
      var fields := EncodeFields(pairs);
      assert fields[1..] == EncodeFields(pairs[1..]);
      ParseEncodedField(pairs[0]);
      ParseEncodedFields(pairs[1..]);
      ParseFieldsCons(fields, pairs[0]);
      assert pairs == [pairs[0]] + pairs[1..];
    }
  }

  /** `ParseFields` unfolded once, at a first field that reads as a pair. */
  lemma ParseFieldsCons(fields: seq<string>, nv: (string, string))
    requires fields != [] && ParseField(fields[0]) == Some(nv)
    ensures ParseFields(fields) == [nv] + ParseFields(fields[1..])
  {
  }

  /** The pairs of a query with no blank value have no empty value either. */
  lemma {:induction false} FlattenNonBlank(q: Query)
    requires NonBlank(q)
    ensures forall k :: 0 <= k < |Flatten(q)| ==> Flatten(q)[k].1 != ""
    ensures q != [] ==> Flatten(q) != []
    decreases |q|
  {
    if q != [] {
      var init := q[..|q| - 1];
      var last := q[|q| - 1];
      FlattenNonBlank(init);
      var a, b := Flatten(init), PairsOf(last.0, last.1);
      assert forall k :: 0 <= k < |b| ==> b[k].1 == last.1[k] && last.1[k] in last.1;
      assert forall k :: |a| <= k < |a| + |b| ==> (a + b)[k] == b[k - |a|];
    }
  }

  /** One step of `parse_qs`'s loop on the last pair. */
  lemma GroupLast(pairs: seq<(string, string)>, init: seq<(string, string)>, name: string, value: string)
    requires pairs == init + [(name, value)]
    ensures Group(pairs) == AddPair(Group(init), name, value)
  {
    assert pairs[..|pairs| - 1] == init;
  }

  /** Adding a value under the last key extends that key's list. */
  lemma AddPairToLast(g: Query, name: string, values: seq<string>, value: string)
    requires IndexOf(g, name) == |g|
    ensures AddPair(g + [(name, values)], name, value) == g + [(name, values + [value])]
  {
    IndexOfAppend(g, (name, values), name);
  }

  /** Grouping the pairs of a name that is not yet a key adds that name at the end,
      with all its values in order. */
  lemma {:induction false} GroupNewName(pairs: seq<(string, string)>, name: string, values: seq<string>)
    requires IndexOf(Group(pairs), name) == |Group(pairs)| && values != []
    ensures Group(pairs + PairsOf(name, values)) == Group(pairs) + [(name, values)]
    decreases |values|
  {
    var v := values[|values| - 1];
    var init := values[..|values| - 1];
    assert values == init + [v];
    PairsOfSnoc(pairs, name, values);
    GroupLast(pairs + PairsOf(name, values), pairs + PairsOf(name, init), name, v);
    if init == [] {
      GroupFirstValue(pairs, name, v);
    } else {
      GroupNewName(pairs, name, init);
      GroupNextValue(pairs, name, init, v);
    }
  }

  /** A further value of a name that was added last extends that name's list. */
  lemma GroupNextValue(pairs: seq<(string, string)>, name: string, init: seq<string>, v: string)
    requires IndexOf(Group(pairs), name) == |Group(pairs)|
    requires Group(pairs + PairsOf(name, init)) == Group(pairs) + [(name, init)]
    ensures AddPair(Group(pairs + PairsOf(name, init)), name, v) == Group(pairs) + [(name, init + [v])]
  {
    AddPairToLast(Group(pairs), name, init, v);
  }

  /** The pairs of a name's values are those of all but the last value, then the last one. */
  lemma PairsOfSnoc(pairs: seq<(string, string)>, name: string, values: seq<string>)
    requires values != []
    ensures pairs + PairsOf(name, values) ==
      (pairs + PairsOf(name, values[..|values| - 1])) + [(name, values[|values| - 1])]
  {
    assert PairsOf(name, values) == PairsOf(name, values[..|values| - 1]) + [(name, values[|values| - 1])];
  }

  /** The first value of a name that is not yet a key adds that name at the end. */
  lemma GroupFirstValue(pairs: seq<(string, string)>, name: string, v: string)
    requires IndexOf(Group(pairs), name) == |Group(pairs)|
    ensures AddPair(Group(pairs + PairsOf(name, [])), name, v) == Group(pairs) + [(name, [v])]
  {
    assert pairs + PairsOf(name, []) == pairs;
    IndexOfAppend(Group(pairs), (name, [v]), name);
    assert [] + [v] == [v];
  }

  /** `parse_qs` regroups the pairs of a dict exactly into that dict. */
  lemma {:induction false} GroupFlatten(q: Query)
    requires DistinctNames(q) && NonBlank(q)
    ensures Group(Flatten(q)) == q
    decreases |q|
  {
    if q != [] {
      var init := q[..|q| - 1];
      var last := q[|q| - 1];
      DictInit(q);
      var g := Flatten(init);
      calc {
        Group(Flatten(q));
        { assert Flatten(q) == g + PairsOf(last.0, last.1); }
        Group(g + PairsOf(last.0, last.1));
        { GroupFlatten(init); GroupNewName(g, last.0, last.1); }
        init + [last];
        q;
      }
    }
  }

  /** A dict without its last key is still such a dict, and does not hold that key. */
  lemma DictInit(q: Query)
    requires DistinctNames(q) && NonBlank(q) && q != []
    ensures var init, last := q[..|q| - 1], q[|q| - 1];
      && DistinctNames(init) && NonBlank(init)
      && IndexOf(init, last.0) == |init| && last.1 != []
  {
    var init, last := q[..|q| - 1], q[|q| - 1];
    assert forall k :: 0 <= k < |init| ==> init[k] == q[k];
    assert forall k :: 0 <= k < |init| ==> init[k].0 != last.0;
  }

  /** `parse_qs(urlencode(q, doseq=True)) == q` for every dict with distinct keys, at least one
      value per key and no empty value. */
  lemma QueryRoundTrip(q: Query)
    requires DistinctNames(q) && NonBlank(q)
    ensures ParseQs(UrlEncode(q)) == q
  {
    var pairs := Flatten(q);
    var fields := EncodeFields(pairs);
    FlattenNonBlank(q);
    if q == [] {
      assert Join(fields, '&') == "";
      assert Split("", '&') == [""];
    } else {
      assert forall j :: 0 <= j < |fields| ==> '&' !in fields[j] by {
        forall j | 0 <= j < |fields| ensures '&' !in fields[j] {
          var f := fields[j];
          assert forall k :: 0 <= k < |f| ==> IsFieldChar(f[k]);
        }
      }
      SplitJoin(fields, '&');
      ParseEncodedFields(pairs);
      GroupFlatten(q);
    }
  }

  /** Every dict `parse_qs` produces has at least one value per key and no empty value. */
  lemma ParsedNonBlank(qs: string)
    ensures NonBlank(ParseQs(qs))
  {
    ParsedPairsNonBlank(Split(qs, '&'));
    GroupNonBlank(ParseQsl(qs));
  }

  lemma {:induction false} ParsedPairsNonBlank(fields: seq<string>)
    ensures forall k :: 0 <= k < |ParseFields(fields)| ==> ParseFields(fields)[k].1 != ""
    decreases |fields|
  {
    if fields != [] {
      ParsedPairsNonBlank(fields[1..]);
      var f := fields[0];
      var i := Find(f, '=');
      if i + 1 < |f| {
        UnquotePlusNonEmpty(f[i + 1..]);
      }
      var head := match ParseField(f) case None => [] case Some(nv) => [nv];
      var a, b := head, ParseFields(fields[1..]);
      assert forall k :: |a| <= k < |a| + |b| ==> (a + b)[k] == b[k - |a|];
    }
  }

  /** `parse_qs` gives every key at least one value, and only values it was given. */
  lemma {:induction false} GroupNonBlank(pairs: seq<(string, string)>)
    requires forall k :: 0 <= k < |pairs| ==> pairs[k].1 != ""
    ensures NonBlank(Group(pairs))
  {
    var g := Group(pairs);
    forall i | 0 <= i < |g| ensures g[i].1 != [] && forall v :: v in g[i].1 ==> v != "" {
      IndexOfDistinct(g, i);
      assert Lookup(g, g[i].0) == Some(g[i].1);
      ValuesNonBlank(pairs, g[i].0);
    }
  }

  lemma {:induction false} ValuesNonBlank(pairs: seq<(string, string)>, name: string)
    requires forall k :: 0 <= k < |pairs| ==> pairs[k].1 != ""
    ensures forall v :: v in ValuesOf(pairs, name) ==> v != ""
    decreases |pairs|
  {
    if pairs != [] {
      ValuesNonBlank(pairs[..|pairs| - 1], name);
    }
  }

  /** A query that is one field without `=` holds no parameter: `parse_qs` drops the field. */
  lemma BareFieldDropped(field: string)
    requires '&' !in field && '=' !in field
    ensures ParseQs(field) == []
  {
    assert Split(field, '&') == [field];
    assert ParseField(field).None?;
    assert ParseFields([field]) == [] by {
      assert [field][1..] == [];
    }
  }

  /** A field with an empty value is dropped: `name=&rest` parses as `rest` alone, so a name
      given only a blank value is not a key of the dict. */
  lemma BlankValueDropped(name: string, rest: string)
    requires '&' !in name && '=' !in name
    ensures ParseQs(name + "=&" + rest) == ParseQs(rest)
  {
    var blank := name + "=";
    var s := blank + ['&'] + rest;
    assert name + "=&" + rest == s;
    assert '&' !in blank by {
      assert forall k :: 0 <= k < |name| ==> blank[k] == name[k];
    }
    assert Split(s, '&') == [blank] + Split(rest, '&') by {
      assert s[..|blank|] == blank && s[|blank| + 1..] == rest;
      SplitAt(s, '&', |blank|);
    }
    FindAppend(name, "=", '=');
    assert ParseField(blank) == None;
    assert ParseFields([blank] + Split(rest, '&')) == ParseFields(Split(rest, '&'));
  }
}
