/** Percent-encoding of query names and values as urllib.parse does it:
    `quote_plus` (used by `urlencode`) and `unquote_plus` (used by `parse_qs`),
    both over the UTF-8 bytes of the text, decoding with the 'replace' error handler. */
module PercentCoding {
  import opened Strings

  type Byte = b: int | 0 <= b < 256

  /** U+FFFD, what the 'replace' error handler puts in place of malformed UTF-8. */
  const Replacement: char := '\U{FFFD}'

  /** The characters `quote` never escapes: ASCII letters, digits and `_.-~`. */
  predicate AlwaysSafe(c: char) { IsAsciiAlnum(c) || c == '_' || c == '.' || c == '-' || c == '~' }

  /** The characters `quote_plus` can produce. */
  predicate IsQuoted(c: char) { AlwaysSafe(c) || c == '+' || c == '%' }

  // ---------------------------------------------------------------- UTF-8

  /** The UTF-8 encoding of one Unicode scalar value. */
  function Utf8(c: char): (b: seq<Byte>)
    ensures 1 <= |b| <= 4
    ensures (c as int < 0x80) == (|b| == 1)
  {
    var n := c as int;
    if n < 0x80 then [n]
    else if n < 0x800 then [0xC0 + n / 64, 0x80 + n % 64]
    else if n < 0x1_0000 then
      var r := n % 4096;
      [0xE0 + n / 4096, 0x80 + r / 64, 0x80 + r % 64]
    else
      var r := n % 262144;
      var r2 := r % 4096;
      [0xF0 + n / 262144, 0x80 + r / 4096, 0x80 + r2 / 64, 0x80 + r2 % 64]
  }

  /** `s.encode('utf-8')`. */
  function Utf8Encode(s: string): seq<Byte>
  {
    if s == [] then [] else Utf8(s[0]) + Utf8Encode(s[1..])
  }

  /** Whether byte `j` of a sequence starting at a lead byte is an acceptable continuation:
      the first one (j == 1) must lie in `lo..hi`, the later ones in 0x80..0xBF. */
  predicate ContinuationOk(b: seq<Byte>, j: nat, lo: int, hi: int)
    requires j < |b|
  {
    if j == 1 then lo <= b[j] <= hi else 0x80 <= b[j] <= 0xBF
  }

  /** How many of the `need` continuation bytes after a lead byte are present and acceptable,
      counting on from the `k` already found. */
  function Continuations(b: seq<Byte>, k: nat, need: nat, lo: int, hi: int): (r: nat)
    requires k <= need && k < |b|
    requires forall j :: 0 < j <= k ==> ContinuationOk(b, j, lo, hi)
    ensures k <= r <= need && r < |b|
    ensures forall j :: 0 < j <= r ==> ContinuationOk(b, j, lo, hi)
    ensures r < need && r + 1 < |b| ==> !ContinuationOk(b, r + 1, lo, hi)
    decreases need - k
  {
    if k < need && k + 1 < |b| && ContinuationOk(b, k + 1, lo, hi)
    then Continuations(b, k + 1, need, lo, hi)
    else k
  }

  /** Decodes the first character of a non-empty byte string the way Python's UTF-8 decoder with
      errors='replace' does: a well-formed sequence gives its scalar value; otherwise the lead byte
      and the continuation bytes that were still acceptable become one U+FFFD. Also gives the
      number of bytes consumed. */
  function DecodeFirst(b: seq<Byte>): (r: (char, nat))
    requires |b| > 0
    ensures 1 <= r.1 <= |b|
  {
    var lead: int := b[0];
    if lead < 0x80 then (lead as char, 1)
    else if lead < 0xC2 || lead > 0xF4 then (Replacement, 1)
    else
      var need := if lead < 0xE0 then 1 else if lead < 0xF0 then 2 else 3;
      var lo := if lead == 0xE0 then 0xA0 else if lead == 0xF0 then 0x90 else 0x80;
      var hi := if lead == 0xED then 0x9F else if lead == 0xF4 then 0x8F else 0xBF;
      var k := Continuations(b, 0, need, lo, hi);
      if k < need then (Replacement, 1 + k)
      else
        assert ContinuationOk(b, 1, lo, hi);
        var c1: int := b[1] - 0x80;
        if need == 1 then (((lead - 0xC0) * 64 + c1) as char, 2)
        else
          assert ContinuationOk(b, 2, lo, hi);
          var c2: int := b[2] - 0x80;
          if need == 2 then (((lead - 0xE0) * 4096 + c1 * 64 + c2) as char, 3)
          else
            assert ContinuationOk(b, 3, lo, hi);
            var c3: int := b[3] - 0x80;
            (((lead - 0xF0) * 262144 + c1 * 4096 + c2 * 64 + c3) as char, 4)
  }

  /** `b.decode('utf-8', 'replace')`. */
  function Utf8Decode(b: seq<Byte>): string
    decreases |b|
  {
    if b == [] then [] else var (c, n) := DecodeFirst(b); [c] + Utf8Decode(b[n..])
  }

  lemma DecodeFirstOfUtf8(c: char, rest: seq<Byte>)
    ensures DecodeFirst(Utf8(c) + rest) == (c, |Utf8(c)|)
  {
    var n := c as int;
    if 0x80 <= n < 0x800 {
      DecodeTwo(c, rest);
    } else if 0x800 <= n < 0x1_0000 {
      DecodeThree(c, rest);
    } else if 0x1_0000 <= n {
      DecodeFour(c, rest);
    }
  }

  lemma DecodeTwo(c: char, rest: seq<Byte>)
    requires 0x80 <= c as int < 0x800
    ensures DecodeFirst(Utf8(c) + rest) == (c, 2)
  {
    var b := Utf8(c) + rest;
    assert Continuations(b, 1, 1, 0x80, 0xBF) == 1;
  }

  lemma DecodeThree(c: char, rest: seq<Byte>)
    requires 0x800 <= c as int < 0x1_0000
    ensures DecodeFirst(Utf8(c) + rest) == (c, 3)
  {
    var n := c as int;
    var b := Utf8(c) + rest;
    var r := n % 4096;
    assert b[0] == 0xE0 + n / 4096 && b[1] == 0x80 + r / 64 && b[2] == 0x80 + r % 64;
    var lo := if b[0] == 0xE0 then 0xA0 else 0x80;
    var hi := if b[0] == 0xED then 0x9F else 0xBF;
    assert ContinuationOk(b, 1, lo, hi);
    assert Continuations(b, 2, 2, lo, hi) == 2;
    assert Continuations(b, 1, 2, lo, hi) == 2;
  }

  lemma DecodeFour(c: char, rest: seq<Byte>)
    requires 0x1_0000 <= c as int
    ensures DecodeFirst(Utf8(c) + rest) == (c, 4)
  {
    var n := c as int;
    var b := Utf8(c) + rest;
    var r := n % 262144;
    var r2 := r % 4096;
    assert b[0] == 0xF0 + n / 262144 && b[1] == 0x80 + r / 4096;
    assert b[2] == 0x80 + r2 / 64 && b[3] == 0x80 + r2 % 64;
    var lo := if b[0] == 0xF0 then 0x90 else 0x80;
    var hi := if b[0] == 0xF4 then 0x8F else 0xBF;
    assert ContinuationOk(b, 1, lo, hi);
    assert Continuations(b, 3, 3, lo, hi) == 3;
    assert Continuations(b, 2, 3, lo, hi) == 3;
    assert Continuations(b, 1, 3, lo, hi) == 3;
  }

  /** Decoding undoes encoding: UTF-8 is lossless on Unicode scalar values. */
  lemma {:induction false} Utf8RoundTrip(s: string)
    ensures Utf8Decode(Utf8Encode(s)) == s
    decreases |s|
  {
    if s != [] {
      var b := Utf8Encode(s);
      assert b == Utf8(s[0]) + Utf8Encode(s[1..]);
      DecodeFirstOfUtf8(s[0], Utf8Encode(s[1..]));
      assert b[|Utf8(s[0])|..] == Utf8Encode(s[1..]);
      Utf8RoundTrip(s[1..]);
      assert s == [s[0]] + s[1..];
    }
  }

  // ---------------------------------------------------------------- quote_plus

  /** `%XX` for every byte, upper-case hexadecimal. */
  function Escape(b: seq<Byte>): (r: string)
    ensures |r| == 3 * |b|
    ensures forall k :: 0 <= k < |r| ==> r[k] == '%' || (IsHexDigit(r[k]) && AlwaysSafe(r[k]))
  {
    if b == [] then "" else ['%', HexDigit(b[0] / 16), HexDigit(b[0] % 16)] + Escape(b[1..])
  }

  /** What `quote_plus(s, safe='')` writes for one character: a space becomes `+`, an
      always-safe character stays, anything else is percent-escaped byte by byte. */
  function QuoteChar(c: char): (r: string)
    ensures |r| >= 1
    ensures forall k :: 0 <= k < |r| ==> IsQuoted(r[k])
  {
    if AlwaysSafe(c) then [c] else if c == ' ' then "+" else Escape(Utf8(c))
  }

  /** `quote_plus(s, safe='')`, as `urlencode` applies it to every name and value. */
  function QuotePlus(s: string): (r: string)
    ensures forall k :: 0 <= k < |r| ==> IsQuoted(r[k])
    ensures (r == "") == (s == "")
  {
    if s == [] then "" else QuoteChar(s[0]) + QuotePlus(s[1..])
  }

  // ---------------------------------------------------------------- unquote_plus

  /** `unquote`, scanning left to right: every run of ASCII characters is turned into bytes
      (`%XX` with two hexadecimal digits gives one byte, any other ASCII character its own code)
      and decoded as UTF-8 with 'replace' when the run ends; other characters are copied.
      `pending` holds the bytes of the current run. */
  function UnquoteRun(s: string, pending: seq<Byte>): string
    decreases |s|
  {
    if s == [] then Utf8Decode(pending)
    else if s[0] as int >= 0x80 then Utf8Decode(pending) + [s[0]] + UnquoteRun(s[1..], [])
    else if s[0] == '%' && |s| >= 3 && IsHexDigit(s[1]) && IsHexDigit(s[2])
    then UnquoteRun(s[3..], pending + [HexValue(s[1]) * 16 + HexValue(s[2])])
    else UnquoteRun(s[1..], pending + [s[0] as int])
  }

  /** `unquote_plus(s)`: `+` is read as a space, then `unquote`. */
  function UnquotePlus(s: string): string
  {
    UnquoteRun(Replace(s, '+', ' '), [])
  }

  lemma {:induction false} UnquoteEscape(b: seq<Byte>, rest: string, pending: seq<Byte>)
    ensures UnquoteRun(Escape(b) + rest, pending) == UnquoteRun(rest, pending + b)
    decreases |b|
  {
    if b == [] {
      assert Escape(b) + rest == rest;
      assert pending + b == pending;
    } else {
      var s := Escape(b) + rest;
      assert s == ['%', HexDigit(b[0] / 16), HexDigit(b[0] % 16)] + (Escape(b[1..]) + rest);
      assert s[3..] == Escape(b[1..]) + rest;
      assert HexValue(s[1]) * 16 + HexValue(s[2]) == b[0];
      UnquoteEscape(b[1..], rest, pending + [b[0]]);
      assert pending + [b[0]] + b[1..] == pending + b;
    }
  }

  lemma ReplaceAppend(a: string, b: string, x: char, y: char)
    ensures Replace(a + b, x, y) == Replace(a, x, y) + Replace(b, x, y)
  {
    assert Replace(a + b, x, y) == Replace(a, x, y) + Replace(b, x, y);
  }

  /** Reading one quoted character back adds exactly its UTF-8 bytes to the current run. */
  lemma UnquoteQuoteChar(c: char, rest: string, pending: seq<Byte>)
    ensures UnquoteRun(Replace(QuoteChar(c), '+', ' ') + rest, pending) == UnquoteRun(rest, pending + Utf8(c))
  {
    if AlwaysSafe(c) {
      assert Replace([c], '+', ' ') == [c];
      assert ([c] + rest)[1..] == rest;
    } else if c == ' ' {
      assert Replace("+", '+', ' ') == " ";
      assert (" " + rest)[1..] == rest;
    } else {
      var e := Escape(Utf8(c));
      assert Replace(e, '+', ' ') == e;
      UnquoteEscape(Utf8(c), rest, pending);
    }
  }

  lemma {:induction false} UnquoteQuoted(s: string, pending: seq<Byte>)
    ensures UnquoteRun(Replace(QuotePlus(s), '+', ' '), pending) == Utf8Decode(pending + Utf8Encode(s))
    decreases |s|
  {
    if s == [] {
      assert Utf8Encode(s) == [] && pending + [] == pending;
    } else {
      ReplaceAppend(QuoteChar(s[0]), QuotePlus(s[1..]), '+', ' ');
      UnquoteQuoteChar(s[0], Replace(QuotePlus(s[1..]), '+', ' '), pending);
      UnquoteQuoted(s[1..], pending + Utf8(s[0]));
      assert pending + Utf8(s[0]) + Utf8Encode(s[1..]) == pending + Utf8Encode(s);
    }
  }

  /** `unquote_plus(quote_plus(s)) == s`: what `urlencode` writes, `parse_qs` reads back unchanged. */
  lemma QuoteRoundTrip(s: string)
    ensures UnquotePlus(QuotePlus(s)) == s
  {
    UnquoteQuoted(s, []);
    assert [] + Utf8Encode(s) == Utf8Encode(s);
    Utf8RoundTrip(s);
  }

  /** Unquoting never empties a non-empty string: every byte run decodes to at least one
      character and every other character is copied. */
  lemma {:induction false} UnquoteRunNonEmpty(s: string, pending: seq<Byte>)
    requires s != [] || pending != []
    ensures UnquoteRun(s, pending) != []
    decreases |s|
  {
    if s != [] && s[0] as int < 0x80 {
      if s[0] == '%' && |s| >= 3 && IsHexDigit(s[1]) && IsHexDigit(s[2]) {
        UnquoteRunNonEmpty(s[3..], pending + [HexValue(s[1]) * 16 + HexValue(s[2])]);
      } else {
        UnquoteRunNonEmpty(s[1..], pending + [s[0] as int]);
      }
    }
  }

  lemma UnquotePlusNonEmpty(s: string)
    requires s != ""
    ensures UnquotePlus(s) != ""
  {
    UnquoteRunNonEmpty(Replace(s, '+', ' '), []);
  }
}
