/**
  Percent coding of query parameters and the printing and parsing of query strings
  (section 2.1 of RFC 3986).
 */
module Url {
  import opened Text

  predicate IsBytes(s: string) { forall i :: 0 <= i < |s| ==> s[i] as int < 256 }

  /** Letters, digits and the nine marks that are copied as they are. */
  predicate Unreserved(c: char) {
    'a' <= c <= 'z' || 'A' <= c <= 'Z' || '0' <= c <= '9' || c in "-_.!~*'()"
  }

  function HexUpper(n: nat): char
    requires n < 16
  {
    if n < 10 then ('0' as int + n) as char else ('A' as int + n - 10) as char
  }

  function EncodeByte(c: char): string
    requires c as int < 256
  {
    if Unreserved(c) then [c] else ['%', HexUpper(c as int / 16), HexUpper(c as int % 16)]
  }

  function EncodeQueryParam(s: string): string
    requires IsBytes(s)
  {
    if s == "" then "" else EncodeByte(s[0]) + EncodeQueryParam(s[1..])
  }

  lemma {:induction false} EncodeSnoc(s: string, c: char)
    requires IsBytes(s) && c as int < 256
    ensures IsBytes(s + [c]) && EncodeQueryParam(s + [c]) == EncodeQueryParam(s) + EncodeByte(c)
  {
    if s == "" {
      assert [c][1..] == "" && s + [c] == [c];
    } else {
      EncodeSnoc(s[1..], c);
      assert (s + [c])[1..] == s[1..] + [c];
    }
  }

  /** The loop over the characters of the value. */
  method EncodeQueryParamLoop(value: string) returns (escaped: string)
    requires IsBytes(value)
    ensures escaped == EncodeQueryParam(value)
  {
    escaped := "";
    var i := 0;
    while i < |value|
      invariant 0 <= i <= |value| && escaped == EncodeQueryParam(value[..i])
    {
      EncodeSnoc(value[..i], value[i]);
      assert value[..i + 1] == value[..i] + [value[i]];
      escaped := escaped + EncodeByte(value[i]);
      i := i + 1;
    }
    assert value[..i] == value;
  }

  // ----- decoding -----

  /** Value of a hexadecimal digit, 16 when c is none. */
  function HexValue(c: char): (v: nat)
    ensures v <= 16
  {
    if '0' <= c <= '9' then c as int - '0' as int
    else if 'A' <= c <= 'F' then c as int - 'A' as int + 10
    else if 'a' <= c <= 'f' then c as int - 'a' as int + 10
    else 16
  }

  /** The byte written by the first two hexadecimal digits of s, if they are digits. */
  function HexPair(s: string): (r: Option<nat>)
    ensures r.Some? ==> |s| >= 2 && r.value < 256
  {
    if |s| >= 2 && HexValue(s[0]) < 16 && HexValue(s[1]) < 16
    then Some(HexValue(s[0]) * 16 + HexValue(s[1])) else None
  }

  function HexQuad(s: string): (r: Option<nat>)
    ensures r.Some? ==> |s| >= 4 && r.value < 65536
  {
    if HexPair(s).Some? && HexPair(s[2..]).Some?
    then Some(HexPair(s).value * 256 + HexPair(s[2..]).value) else None
  }

  /** UTF-8 bytes of a code below 65536; surrogates have none. */
  function Utf8(code: nat): (r: string)
    requires code < 65536
    ensures |r| <= 3
  {
    if code < 0x80 then [code as char]
    else if code < 0x800 then [(0xC0 + code / 64) as char, (0x80 + code % 64) as char]
    else if 0xD800 <= code < 0xE000 then ""
    else [(0xE0 + code / 4096) as char, (0x80 + code / 64 % 64) as char, (0x80 + code % 64) as char]
  }

  /** How many input bytes the next output comes from, and what that output is. */
  function DecodeStep(s: string, plus: bool): (r: (nat, string))
    requires s != ""
    ensures 1 <= r.0 <= |s|
  {
    if s[0] == '%' && |s| > 1 then
      if s[1] == 'u' then
        match HexQuad(s[2..])
        case Some(v) => (6, Utf8(v))
        case None => (1, "%")
      else
        match HexPair(s[1..])
        case Some(v) => (3, [v as char])
        case None => (1, "%")
    else if plus && s[0] == '+' then (1, " ")
    else (1, [s[0]])
  }

  function DecodeUrl(s: string, plus: bool): string
    decreases |s|
  {
    if s == "" then "" else DecodeStep(s, plus).1 + DecodeUrl(s[DecodeStep(s, plus).0..], plus)
  }

  /** The first i characters of s decode to done, as far as goal is concerned. */
  ghost predicate DecodedTo(s: string, plus: bool, i: nat, done: string, goal: string) {
    i <= |s| && done + DecodeUrl(s[i..], plus) == goal
  }

  lemma DecodeAt(s: string, plus: bool, i: nat, done: string, goal: string)
    requires i < |s| && DecodedTo(s, plus, i, done, goal)
    ensures var step := DecodeStep(s[i..], plus); DecodedTo(s, plus, i + step.0, done + step.1, goal)
  {
    var step := DecodeStep(s[i..], plus);
    DropDrop(s, i, step.0);
    var rest := DecodeUrl(s[i + step.0..], plus);
    assert DecodeUrl(s[i..], plus) == step.1 + rest;
    assert done + (step.1 + rest) == (done + step.1) + rest;
  }

  lemma DecodeEnds(s: string, plus: bool, done: string, goal: string)
    ensures DecodedTo(s, plus, 0, "", DecodeUrl(s, plus))
    ensures DecodedTo(s, plus, |s|, done, goal) ==> done == goal
  {
    assert s[0..] == s && s[|s|..] == "";
  }

  /** The index loop over the input. */
  method DecodeUrlLoop(s: string, plus: bool) returns (result: string)
    ensures result == DecodeUrl(s, plus)
  {
    result := "";
    var i := 0;
    ghost var goal := DecodeUrl(s, plus);
    DecodeEnds(s, plus, result, goal);
    while i < |s|
      invariant 0 <= i <= |s| && DecodedTo(s, plus, i, result, goal)
    {
      var step := DecodeStep(s[i..], plus);
      DecodeAt(s, plus, i, result, goal);
      result := result + step.1;
      i := i + step.0;
    }
    DecodeEnds(s, plus, result, goal);
  }

  /** Decoding never makes a text longer. */
  lemma {:induction false} DecodedIsShorter(s: string, plus: bool)
    ensures |DecodeUrl(s, plus)| <= |s|
    decreases |s|
  {
    if s != "" {
      var step := DecodeStep(s, plus);
      DecodedIsShorter(s[step.0..], plus);
      StepIsShorter(s, plus);
    }
  }

  lemma StepIsShorter(s: string, plus: bool)
    requires s != ""
    ensures |DecodeStep(s, plus).1| <= DecodeStep(s, plus).0
  {
  }

  lemma DecodeEncodedByte(c: char, t: string, plus: bool)
    requires c as int < 256
    ensures DecodeUrl(EncodeByte(c) + t, plus) == [c] + DecodeUrl(t, plus)
  {
    EncodedStep(c, t, plus);
    var s := EncodeByte(c) + t;
    var k := |EncodeByte(c)|;
    assert s[k..] == t;
  }

  lemma EncodedStep(c: char, t: string, plus: bool)
    requires c as int < 256
    ensures DecodeStep(EncodeByte(c) + t, plus) == (|EncodeByte(c)|, [c])
  {
    var s := EncodeByte(c) + t;
    if !Unreserved(c) {
      assert s[1..][..2] == [HexUpper(c as int / 16), HexUpper(c as int % 16)];
      assert HexPair(s[1..]) == Some(c as int);
    }
  }

  /** Decoding is a left inverse of encoding on every byte string, whether or not '+' means a blank. */
  lemma {:induction false} DecodeEncode(s: string, plus: bool)
    requires IsBytes(s)
    ensures DecodeUrl(EncodeQueryParam(s), plus) == s
  {
    if s != "" {
      DecodeEncode(s[1..], plus);
      DecodeEncodedByte(s[0], EncodeQueryParam(s[1..]), plus);
    }
  }

  /** Only unreserved characters and percent signs come out, so no separator and no blank. */
  lemma {:induction false} EncodedChars(s: string)
    requires IsBytes(s)
    ensures forall c :: c in EncodeQueryParam(s) ==> Unreserved(c) || c == '%'
  {
    if s != "" {
      EncodedChars(s[1..]);
    }
  }

  // ----- every way to write a character -----

  const HEX_DIGITS := "0123456789ABCDEF"
  const HEX_DIGITS_LOWER := "0123456789abcdef"

  /** As itself, as '+', by two hexadecimal digits, or by four after 'u'; the case of each digit is free. */
  datatype Spelling =
    | Raw(c: char)
    | PlusSign
    | Two(v: nat, low: seq<bool>)
    | Four(v: nat, low: seq<bool>)

  predicate ValidSpelling(x: Spelling, plus: bool) {
    match x
    case Raw(c) => c != '%' && (plus ==> c != '+')
    case PlusSign => true
    case Two(v, low) => v < 256 && |low| == 2
    case Four(v, low) => v < 65536 && |low| == 4
  }

  function HexDigit(v: nat, low: bool): char
    requires v < 16
  {
    if low then HEX_DIGITS_LOWER[v] else HEX_DIGITS[v]
  }

  function Spelt(x: Spelling, plus: bool): string
    requires ValidSpelling(x, plus)
  {
    match x
    case Raw(c) => [c]
    case PlusSign => "+"
    case Two(v, low) => "%" + TwoDigits(v, low[0], low[1])
    case Four(v, low) => "%u" + (TwoDigits(v / 256, low[0], low[1]) + TwoDigits(v % 256, low[2], low[3]))
  }

  function TwoDigits(v: nat, a: bool, b: bool): string
    requires v < 256
  {
    [HexDigit(v / 16, a), HexDigit(v % 16, b)]
  }

  /** A plus sign is a blank in a query string and a plus sign elsewhere. */
  function Meant(x: Spelling, plus: bool): string
    requires ValidSpelling(x, plus)
  {
    match x
    case Raw(c) => [c]
    case PlusSign => if plus then " " else "+"
    case Two(v, _) => [v as char]
    case Four(v, _) => Utf8(v)
  }

  predicate AllSpellings(xs: seq<Spelling>, plus: bool) { forall x :: x in xs ==> ValidSpelling(x, plus) }

  function SpeltAll(xs: seq<Spelling>, plus: bool): string
    requires AllSpellings(xs, plus)
  {
    if xs == [] then "" else Spelt(xs[0], plus) + SpeltAll(xs[1..], plus)
  }

  function MeantAll(xs: seq<Spelling>, plus: bool): string
    requires AllSpellings(xs, plus)
  {
    if xs == [] then "" else Meant(xs[0], plus) + MeantAll(xs[1..], plus)
  }

  lemma HexDigitValue(v: nat, low: bool)
    requires v < 16
    ensures HexValue(HexDigit(v, low)) == v && HexDigit(v, low) != 'u'
  {
    assert |HEX_DIGITS| == 16 && |HEX_DIGITS_LOWER| == 16;
  }

  lemma PairValue(v: nat, a: bool, b: bool, t: string)
    requires v < 256
    ensures HexPair(TwoDigits(v, a, b) + t) == Some(v) && TwoDigits(v, a, b)[0] != 'u'
  {
    HexDigitValue(v / 16, a);
    HexDigitValue(v % 16, b);
  }

  lemma QuadValue(v: nat, x: string, y: string, t: string)
    requires v < 65536 && |x| == 2 == |y|
    requires HexPair(x + (y + t)) == Some(v / 256) && HexPair(y + t) == Some(v % 256)
    ensures HexQuad(x + (y + t)) == Some(v)
  {
    assert (x + (y + t))[2..] == y + t;
  }

  lemma SpellingStep(x: Spelling, plus: bool, t: string)
    requires ValidSpelling(x, plus)
    ensures DecodeStep(Spelt(x, plus) + t, plus) == (|Spelt(x, plus)|, Meant(x, plus))
  {
    match x
    case Raw(c) => OneStep(c, plus, t);
    case PlusSign => OneStep('+', plus, t);
    case Two(v, low) => TwoMeant(v, low, plus, t);
    case Four(v, low) => FourMeant(v, low, plus, t);
  }

  lemma OneStep(c: char, plus: bool, t: string)
    requires c != '%'
    ensures DecodeStep([c] + t, plus) == (1, if plus && c == '+' then " " else [c])
  {
  }

  lemma TwoMeant(v: nat, low: seq<bool>, plus: bool, t: string)
    requires v < 256 && |low| == 2
    ensures var s := Spelt(Two(v, low), plus); |s| == 3 && DecodeStep(s + t, plus) == (3, [v as char])
  {
    PairValue(v, low[0], low[1], t);
    TwoStep(v, TwoDigits(v, low[0], low[1]), plus, t);
  }

  lemma FourMeant(v: nat, low: seq<bool>, plus: bool, t: string)
    requires v < 65536 && |low| == 4
    ensures var s := Spelt(Four(v, low), plus); |s| == 6 && DecodeStep(s + t, plus) == (6, Utf8(v))
  {
    var a, b := TwoDigits(v / 256, low[0], low[1]), TwoDigits(v % 256, low[2], low[3]);
    PairValue(v / 256, low[0], low[1], b + t);
    PairValue(v % 256, low[2], low[3], t);
    QuadValue(v, a, b, t);
    FourStep(v, a, b, plus, t);
  }

  lemma TwoStep(v: nat, x: string, plus: bool, t: string)
    requires |x| == 2 && x[0] != 'u' && v < 256 && HexPair(x + t) == Some(v)
    ensures DecodeStep("%" + x + t, plus) == (3, [v as char])
  {
    assert ("%" + x + t)[1..] == x + t;
  }

  lemma FourStep(v: nat, x: string, y: string, plus: bool, t: string)
    requires |x| == 2 == |y| && v < 65536 && HexQuad(x + (y + t)) == Some(v)
    ensures DecodeStep("%u" + (x + y) + t, plus) == (6, Utf8(v))
  {
    assert ("%u" + (x + y) + t)[2..] == x + (y + t);
  }

  /** However each character is written, decoding finds what was meant. */
  lemma {:induction false} SpellingsDecode(xs: seq<Spelling>, plus: bool)
    requires AllSpellings(xs, plus)
    ensures DecodeUrl(SpeltAll(xs, plus), plus) == MeantAll(xs, plus)
  {
    if xs != [] {
      var t := SpeltAll(xs[1..], plus);
      SpellingsDecode(xs[1..], plus);
      SpellingStep(xs[0], plus, t);
      assert (Spelt(xs[0], plus) + t)[|Spelt(xs[0], plus)|..] == t;
    }
  }

  /** The code that one, two or three bytes stand for (section 3 of RFC 3629). */
  function CodeOf(s: string): Option<nat> {
    if |s| == 1 && s[0] as int < 0x80 then Some(s[0] as int)
    else if |s| == 2 && 0xC0 <= s[0] as int < 0xE0 && Continues(s[1]) then
      Some((s[0] as int - 0xC0) * 64 + (s[1] as int - 0x80))
    else if |s| == 3 && 0xE0 <= s[0] as int < 0xF0 && Continues(s[1]) && Continues(s[2]) then
      Some((s[0] as int - 0xE0) * 4096 + (s[1] as int - 0x80) * 64 + (s[2] as int - 0x80))
    else None
  }

  predicate Continues(c: char) { 0x80 <= c as int < 0xC0 }

  /** The UTF-8 form of the code, in as few bytes as can hold it; a surrogate has none. */
  lemma Utf8Reads(code: nat)
    requires code < 65536
    ensures if 0xD800 <= code < 0xE000 then Utf8(code) == ""
            else CodeOf(Utf8(code)) == Some(code) &&
                 |Utf8(code)| == (if code < 0x80 then 1 else if code < 0x800 then 2 else 3)
  {
    if code >= 0x800 && !(0xD800 <= code < 0xE000) {
      assert code == code / 4096 * 4096 + code / 64 % 64 * 64 + code % 64 by { ThreeParts(code); }
    }
  }

  lemma ThreeParts(code: nat)
    ensures code == code / 4096 * 4096 + code / 64 % 64 * 64 + code % 64
  {
    var q := code / 64;
    assert q / 64 == code / 4096;
  }

  // ----- query strings -----

  type Params = seq<(string, string)>

  /**
    A key that the printer, which does not encode keys, can still carry: not empty,
    no separator in it, no blank at either end, and unchanged by decoding.
   */
  predicate PlainKey(k: string) {
    k != "" && '&' !in k && '=' !in k && Trimmed(k) && DecodeUrl(k, true) == k
  }

  predicate Printable(ps: Params) {
    forall i :: 0 <= i < |ps| ==> PlainKey(ps[i].0) && IsBytes(ps[i].1)
  }

  predicate ByteValues(ps: Params) { forall i :: 0 <= i < |ps| ==> IsBytes(ps[i].1) }

  function PrintPair(p: (string, string)): string
    requires IsBytes(p.1)
  {
    p.0 + "=" + EncodeQueryParam(p.1)
  }

  function PrintQuery(ps: Params): string
    requires ByteValues(ps)
  {
    if ps == [] then ""
    else if |ps| == 1 then PrintPair(ps[0])
    else PrintQuery(ps[..|ps| - 1]) + "&" + PrintPair(ps[|ps| - 1])
  }

  lemma PrintStep(ps: Params, i: nat)
    requires ByteValues(ps) && i < |ps|
    ensures PrintQuery(ps[..i + 1]) == PrintQuery(ps[..i]) + (if i == 0 then "" else "&") + PrintPair(ps[i])
  {
    assert ps[..i + 1][..i] == ps[..i];
  }

  method ParamsToQueryStr(ps: Params) returns (query: string)
    requires ByteValues(ps)
    ensures query == PrintQuery(ps)
  {
    query := "";
    var i := 0;
    while i < |ps|
      invariant 0 <= i <= |ps| && query == PrintQuery(ps[..i])
    {
      PrintStep(ps, i);
      if i != 0 { query := query + "&"; }
      var v := EncodeQueryParamLoop(ps[i].1);
      query := query + (ps[i].0 + "=" + v);
      i := i + 1;
    }
    assert ps[..i] == ps;
  }

  /** The pair of one key=value piece, if it has a key. */
  function ParsePair(kv: string): Option<(string, string)> {
    match KeyValue(kv)
    case None => None
    case Some(p) => Some((DecodeUrl(p.0, true), DecodeUrl(p.1, true)))
  }

  function OneOrNone(o: Option<(string, string)>): Params { if o.Some? then [o.value] else [] }

  function ParsePairs(kvs: seq<string>): Params {
    if kvs == [] then [] else ParsePairs(kvs[..|kvs| - 1]) + OneOrNone(ParsePair(kvs[|kvs| - 1]))
  }

  /** Cut at '&', skip a piece seen before, and read each remaining piece. */
  function ParseQuery(s: string): Params { ParsePairs(Dedup(Split(s, '&'))) }

  lemma ParsePairsSnoc(kvs: seq<string>, kv: string)
    ensures ParsePairs(kvs + [kv]) == ParsePairs(kvs) + OneOrNone(ParsePair(kv))
  {
    assert (kvs + [kv])[..|kvs|] == kvs;
  }

  lemma DedupSnoc(ps: seq<string>, i: nat)
    requires i < |ps|
    ensures Dedup(ps[..i + 1]) == Dedup(ps[..i]) + (if ps[i] in ps[..i] then [] else [ps[i]])
  {
    assert ps[..i + 1][..i] == ps[..i];
  }

  /** These are the parameters of the first i pieces. */
  ghost predicate ParsedTo(kvs: seq<string>, i: nat, params: Params) {
    i <= |kvs| && params == ParsePairs(Dedup(kvs[..i]))
  }

  lemma QueryStep(kvs: seq<string>, i: nat, params: Params)
    requires i < |kvs| && ParsedTo(kvs, i, params)
    ensures ParsedTo(kvs, i + 1, if kvs[i] in kvs[..i] then params else params + OneOrNone(ParsePair(kvs[i])))
  {
    var seen := Dedup(kvs[..i]);
    DedupSnoc(kvs, i);
    if kvs[i] in kvs[..i] {
      assert seen + [] == seen;
    } else {
      ParsePairsSnoc(seen, kvs[i]);
    }
  }

  method EmplacePair(before: Params, kv: string) returns (params: Params)
    ensures params == before + OneOrNone(ParsePair(kv))
  {
    params := before;
    var pair := ParsePair(kv);
    if pair.Some? { params := params + [pair.value]; }
  }

  /** The callback over the pieces, with the set of pieces seen. */
  method ParseQueryText(s: string) returns (params: Params)
    ensures params == ParseQuery(s)
  {
    params := [];
    var cache: set<string> := {};
    var kvs := SplitScan(s, '&');
    var i := 0;
    ParsedEnds(kvs, params);
    while i < |kvs|
      invariant 0 <= i <= |kvs| && ParsedTo(kvs, i, params)
      invariant forall kv :: kv in cache <==> kv in kvs[..i]
    {
      params, cache := ParsePiece(kvs, i, params, cache);
      i := i + 1;
    }
    ParsedEnds(kvs, params);
  }

  lemma ParsedEnds(kvs: seq<string>, params: Params)
    ensures ParsedTo(kvs, 0, [])
    ensures ParsedTo(kvs, |kvs|, params) ==> params == ParsePairs(Dedup(kvs))
  {
    assert kvs[..0] == [] && kvs[..|kvs|] == kvs;
  }

  /** One piece: nothing if it was seen before, otherwise its pair. */
  method ParsePiece(kvs: seq<string>, i: nat, before: Params, seen: set<string>)
    returns (params: Params, cache: set<string>)
    requires i < |kvs| && ParsedTo(kvs, i, before) && forall kv :: kv in seen <==> kv in kvs[..i]
    ensures ParsedTo(kvs, i + 1, params) && forall kv :: kv in cache <==> kv in kvs[..i + 1]
  {
    QueryStep(kvs, i, before);
    assert kvs[..i + 1] == kvs[..i] + [kvs[i]];
    params, cache := before, seen;
    if kvs[i] !in seen {
      cache := cache + {kvs[i]};
      params := EmplacePair(params, kvs[i]);
    }
  }

  /** The parameters with every repeated pair dropped. */
  function DedupPairs(ps: Params): Params {
    if ps == [] then []
    else
      var init := ps[..|ps| - 1];
      if ps[|ps| - 1] in init then DedupPairs(init) else DedupPairs(init) + [ps[|ps| - 1]]
  }

  ghost function PrintAll(ps: Params): (r: seq<string>)
    requires ByteValues(ps)
    ensures |r| == |ps| && forall i :: 0 <= i < |ps| ==> r[i] == PrintPair(ps[i])
  {
    if ps == [] then [] else PrintAll(ps[..|ps| - 1]) + [PrintPair(ps[|ps| - 1])]
  }

  lemma EncodedShape(s: string)
    requires IsBytes(s)
    ensures var v := EncodeQueryParam(s); '=' !in v && '&' !in v && Trimmed(v)
  {
    EncodedChars(s);
    CopiedShape(EncodeQueryParam(s));
  }

  lemma CopiedShape(v: string)
    requires forall c :: c in v ==> Unreserved(c) || c == '%'
    ensures '=' !in v && '&' !in v && Trimmed(v)
  {
    if v != "" {
      assert v[0] in v && v[|v| - 1] in v;
    }
  }

  lemma PairShape(p: (string, string))
    requires PlainKey(p.0) && IsBytes(p.1)
    ensures var s := PrintPair(p); s != "" && Trimmed(s) && '&' !in s
  {
    var v := EncodeQueryParam(p.1);
    EncodedShape(p.1);
    var s := PrintPair(p);
    assert s[0] == p.0[0];
    assert s[|s| - 1] == if v == "" then '=' else v[|v| - 1];
  }

  lemma PairRoundTrip(p: (string, string))
    requires PlainKey(p.0) && IsBytes(p.1)
    ensures ParsePair(PrintPair(p)) == Some(p)
  {
    EncodedShape(p.1);
    KeyValuePair(p.0, EncodeQueryParam(p.1));
    DecodeEncode(p.1, true);
  }

  lemma {:induction false} SplitPrinted(ps: Params)
    requires Printable(ps)
    ensures Split(PrintQuery(ps), '&') == PrintAll(ps)
  {
    if ps != [] {
      var init, last := ps[..|ps| - 1], ps[|ps| - 1];
      var s := PrintPair(last);
      PairShape(last);
      TrimTrimmed(s);
      if init == [] {
        PiecesOne(s, '&');
        assert Clean([s][1..]) == [];
      } else {
        SplitPrinted(init);
        PiecesSnoc(PrintQuery(init), '&', s);
        CleanSnoc(Pieces(PrintQuery(init), '&'), s);
      }
    }
  }

  lemma {:induction false} ParsePrinted(ps: Params)
    requires Printable(ps)
    ensures ParsePairs(Dedup(PrintAll(ps))) == DedupPairs(ps)
  {
    if ps != [] {
      var init, last := ps[..|ps| - 1], ps[|ps| - 1];
      ParsePrinted(init);
      PairRoundTrip(last);
      forall i | 0 <= i < |init|
        ensures PrintPair(init[i]) == PrintPair(last) <==> init[i] == last
      {
        PairRoundTrip(init[i]);
      }
      var out := PrintAll(ps);
      assert out[..|out| - 1] == PrintAll(init);
      assert PrintPair(last) in PrintAll(init) <==> last in init;
      if last !in init {
        var d := Dedup(PrintAll(init)) + [PrintPair(last)];
        assert d[..|d| - 1] == Dedup(PrintAll(init));
      }
    }
  }

  /**
    Printing and parsing a query string gives back every pair, in order, once: the
    values may be any bytes, and the parser drops nothing but repeats.
   */
  lemma QueryRoundTrip(ps: Params)
    requires Printable(ps)
    ensures ParseQuery(PrintQuery(ps)) == DedupPairs(ps)
    ensures forall p :: p in ParseQuery(PrintQuery(ps)) <==> p in ps
  {
    SplitPrinted(ps);
    ParsePrinted(ps);
    DedupPairsSame(ps);
  }

  lemma {:induction false} DedupPairsSame(ps: Params)
    ensures forall p :: p in DedupPairs(ps) <==> p in ps
  {
    if ps != [] {
      var init, last := ps[..|ps| - 1], ps[|ps| - 1];
      DedupPairsSame(init);
      assert ps == init + [last];
    }
  }
}
