/**
  Which keys a query string can carry.  The printer does not encode keys, so a pair comes
  back exactly if its key is plain.
 */
module QueryKeys {
  import opened Text
  import opened Url

  /** Text without a separator goes to the end of the last piece. */
  lemma {:induction false} PiecesAppend(s: string, d: char, x: string)
    requires d !in x
    ensures var ps := Pieces(s, d); Pieces(s + x, d) == ps[..|ps| - 1] + [ps[|ps| - 1] + x]
    decreases |x|
  {
    var ps := Pieces(s, d);
    if x == "" {
      assert s + x == s && ps[|ps| - 1] + "" == ps[|ps| - 1];
    } else {
      var y, c := x[..|x| - 1], x[|x| - 1];
      PiecesAppend(s, d, y);
      assert x == y + [c];
      AppendOne(s, d, y, c);
    }
  }

  lemma AppendOne(s: string, d: char, y: string, c: char)
    requires c != d
    requires var ps := Pieces(s, d); Pieces(s + y, d) == ps[..|ps| - 1] + [ps[|ps| - 1] + y]
    ensures var ps := Pieces(s, d); Pieces(s + (y + [c]), d) == ps[..|ps| - 1] + [ps[|ps| - 1] + (y + [c])]
  {
    assert s + (y + [c]) == (s + y) + [c];
    PiecesStep(s + y, c, d);
    LastGrows(Pieces(s, d), y, c);
  }

  lemma LastGrows(ps: seq<string>, y: string, c: char)
    requires ps != []
    ensures var init, last := ps[..|ps| - 1], ps[|ps| - 1];
            var qs := init + [last + y];
            qs[..|qs| - 1] + [qs[|qs| - 1] + [c]] == init + [last + (y + [c])]
  {
    assert (ps[|ps| - 1] + y) + [c] == ps[|ps| - 1] + (y + [c]);
  }

  /** A separator makes every piece shorter than the text. */
  lemma PieceIsShorter(s: string, d: char, p: string)
    requires p in Pieces(s, d) && d in s
    ensures |p| < |s|
  {
    var ps := Pieces(s, d);
    PiecesTotal(s, d);
    MemberTotal(ps, p);
    if |ps| == 1 {
      OnePieceWhole(s, d);
    }
  }

  lemma {:induction false} OnePieceWhole(s: string, d: char)
    ensures |Pieces(s, d)| == 1 ==> d !in s
  {
    if s != "" {
      var t, c := s[..|s| - 1], s[|s| - 1];
      OnePieceWhole(t, d);
      assert s == t + [c];
      PiecesStep(t, c, d);
    }
  }

  lemma {:induction false} CleanFrom(ps: seq<string>, q: string)
    requires q in Clean(ps)
    ensures exists p :: p in ps && q == Trim(p)
  {
    var p := ps[0];
    if q in Clean(ps[1..]) {
      CleanFrom(ps[1..], q);
      var p' :| p' in ps[1..] && q == Trim(p');
      assert p' in ps;
    } else {
      assert p in ps && q == Trim(p);
    }
  }

  lemma TrimShorter(p: string)
    ensures |Trim(p)| <= |p| && (|Trim(p)| == |p| ==> Trim(p) == p && Trimmed(p))
  {
    TrimIsShorter(TrimLeft(p));
    if p != "" && IsBlank(p[0]) {
      TrimIsShorter(p[1..]);
    } else if p != "" && IsBlank(p[|p| - 1]) {
      TrimIsShorter(p[..|p| - 1]);
    }
  }

  /** Every key found in w is shorter than w or is w itself, which then holds no sign and needs no trimming. */
  lemma KeyWithin(w: string, a: string)
    requires a in Split(w, '=')
    ensures |a| < |w| || (a == w && '=' !in w && Trimmed(w))
  {
    var ps := Pieces(w, '=');
    CleanFrom(ps, a);
    var p :| p in ps && a == Trim(p);
    TrimShorter(p);
    if '=' in w {
      PieceIsShorter(w, '=', p);
    } else {
      PiecesOne(w, '=');
    }
  }

  /** The key of w = v is one found in w, or v itself if there is none. */
  lemma KeyOfPair(w: string, v: string)
    requires '=' !in v && Trimmed(v)
    ensures var r := KeyValue(w + "=" + v);
            r.Some? ==> r.value.0 in Split(w, '=') || r.value == (v, "")
  {
    var ps := Pieces(w, '=');
    PiecesSnoc(w, '=', v);
    assert w + ['='] + v == w + "=" + v;
    CleanSnoc(ps, v);
    TrimTrimmed(v);
    var cs := Clean(ps);
    if cs != [] {
      assert (cs + (if v == "" then [] else [v]))[0] == cs[0];
    } else if v != "" {
      assert [] + [v] == [v];
    }
  }

  /** Trimming what ends in a pair touches its key only. */
  lemma {:induction false} TrimPair(w: string, v: string)
    requires Trimmed(v)
    ensures exists w' :: |w'| <= |w| && (|w'| == |w| ==> w' == w) && Trim(w + "=" + v) == w' + "=" + v
    decreases |w|
  {
    var s := w + "=" + v;
    if w != "" && IsBlank(w[0]) {
      TrimPair(w[1..], v);
      assert s[1..] == w[1..] + "=" + v;
    } else {
      assert s[0] == if w == "" then '=' else w[0];
      assert s[|s| - 1] == if v == "" then '=' else v[|v| - 1];
      TrimTrimmed(s);
    }
  }

  lemma {:induction false} ParsedFrom(kvs: seq<string>, p: (string, string))
    requires p in ParsePairs(kvs)
    ensures exists kv :: kv in kvs && ParsePair(kv) == Some(p)
  {
    var init, last := kvs[..|kvs| - 1], kvs[|kvs| - 1];
    assert last in kvs;
    if p in ParsePairs(init) {
      ParsedFrom(init, p);
      var kv :| kv in init && ParsePair(kv) == Some(p);
      assert kv in kvs;
    } else {
      assert ParsePair(last) == Some(p);
    }
  }

  /** A pair found in a query came out of one of its pieces. */
  lemma FoundIn(s: string, p: (string, string)) returns (kv: string, piece: string)
    requires p in ParseQuery(s)
    ensures ParsePair(kv) == Some(p) && piece in Pieces(s, '&') && kv == Trim(piece)
  {
    var kvs := Split(s, '&');
    ParsedFrom(Dedup(kvs), p);
    kv :| kv in Dedup(kvs) && ParsePair(kv) == Some(p);
    DedupWithin(kvs);
    CleanFrom(Pieces(s, '&'), kv);
    piece :| piece in Pieces(s, '&') && kv == Trim(piece);
  }

  /** The pieces of k = v: those of k, with the sign and the value behind the last one. */
  lemma PieceOf(k: string, v: string, piece: string) returns (w: string, last: bool)
    requires '&' !in v && piece in Pieces(k + "=" + v, '&')
    ensures w in Pieces(k, '&') && piece == (if last then w + "=" + v else w) && (!last ==> '&' in k)
  {
    var ps := Pieces(k, '&');
    PiecesAppend(k, '&', "=" + v);
    assert k + "=" + v == k + ("=" + v);
    w := ps[|ps| - 1];
    last := piece == w + ("=" + v);
    if last {
      assert w + ("=" + v) == w + "=" + v;
    } else {
      w := piece;
      if '&' !in k {
        PiecesOne(k, '&');
      }
    }
  }

  /** The key of a pair with w before the sign: shorter than w, or w itself, or the value when there is none in w. */
  lemma KeyBefore(w: string, v: string, kv: string)
    requires '=' !in v && Trimmed(v) && kv == Trim(w + "=" + v)
    ensures var r := KeyValue(kv);
            r.Some? ==> |r.value.0| < |w| || (r.value.0 == w && '=' !in w && Trimmed(w)) || r.value == (v, "")
  {
    TrimPair(w, v);
    var w' :| |w'| <= |w| && (|w'| == |w| ==> w' == w) && kv == w' + "=" + v;
    KeyOfPair(w', v);
    var r := KeyValue(kv);
    if r.Some? && r.value.0 in Split(w', '=') {
      KeyWithin(w', r.value.0);
    }
  }

  lemma KeyAlone(w: string, kv: string)
    requires kv == Trim(w)
    ensures var r := KeyValue(kv); r.Some? ==> |r.value.0| <= |w|
  {
    TrimShorter(w);
    SplitIsShorter(kv, '=');
    var ps := Split(kv, '=');
    if ps != [] {
      assert ps[0] in ps;
    }
  }

  /** If the pair comes back at all, its key was plain. */
  lemma OnlyPlainKeys(k: string, x: string)
    requires IsBytes(x) && (k, x) in ParseQuery(PrintPair((k, x)))
    ensures PlainKey(k)
  {
    var v := EncodeQueryParam(x);
    EncodedShape(x);
    DecodeEncode(x, true);
    var kv, piece := FoundIn(k + "=" + v, (k, x));
    var w, last := PieceOf(k, v, piece);
    var found := KeyValue(kv).value;
    DecodedIsShorter(found.0, true);
    KeyNotEmpty(kv);
    if '&' in k {
      PieceIsShorter(k, '&', w);
    } else {
      PiecesOne(k, '&');
    }
    if last {
      KeyBefore(w, v, kv);
      ValueAsKey(k, x, found);
    } else {
      KeyAlone(w, kv);
    }
  }

  lemma {:induction false} CleanNotEmpty(ps: seq<string>)
    ensures "" !in Clean(ps)
  {
    if ps != [] {
      CleanNotEmpty(ps[1..]);
    }
  }

  lemma KeyNotEmpty(kv: string)
    ensures KeyValue(kv).Some? ==> KeyValue(kv).value.0 != ""
  {
    CleanNotEmpty(Pieces(kv, '='));
    var ps := Split(kv, '=');
    assert ps != [] ==> ps[0] in ps;
  }

  /** The value cannot have been taken for the key. */
  lemma ValueAsKey(k: string, x: string, found: (string, string))
    requires IsBytes(x) && DecodeUrl(found.0, true) == k && DecodeUrl(found.1, true) == x
    ensures found == (EncodeQueryParam(x), "") ==> k == "" && found.0 == ""
  {
    DecodeEncode(x, true);
    if found == (EncodeQueryParam(x), "") {
      assert x == "";
    }
  }

  /** A single pair comes back if and only if its key is plain: the value may be any bytes. */
  lemma PairComesBackIff(k: string, x: string)
    requires IsBytes(x)
    ensures ParseQuery(PrintQuery([(k, x)])) == [(k, x)] <==> PlainKey(k)
  {
    var p := (k, x);
    assert PrintQuery([p]) == PrintPair(p);
    if PlainKey(k) {
      QueryRoundTrip([p]);
      assert [p][..0] == [] && DedupPairs([p]) == [] + [p];
    } else if p in ParseQuery(PrintPair(p)) {
      OnlyPlainKeys(k, x);
    }
  }
}
