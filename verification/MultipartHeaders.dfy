/**
  Bodies of any writer: parts with header lines in any letter case, order and number,
  read by the reference reader and by the push parser under every cut.
 */
module MultipartHeaders {
  import opened Text
  import opened Url
  import opened MultipartSpec
  import opened MultipartParser
  import opened MultipartRoundTrip

  // ----- up to case -----

  const UPPER := "ABCDEFGHIJKLMNOPQRSTUVWXYZ"
  const LOWER := "abcdefghijklmnopqrstuvwxyz"

  ghost predicate LetterPair(a: char, b: char) { exists i :: 0 <= i < 26 && a == UPPER[i] && b == LOWER[i] }

  /** Equal, or the two cases of one of the 26 letters. */
  ghost predicate SameLetter(a: char, b: char) { a == b || LetterPair(a, b) || LetterPair(b, a) }

  ghost predicate Recased(x: string, y: string) {
    |x| == |y| && forall i :: 0 <= i < |x| ==> SameLetter(x[i], y[i])
  }

  lemma LetterAt(i: nat)
    requires i < 26
    ensures UPPER[i] as int == 'A' as int + i && LOWER[i] as int == 'a' as int + i
  {
  }

  lemma FoldIff(a: char, b: char)
    ensures ToLower(a) == ToLower(b) <==> SameLetter(a, b)
  {
    if a != b && ToLower(a) == ToLower(b) {
      var upper, lower := if a < b then a else b, if a < b then b else a;
      var i := upper as int - 'A' as int;
      LetterAt(i);
      assert upper == UPPER[i] && lower == LOWER[i];
    }
    forall i | 0 <= i < 26
      ensures ToLower(UPPER[i]) == ToLower(LOWER[i])
    {
      LetterAt(i);
    }
  }

  /** A line starts with a word in some letter case exactly if the word can be respelt to stand there. */
  lemma StartsIff(s: string, k: string)
    ensures StartsWithIgnoreCase(s, k) <==> |k| <= |s| && Recased(s[..|k|], k)
  {
    if |k| <= |s| {
      forall i | 0 <= i < |k|
        ensures ToLower(s[i]) == ToLower(k[i]) <==> SameLetter(s[..|k|][i], k[i])
      {
        FoldIff(s[i], k[i]);
      }
    }
  }

  lemma RecasedIs(x: string, k: string)
    requires Recased(x, k)
    ensures |x| == |k| && forall i :: 0 <= i < |x| ==> ToLower(x[i]) == ToLower(k[i])
  {
    forall i | 0 <= i < |x|
      ensures ToLower(x[i]) == ToLower(k[i])
    {
      FoldIff(x[i], k[i]);
    }
  }

  lemma RecasedFrom(x: string, k: string)
    requires |x| == |k| && forall i :: 0 <= i < |x| ==> ToLower(x[i]) == ToLower(k[i])
    ensures Recased(x, k)
  {
    forall i | 0 <= i < |x|
      ensures SameLetter(x[i], k[i])
    {
      FoldIff(x[i], k[i]);
    }
  }

  // ----- one line -----

  lemma NoColon(x: string, k: string)
    requires Recased(x, k) && ':' !in k
    ensures ':' !in x
  {
    RecasedIs(x, k);
  }

  /** A field whose name is a respelling of k starts like k, and its value follows. */
  lemma NameStarts(x: string, k: string, r: string)
    requires Recased(x, k)
    ensures StartsWithIgnoreCase(x + ":" + r, k + ":") && (x + ":" + r)[|k| + 1..] == r
  {
    RecasedIs(x, k);
  }

  /** And no field of another name does. */
  lemma OtherStarts(x: string, k: string, r: string)
    requires ':' !in x && ':' !in k && !Recased(x, k)
    ensures !StartsWithIgnoreCase(x + ":" + r, k + ":")
  {
    var line := x + ":" + r;
    if StartsWithIgnoreCase(line, k + ":") {
      assert ToLower(line[|k|]) == ToLower((k + ":")[|k|]) == ':';
      assert line[|k|] == ':' && line[|x|] == ':';
      if |x| < |k| {
        assert false;
      } else if |x| == |k| {
        forall i | 0 <= i < |x|
          ensures ToLower(x[i]) == ToLower(k[i])
        {
          assert line[i] == x[i] && (k + ":")[i] == k[i];
        }
        RecasedFrom(x, k);
      }
    }
  }

  lemma {:induction false} SomethingLeft(s: string)
    requires s != "" && !IsBlank(s[|s| - 1])
    ensures TrimLeft(s) != ""
  {
    if IsBlank(s[0]) {
      SomethingLeft(s[1..]);
    }
  }

  lemma FieldIsHeader(x: string, r: string)
    requires x != "" && ':' !in x && r != "" && !IsBlank(r[|r| - 1])
    ensures IsHeader(x + ":" + r)
  {
    var s := x + ":" + r;
    assert s[|s| - 1] == r[|r| - 1] && s[0] == x[0] && TrimRight(s) == s;
    AfterColonAt(x, r);
    SomethingLeft(r);
  }

  const DISPOSITION := "Content-Disposition"
  const TYPE := "Content-Type"

  lemma NamesApart(x: string)
    ensures ':' !in DISPOSITION && ':' !in TYPE && !(Recased(x, DISPOSITION) && Recased(x, TYPE))
    ensures DISPOSITION + ":" == "Content-Disposition:" && TYPE + ":" == "Content-Type:"
    ensures |DISPOSITION| == 19 && |TYPE| == 12
  {
  }

  /** A field of any other name leaves the part as it is. */
  lemma OtherLine(file: File, x: string, r: string)
    requires ':' !in x && !Recased(x, DISPOSITION) && !Recased(x, TYPE) && IsHeader(x + ":" + r)
    ensures HeaderLine(file, x + ":" + r) == Some(file)
  {
    NamesApart(x);
    OtherStarts(x, DISPOSITION, r);
    OtherStarts(x, TYPE, r);
  }

  /** Blank, tab, line feed, vertical tab, form feed and carriage return. */
  predicate AllSpace(w: string) { forall c :: c in w ==> c == ' ' || 9 <= c as int <= 13 }

  predicate AllBlank(w: string) { forall c :: c in w ==> c == ' ' || c == '\t' }

  lemma {:induction false} SkipAll(w: string, s: string)
    requires AllSpace(w) && s != "" && !IsSpace(s[0])
    ensures SkipSpace(w + s) == s
  {
    if w == "" {
      assert w + s == s;
    } else {
      assert w[0] in w && (w + s)[1..] == w[1..] + s;
      assert forall c :: c in w[1..] ==> c in w;
      SkipAll(w[1..], s);
    }
  }

  lemma {:induction false} TrimBefore(w: string, s: string)
    requires AllBlank(w) && s != "" && !IsBlank(s[0])
    ensures TrimLeft(w + s) == s
  {
    if w == "" {
      assert w + s == s;
    } else {
      assert w[0] in w && (w + s)[1..] == w[1..] + s;
      assert forall c :: c in w[1..] ==> c in w;
      TrimBefore(w[1..], s);
    }
  }

  lemma {:induction false} TrimBehind(s: string, w: string)
    requires AllBlank(w) && s != "" && !IsBlank(s[|s| - 1])
    ensures TrimRight(s + w) == s
  {
    if w == "" {
      assert s + w == s && TrimRight(s) == s;
    } else {
      var t, init := s + w, w[..|w| - 1];
      assert w[|w| - 1] in w && t[|t| - 1] == w[|w| - 1] && t[..|t| - 1] == s + init;
      assert forall c :: c in init ==> c in w;
      assert AllBlank(init);
      TrimBehind(s, init);
    }
  }

  lemma {:induction false} TrimRightOf(a: string, r: string)
    requires !AllBlank(r)
    ensures var t := TrimRight(r); TrimRight(a + r) == a + t && t != "" && !IsBlank(t[|t| - 1])
  {
    var n := |r| - 1;
    assert (a + r)[|a + r| - 1] == r[n];
    if IsBlank(r[n]) {
      assert r == r[..n] + [r[n]] && (a + r)[..|a + r| - 1] == a + r[..n];
      TrimRightOf(a, r[..n]);
    }
  }

  /** A line is a header exactly if it has a name before its first colon and something other than blanks after it. */
  lemma HeaderIff(x: string, r: string)
    requires ':' !in x
    ensures IsHeader(x + ":" + r) <==> x != "" && !AllBlank(r)
  {
    var s := x + ":";
    if AllBlank(r) {
      TrimBehind(s, r);
      AfterColonAt(x, "");
      assert x + ":" + "" == s;
    } else {
      TrimRightOf(s, r);
      AfterColonAt(x, TrimRight(r));
      SomethingLeft(TrimRight(r));
    }
  }

  lemma {:induction false} NoColonAfter(s: string)
    requires ':' !in s
    ensures AfterColon(s) == None
  {
    if s != "" {
      assert s[0] in s;
      NoColonAfter(s[1..]);
    }
  }

  lemma {:induction false} TrimRightIsPrefix(s: string)
    ensures TrimRight(s) <= s
  {
    if s != "" && IsBlank(s[|s| - 1]) {
      TrimRightIsPrefix(s[..|s| - 1]);
    }
  }

  /** A line without a colon makes the body invalid. */
  lemma NoColonRejected(file: File, line: string)
    requires ':' !in line
    ensures HeaderLine(file, line) == None
  {
    TrimRightIsPrefix(line);
    NoColonAfter(TrimRight(line));
  }

  /** A type line, its name in any letter case, with blanks around its value. */
  ghost predicate SpellsType(line: string, ct: string) {
    ct != "" && Trimmed(ct) &&
    exists x, w, v :: Recased(x, TYPE) && AllBlank(w) && AllBlank(v) && line == x + ":" + (w + (ct + v))
  }

  lemma TypeSpelt(file: File, line: string, ct: string)
    requires SpellsType(line, ct)
    ensures HeaderLine(file, line) == Some(file.(contentType := ct))
  {
    var x, w, v :| Recased(x, TYPE) && AllBlank(w) && AllBlank(v) && line == x + ":" + (w + (ct + v));
    TypeIsHeader(x, w, ct, v);
    NamesApart(x);
    NameStarts(x, TYPE, w + (ct + v));
    TrimBefore(w, ct + v);
    TrimBehind(ct, v);
  }

  lemma TypeIsHeader(x: string, w: string, ct: string, v: string)
    requires Recased(x, TYPE) && AllBlank(w) && AllBlank(v) && ct != "" && Trimmed(ct)
    ensures IsHeader(x + ":" + (w + (ct + v)))
  {
    NamesApart(x);
    NoColon(x, TYPE);
    var r := w + ct;
    FieldIsHeader(x, r);
    var s := x + ":" + r;
    assert s + v == x + ":" + (w + (ct + v));
    assert s[|s| - 1] == ct[|ct| - 1] && TrimRight(s) == s;
    TrimBehind(s, v);
  }

  /** The value of a disposition field: the kind in any letter case and the parameters, with space before them. */
  ghost predicate SpellsFormData(r: string, tail: string) {
    exists w, y, v :: AllSpace(w) && Recased(y, "form-data;") && AllSpace(v) && r == w + (y + (v + tail))
  }

  lemma FormDataTail(x: string, r: string, tail: string)
    requires Recased(x, DISPOSITION) && SpellsFormData(r, tail)
    requires tail != "" && !IsSpace(tail[0]) && '\r' !in tail && '\n' !in tail
    ensures DispositionTail(x + ":" + r) == Some(tail)
  {
    var w, y, v :| AllSpace(w) && Recased(y, "form-data;") && AllSpace(v) && r == w + (y + (v + tail));
    NamesApart(x);
    NameStarts(x, DISPOSITION, r);
    RecasedIs(y, "form-data;");
    KindStarts(y, v + tail);
    SkipAll(w, y + (v + tail));
    SkipAll(v, tail);
  }

  lemma KindStarts(y: string, t: string)
    requires Recased(y, "form-data;")
    ensures y != "" && !IsSpace((y + t)[0]) && StartsWithIgnoreCase(y + t, "form-data;") && (y + t)[10..] == t
  {
    RecasedIs(y, "form-data;");
    assert ToLower(y[0]) == 'f';
  }

  /** The effect of a disposition line depends on its parameters only, not on letter case and space before them. */
  lemma DispositionByTail(file: File, x: string, r: string, tail: string)
    requires Recased(x, DISPOSITION) && SpellsFormData(r, tail)
    requires tail != "" && !IsSpace(tail[0]) && !IsBlank(tail[|tail| - 1]) && '\r' !in tail && '\n' !in tail
    ensures HeaderLine(file, x + ":" + r) == HeaderLine(file, PREFIX + tail)
  {
    FormDataTail(x, r, tail);
    TailFound(tail);
    DispositionIsHeader(tail);
    DispositionSpeltIsHeader(x, r, tail);
    SameTail(file, x + ":" + r, PREFIX + tail);
  }

  lemma SameTail(file: File, l: string, m: string)
    requires IsHeader(l) && IsHeader(m) && DispositionTail(l) == DispositionTail(m)
    requires !StartsWithIgnoreCase(l, "Content-Type:") && !StartsWithIgnoreCase(m, "Content-Type:")
    ensures HeaderLine(file, l) == HeaderLine(file, m)
  {
  }

  lemma DispositionSpeltIsHeader(x: string, r: string, tail: string)
    requires Recased(x, DISPOSITION) && SpellsFormData(r, tail)
    requires tail != "" && !IsBlank(tail[|tail| - 1])
    ensures IsHeader(x + ":" + r) && !StartsWithIgnoreCase(x + ":" + r, "Content-Type:")
  {
    var w, y, v :| AllSpace(w) && Recased(y, "form-data;") && AllSpace(v) && r == w + (y + (v + tail));
    assert r[|r| - 1] == tail[|tail| - 1];
    NamesApart(x);
    NoColon(x, DISPOSITION);
    FieldIsHeader(x, r);
    OtherStarts(x, TYPE, r);
  }

  /** A disposition line of a part in any spelling. */
  ghost predicate SpellsDisposition(line: string, f: File) {
    PlainParam(f.name) && PlainParam(f.filename) &&
    exists x, r :: Recased(x, DISPOSITION) && SpellsFormData(r, ParamText(f)) && line == x + ":" + r
  }

  lemma DispositionSpelt(file: File, line: string, f: File)
    requires SpellsDisposition(line, f)
    ensures HeaderLine(file, line) ==
            Some(file.(name := f.name, filename := if f.filename == "" then file.filename else f.filename))
  {
    var x, r :| Recased(x, DISPOSITION) && SpellsFormData(r, ParamText(f)) && line == x + ":" + r;
    var tail := ParamText(f);
    ParamsShape(f);
    DispositionByTail(file, x, r, tail);
    TailFound(tail);
    DispositionIsHeader(tail);
    ParamsRead(f);
  }

  lemma RecasedSlice(x: string, k: string, a: nat, b: nat)
    requires Recased(x, k) && a <= b <= |k|
    ensures Recased(x[a..b], k[a..b])
  {
  }

  lemma PrefixCut(x: string)
    requires Recased(x, PREFIX)
    ensures Recased(x[..19], DISPOSITION) && Recased(x[21..31], "form-data;")
    ensures x == x[..19] + ":" + (" " + (x[21..31] + " "))
  {
    RecasedSlice(x, PREFIX, 0, 19);
    RecasedSlice(x, PREFIX, 21, 31);
    assert PREFIX[0..19] == DISPOSITION && PREFIX[21..31] == "form-data;" && x[0..19] == x[..19];
    RecasedIs(x, PREFIX);
    assert x[19] == ':' && x[20] == ' ' && x[31] == ' ';
  }

  lemma SpellsFormed(x: string, kind: string, f: File)
    requires Recased(x, DISPOSITION) && Recased(kind, "form-data;") && PlainParam(f.name) && PlainParam(f.filename)
    ensures SpellsDisposition(x + ":" + (" " + (kind + (" " + ParamText(f)))), f)
  {
    assert AllSpace(" ");
    assert SpellsFormData(" " + (kind + (" " + ParamText(f))), ParamText(f));
  }

  lemma RegroupPrefix(name: string, kind: string, t: string)
    ensures (name + ":" + (" " + (kind + " "))) + t == name + ":" + (" " + (kind + (" " + t)))
  {
  }

  /** The line of the library's own writer with its fixed part respelt is one of them. */
  lemma OwnDispositionRespelt(x: string, f: File)
    requires Recased(x, PREFIX) && PlainParam(f.name) && PlainParam(f.filename)
    ensures SpellsDisposition(x + DispositionLine(f)[|PREFIX|..], f)
  {
    PrefixCut(x);
    SpellsFormed(x[..19], x[21..31], f);
    RegroupPrefix(x[..19], x[21..31], ParamText(f));
    DispositionIs(f);
    Behind(PREFIX, ParamText(f));
  }

  lemma Behind(a: string, t: string)
    ensures (a + t)[|a|..] == t
  {
  }

  lemma OwnTypeRespelt(x: string, ct: string)
    requires Recased(x, "Content-Type: ") && ct != "" && Trimmed(ct)
    ensures SpellsType(x + ct, ct)
  {
    TypePrefixCut(x);
    var name := x[..12];
    assert AllBlank(" ") && AllBlank("");
    assert x + ct == name + ":" + (" " + (ct + ""));
  }

  lemma TypePrefixCut(x: string)
    requires Recased(x, "Content-Type: ")
    ensures Recased(x[..12], TYPE) && x == x[..12] + ":" + " "
  {
    var k := "Content-Type: ";
    RecasedSlice(x, k, 0, 12);
    assert k[0..12] == TYPE && x[0..12] == x[..12];
    RecasedIs(x, k);
    assert x[12] == ':' && x[13] == ' ';
  }

  // ----- extended filenames -----

  /** The value of an extended parameter (section 3.2 of RFC 5987), the character set in any letter case. */
  ghost predicate SpellsExtended(v: string, x: string) {
    IsBytes(x) && x != "" && |v| > 7 && Recased(v[..7], "UTF-8''") && v[7..] == EncodeQueryParam(x)
  }

  /** No character that splitting, trimming or matching looks for. */
  predicate Quiet(v: string) {
    ';' !in v && '=' !in v && '\r' !in v && '\n' !in v && ' ' !in v && '\t' !in v && '"' !in v
  }

  lemma EncodedQuiet(x: string)
    requires IsBytes(x)
    ensures Quiet(EncodeQueryParam(x))
  {
    EncodedChars(x);
  }

  lemma CharsetQuiet(u: string)
    requires Recased(u, "UTF-8''")
    ensures Quiet(u)
  {
    RecasedIs(u, "UTF-8''");
  }

  lemma QuietJoin(a: string, b: string)
    requires Quiet(a) && Quiet(b)
    ensures Quiet(a + b)
  {
  }

  lemma ExtendedShape(v: string, x: string)
    requires SpellsExtended(v, x)
    ensures Quiet(v) && Trimmed(v) && TrimQuotes(v) == v && ExtendedValue(v) == Some(EncodeQueryParam(x))
  {
    CharsetQuiet(v[..7]);
    EncodedQuiet(x);
    QuietJoin(v[..7], v[7..]);
    assert v == v[..7] + v[7..];
    assert v[0] in v && v[|v| - 1] in v;
    StartsIff(v, "UTF-8''");
  }

  function Starred(v: string): string { "filename*" + "=" + v }

  lemma StarredPair(v: string)
    requires Quiet(v) && Trimmed(v) && TrimQuotes(v) == v
    ensures KeyValue(Starred(v)) == Some(("filename*", v)) && TrimQuotes("filename*") == "filename*"
    ensures v != "" ==> Trimmed(Starred(v)) && ';' !in Starred(v) && Starred(v) != ""
  {
    KeyValuePair("filename*", v);
    if v != "" {
      var s := Starred(v);
      assert s[|s| - 1] == v[|v| - 1];
    }
  }

  lemma {:induction false} DedupHas(ps: seq<string>, p: string)
    requires p in ps
    ensures p in Dedup(ps)
  {
    var init, last := ps[..|ps| - 1], ps[|ps| - 1];
    assert ps == init + [last];
    if p in init {
      DedupHas(init, p);
    }
  }

  /** One more parameter behind the others. */
  lemma SplitMore(s: string, e: string)
    requires e != "" && Trimmed(e) && ';' !in e && e !in Dedup(Split(s, ';'))
    ensures Dedup(Split(s + ";" + (" " + e), ';')) == Dedup(Split(s, ';')) + [e]
  {
    PiecesSnoc(s, ';', " " + e);
    assert s + ";" + (" " + e) == s + [';'] + (" " + e);
    CleanSnoc(Pieces(s, ';'), " " + e);
    TrimTrimmed(e);
    DedupMore(Split(s, ';'), e);
  }

  lemma DedupMore(ps: seq<string>, e: string)
    requires e !in Dedup(ps)
    ensures Dedup(ps + [e]) == Dedup(ps) + [e]
  {
    if e in ps {
      DedupHas(ps, e);
    }
    assert (ps + [e])[..|ps|] == ps;
  }

  /** A parameter at the end is found if none before has its key. */
  lemma {:induction false} LookupMore(kvs: seq<string>, e: string, k: string)
    ensures Lookup(kvs + [e], k) == if Lookup(kvs, k).Some? then Lookup(kvs, k) else Lookup([e], k)
  {
    if kvs == [] {
      assert kvs + [e] == [e];
    } else {
      assert (kvs + [e])[1..] == kvs[1..] + [e];
      LookupMore(kvs[1..], e, k);
    }
  }

  lemma StarredIsNew(f: File, v: string)
    requires PlainParam(f.name) && PlainParam(f.filename)
    ensures Starred(v) !in Dedup(Split(ParamText(f), ';'))
  {
    ParamsSplit(f);
    var a, c, e := Quoted("name", f.name), Quoted("filename", f.filename), Starred(v);
    assert a[0] == 'n' && c[8] == '=' && e[0] == 'f' && e[8] == '*';
  }

  function ExtendedTail(f: File, v: string): string { ParamText(f) + ";" + (" " + Starred(v)) }

  lemma ExtendedParams(f: File, v: string)
    requires PlainParam(f.name) && PlainParam(f.filename) && Quiet(v) && v != "" && Trimmed(v) && TrimQuotes(v) == v
    ensures var kvs := Dedup(Split(ExtendedTail(f, v), ';'));
            Lookup(kvs, "name") == Some(f.name) && Lookup(kvs, "filename*") == Some(v)
  {
    StarredPair(v);
    StarredIsNew(f, v);
    SplitMore(ParamText(f), Starred(v));
    ParamsRead(f);
    var kvs, e := Dedup(Split(ParamText(f), ';')), Starred(v);
    LookupMore(kvs, e, "name");
    LookupMore(kvs, e, "filename*");
    assert [e][1..] == [];
  }

  lemma ExtendedTailShape(f: File, v: string)
    requires PlainParam(f.name) && PlainParam(f.filename) && Quiet(v) && v != ""
    ensures var t := ExtendedTail(f, v);
            t != "" && !IsSpace(t[0]) && !IsBlank(t[|t| - 1]) && '\r' !in t && '\n' !in t
  {
    ParamsShape(f);
    TailShape(ParamText(f), v);
    TailRegroup(ParamText(f), v);
  }

  lemma TailRegroup(p: string, v: string)
    ensures p + ";" + (" " + Starred(v)) == p + ("; filename*=" + v)
  {
  }

  lemma TailShape(p: string, v: string)
    requires p != "" && p[0] == 'n' && '\r' !in p && '\n' !in p && Quiet(v) && v != ""
    ensures var t := p + ("; filename*=" + v);
            t != "" && !IsSpace(t[0]) && !IsBlank(t[|t| - 1]) && '\r' !in t && '\n' !in t
  {
    var k := "; filename*=";
    var t := p + (k + v);
    assert t[0] == 'n' && t[|t| - 1] == v[|v| - 1] && v[|v| - 1] in v;
    assert '\r' !in k && '\n' !in k;
  }

  /** An extended filename, percent coded, takes the place of a plain one, in any spelling of the line. */
  lemma ExtendedRead(file: File, line: string, f: File, v: string, x: string, name: string, r: string)
    requires PlainParam(f.name) && PlainParam(f.filename) && SpellsExtended(v, x)
    requires Recased(name, DISPOSITION) && SpellsFormData(r, ExtendedTail(f, v)) && line == name + ":" + r
    ensures HeaderLine(file, line) == Some(file.(name := f.name, filename := x))
  {
    var tail := ExtendedTail(f, v);
    ExtendedShape(v, x);
    ExtendedTailShape(f, v);
    DispositionByTail(file, name, r, tail);
    TailFound(tail);
    DispositionIsHeader(tail);
    ExtendedParams(f, v);
    DecodeEncode(x, false);
  }

  // ----- whole parts and bodies -----

  /** A part as some writer has put it: its header lines and its content. */
  datatype Entry = Entry(lines: seq<string>, content: string)

  /** What the header lines say together. */
  function Described(file: File, lines: seq<string>): Option<File>
    decreases |lines|
  {
    if lines == [] then Some(file)
    else
      match HeaderLine(file, lines[0])
      case None => None
      case Some(f) => Described(f, lines[1..])
  }

  function LinesText(lines: seq<string>): string {
    if lines == [] then "" else lines[0] + CRLF + LinesText(lines[1..])
  }

  function EntryText(b: string, e: Entry, more: string): string {
    LinesText(e.lines) + (CRLF + (e.content + (Delimiter(b) + more)))
  }

  /** What follows "--" + b: the entries, and whatever comes behind the closing delimiter. */
  function EntriesText(b: string, es: seq<Entry>, epilogue: string): string {
    if es == [] then "--" + epilogue else CRLF + EntryText(b, es[0], EntriesText(b, es[1..], epilogue))
  }

  predicate LineOk(line: string) { line != "" && Find(line, CRLF) == |line| < HEADER_MAX_LENGTH }

  /** The lines fit and make sense, and the content does not hold the delimiter. */
  predicate Legible(b: string, e: Entry) {
    && (forall l :: l in e.lines ==> LineOk(l))
    && Described(NO_FILE, e.lines).Some?
    && Find(e.content + Delimiter(b), Delimiter(b)) == |e.content|
  }

  predicate AllLegible(b: string, es: seq<Entry>) { forall i :: 0 <= i < |es| ==> Legible(b, es[i]) }

  function PartOf(b: string, e: Entry): Part
    requires Legible(b, e)
  {
    Part(Described(NO_FILE, e.lines).value, e.content)
  }

  lemma {:induction false} ReadLines(b: string, file: File, lines: seq<string>, rest: string, p: Part, o: Option<Doc>)
    requires forall l :: l in lines ==> LineOk(l)
    requires Described(file, lines).Some? && ReadsFirst(ReadHeaderLines(b, Described(file, lines).value, rest), p, o)
    ensures ReadsFirst(ReadHeaderLines(b, file, LinesText(lines) + rest), p, o)
    decreases |lines|
  {
    if lines == [] {
      assert "" + rest == rest;
    } else {
      var f, l, more := HeaderLine(file, lines[0]).value, lines[0], LinesText(lines[1..]);
      assert LineOk(l);
      ReadLines(b, f, lines[1..], rest, p, o);
      assert l + CRLF + more + rest == l + CRLF + (more + rest);
      ReadOneLine(b, file, l, more + rest);
      LongerReads(|l|, ReadHeaderLines(b, f, more + rest), p, o);
    }
  }

  lemma ReadEntry(b: string, e: Entry, more: string)
    requires Legible(b, e)
    requires var o := ReadAfterDelimiter(b, more); o.Some? && o.value.longest < HEADER_MAX_LENGTH
    ensures ReadsFirst(ReadHeaderLines(b, NO_FILE, EntryText(b, e, more)), PartOf(b, e), ReadAfterDelimiter(b, more))
  {
    var p, tail := PartOf(b, e), e.content + (Delimiter(b) + more);
    ReadWrittenContent(b, p.file, e.content, more);
    ReadEmptyLine(b, p.file, tail);
    ReadLines(b, NO_FILE, e.lines, CRLF + tail, p, ReadAfterDelimiter(b, more));
  }

  /** The parts and the epilogue, and no header line too long. */
  ghost predicate ReadsTo(o: Option<Doc>, parts: seq<Part>, epilogue: string) {
    o.Some? && o.value.parts == parts && o.value.epilogue == epilogue && o.value.longest < HEADER_MAX_LENGTH
  }

  function AllParts(b: string, es: seq<Entry>): (ps: seq<Part>)
    requires AllLegible(b, es)
    ensures |ps| == |es| && forall i :: 0 <= i < |es| ==> ps[i] == PartOf(b, es[i])
  {
    seq(|es|, i requires 0 <= i < |es| => PartOf(b, es[i]))
  }

  lemma {:induction false} ReadEntries(b: string, es: seq<Entry>, epilogue: string)
    requires AllLegible(b, es)
    ensures ReadsTo(ReadAfterDelimiter(b, EntriesText(b, es, epilogue)), AllParts(b, es), epilogue)
  {
    if es == [] {
      ReadClosing(b, epilogue);
    } else {
      var more := EntriesText(b, es[1..], epilogue);
      ReadEntries(b, es[1..], epilogue);
      ReadEntry(b, es[0], more);
      ReadAnother(b, EntryText(b, es[0], more));
      assert [PartOf(b, es[0])] + AllParts(b, es[1..]) == AllParts(b, es);
    }
  }

  lemma ReadClosing(b: string, epilogue: string)
    ensures ReadAfterDelimiter(b, "--" + epilogue) == Some(Doc([], epilogue, 0))
  {
    var t := "--" + epilogue;
    assert t[0] == '-' && t[2..] == epilogue;
    assert !(CRLF <= t);
  }

  /** A body as any writer would put it. */
  function BodyOf(b: string, es: seq<Entry>, epilogue: string): string { "--" + b + EntriesText(b, es, epilogue) }

  /** The reference reader finds what the header lines of every part say. */
  lemma ReadAnyBody(b: string, es: seq<Entry>, epilogue: string)
    requires es != [] && AllLegible(b, es)
    ensures ReadsTo(ReadBody(b, BodyOf(b, es, epilogue)), AllParts(b, es), epilogue)
    ensures OpeningLine(b) <= BodyOf(b, es, epilogue)
  {
    var body := EntryText(b, es[0], EntriesText(b, es[1..], epilogue));
    OpeningRegroup(b, body);
    ReadAfterOpening(b, OpeningLine(b), body);
    ReadAnother(b, body);
    ReadEntries(b, es, epilogue);
  }

  /** And so does the push parser, under every cut that leaves the opening line whole. */
  lemma AnyBodyDelivers(b: string, es: seq<Entry>, epilogue: string, accept: Receiver, pieces: seq<string>, k: nat)
    requires AcceptsAll(accept) && es != [] && AllLegible(b, es) && Tolerated(epilogue)
    requires Concat(pieces) == BodyOf(b, es, epilogue)
    requires StartsAt(pieces, k) && |pieces[k]| >= |OpeningLine(b)|
    ensures Delivers(FeedAll(b, accept, INITIAL, pieces), AllParts(b, es))
  {
    ReadAnyBody(b, es, epilogue);
    EmptyPieces(pieces, k);
    FirstPieceOpens(b, pieces, k, BodyOf(b, es, epilogue));
    EveryCutDelivers(b, accept, pieces, k);
  }

  // ----- respelt parts -----

  /** A field of a name that the reader does not know. */
  ghost predicate SpellsOther(line: string) {
    IsHeader(line) &&
    exists x, r :: ':' !in x && !Recased(x, DISPOSITION) && !Recased(x, TYPE) && line == x + ":" + r
  }

  /** Each line is about f: its disposition or its type in any spelling, or a field that does not matter. */
  ghost predicate AboutFile(lines: seq<string>, f: File) {
    forall l :: l in lines ==> SpellsDisposition(l, f) || SpellsType(l, f.contentType) || SpellsOther(l)
  }

  ghost predicate HasDisposition(lines: seq<string>, f: File) { exists l :: l in lines && SpellsDisposition(l, f) }

  ghost predicate HasType(lines: seq<string>, ct: string) { exists l :: l in lines && SpellsType(l, ct) }

  /** In any order and number: a disposition, a type if there is one, and other fields between them. */
  ghost predicate Spells(lines: seq<string>, f: File) {
    AboutFile(lines, f) && HasDisposition(lines, f) && (f.contentType != "" ==> HasType(lines, f.contentType))
  }

  lemma OtherSpelt(file: File, line: string)
    requires SpellsOther(line)
    ensures HeaderLine(file, line) == Some(file)
  {
    var x, r :| ':' !in x && !Recased(x, DISPOSITION) && !Recased(x, TYPE) && line == x + ":" + r;
    OtherLine(file, x, r);
  }

  /** What is still to be said about f is said by the lines to come. */
  ghost predicate StillToSay(file: File, lines: seq<string>, f: File) {
    && (HasDisposition(lines, f) || (file.name == f.name && file.filename == f.filename))
    && (HasType(lines, f.contentType) || file.contentType == f.contentType)
    && (f.filename == "" ==> file.filename == "")
  }

  lemma {:induction false} LinesDescribe(file: File, lines: seq<string>, f: File)
    requires AboutFile(lines, f) && StillToSay(file, lines, f)
    ensures Described(file, lines) == Some(f)
    decreases |lines|
  {
    if lines != [] {
      assert lines[0] in lines && lines == [lines[0]] + lines[1..];
      LineSays(file, lines[0], f);
      StillToSayStep(file, lines[0], lines[1..], f, HeaderLine(file, lines[0]).value);
      LinesDescribe(HeaderLine(file, lines[0]).value, lines[1..], f);
    }
  }

  /** What one line about f adds to what is known. */
  ghost predicate Adds(file: File, l: string, f: File, g: File) {
    if SpellsDisposition(l, f) then
      g == file.(name := f.name, filename := if f.filename == "" then file.filename else f.filename)
    else if SpellsType(l, f.contentType) then g == file.(contentType := f.contentType)
    else g == file
  }

  lemma LineSays(file: File, l: string, f: File)
    requires SpellsDisposition(l, f) || SpellsType(l, f.contentType) || SpellsOther(l)
    ensures HeaderLine(file, l).Some? && Adds(file, l, f, HeaderLine(file, l).value)
  {
    if SpellsDisposition(l, f) {
      DispositionSpelt(file, l, f);
    } else if SpellsType(l, f.contentType) {
      TypeSpelt(file, l, f.contentType);
    } else {
      OtherSpelt(file, l);
    }
  }

  lemma StillToSayStep(file: File, l: string, rest: seq<string>, f: File, g: File)
    requires StillToSay(file, [l] + rest, f) && Adds(file, l, f, g)
    ensures StillToSay(g, rest, f)
  {
    SpeltApart(l, f);
    if HasDisposition([l] + rest, f) && !SpellsDisposition(l, f) {
      var m :| m in [l] + rest && SpellsDisposition(m, f);
      assert m in rest;
    }
    if HasType([l] + rest, f.contentType) && !SpellsType(l, f.contentType) {
      var m :| m in [l] + rest && SpellsType(m, f.contentType);
      assert m in rest;
    }
  }

  lemma SpeltApart(l: string, f: File)
    ensures !(SpellsDisposition(l, f) && SpellsType(l, f.contentType))
  {
    if SpellsDisposition(l, f) && SpellsType(l, f.contentType) {
      DispositionSpelt(NO_FILE, l, f);
      TypeSpelt(NO_FILE, l, f.contentType);
      assert false;
    }
  }

  /** Lines that spell a file describe it. */
  lemma SpeltIsDescribed(lines: seq<string>, f: File)
    requires Spells(lines, f)
    ensures Described(NO_FILE, lines) == Some(f)
  {
    LinesDescribe(NO_FILE, lines, f);
  }

  /** The entry is the part in another spelling. */
  ghost predicate Respelt(b: string, e: Entry, p: Part) {
    && (forall l :: l in e.lines ==> LineOk(l))
    && Spells(e.lines, p.file) && e.content == p.content
    && Find(p.content + Delimiter(b), Delimiter(b)) == |p.content|
  }

  lemma RespeltIsLegible(b: string, e: Entry, p: Part)
    requires Respelt(b, e, p)
    ensures Legible(b, e) && PartOf(b, e) == p
  {
    SpeltIsDescribed(e.lines, p.file);
  }

  /**
    Letter case, the order of the header lines, unknown fields between them and space after
    names do not matter: under every cut the parser reports the parts that were spelt.
   */
  lemma RespeltDelivers(b: string, es: seq<Entry>, parts: seq<Part>, epilogue: string, accept: Receiver,
                        pieces: seq<string>, k: nat)
    requires |es| == |parts| && es != [] && forall i :: 0 <= i < |es| ==> Respelt(b, es[i], parts[i])
    requires AcceptsAll(accept) && Tolerated(epilogue) && Concat(pieces) == BodyOf(b, es, epilogue)
    requires StartsAt(pieces, k) && |pieces[k]| >= |OpeningLine(b)|
    ensures ReadsTo(ReadBody(b, BodyOf(b, es, epilogue)), parts, epilogue)
    ensures Delivers(FeedAll(b, accept, INITIAL, pieces), parts)
  {
    forall i | 0 <= i < |es|
      ensures Legible(b, es[i]) && PartOf(b, es[i]) == parts[i]
    {
      RespeltIsLegible(b, es[i], parts[i]);
    }
    assert AllParts(b, es) == parts;
    ReadAnyBody(b, es, epilogue);
    AnyBodyDelivers(b, es, epilogue, accept, pieces, k);
  }

  /** The two lines of the library's own writer, their fixed parts in any letter case, spell the file. */
  lemma OwnLinesRespelt(x: string, y: string, f: File)
    requires PlainParam(f.name) && PlainParam(f.filename) && Trimmed(f.contentType)
    requires Recased(x, PREFIX) && Recased(y, "Content-Type: ")
    ensures var d := x + DispositionLine(f)[|PREFIX|..];
            Spells(if f.contentType == "" then [d] else [d, y + f.contentType], f)
  {
    var d, t := x + DispositionLine(f)[|PREFIX|..], y + f.contentType;
    OwnDispositionRespelt(x, f);
    if f.contentType == "" {
      assert d in [d];
    } else {
      OwnTypeRespelt(y, f.contentType);
      assert d in [d, t] && t in [d, t];
    }
  }
}
