/**
  Which names and filenames survive being printed and read back, exactly.
 */
module MultipartNames {
  import opened Text
  import opened Url
  import opened MultipartSpec
  import opened MultipartParser
  import opened MultipartRoundTrip

  ghost predicate CharsIn(t: string, s: string) { forall c :: c in t ==> c in s }

  lemma {:induction false} PiecesWithin(s: string, d: char)
    ensures forall p :: p in Pieces(s, d) ==> d !in p && CharsIn(p, s)
  {
    if s != "" {
      var t, c := s[..|s| - 1], s[|s| - 1];
      PiecesWithin(t, d);
      assert s == t + [c];
      PiecesStep(t, c, d);
      var ps := Pieces(t, d);
      assert ps[|ps| - 1] in ps;
      forall p | p in Pieces(s, d)
        ensures d !in p && CharsIn(p, s)
      {
        assert p in ps || p == "" || p == ps[|ps| - 1] + [c];
      }
    }
  }

  lemma {:induction false} TrimLeftWithin(s: string)
    ensures CharsIn(TrimLeft(s), s)
  {
    if s != "" && IsBlank(s[0]) {
      TrimLeftWithin(s[1..]);
    }
  }

  lemma {:induction false} TrimRightWithin(s: string)
    ensures CharsIn(TrimRight(s), s)
  {
    if s != "" && IsBlank(s[|s| - 1]) {
      TrimRightWithin(s[..|s| - 1]);
    }
  }

  lemma {:induction false} CleanWithin(ps: seq<string>)
    ensures forall q :: q in Clean(ps) ==> exists p :: p in ps && CharsIn(q, p)
  {
    if ps != [] {
      CleanWithin(ps[1..]);
      TrimLeftWithin(ps[0]);
      TrimRightWithin(TrimLeft(ps[0]));
      assert ps[0] in ps && CharsIn(Trim(ps[0]), ps[0]);
      forall q | q in Clean(ps)
        ensures exists p :: p in ps && CharsIn(q, p)
      {
        if q in Clean(ps[1..]) {
          var p :| p in ps[1..] && CharsIn(q, p);
          assert p in ps;
        }
      }
    }
  }

  lemma SplitWithin(s: string, d: char)
    ensures forall q :: q in Split(s, d) ==> d !in q && CharsIn(q, s)
  {
    PiecesWithin(s, d);
    CleanWithin(Pieces(s, d));
  }

  lemma {:induction false} LookupPlain(kvs: seq<string>, k: string, s: string)
    requires forall q :: q in kvs ==> ';' !in q && CharsIn(q, s)
    ensures var r := Lookup(kvs, k); r.Some? ==> ';' !in r.value && '=' !in r.value && CharsIn(r.value, s)
  {
    if kvs != [] {
      LookupPlain(kvs[1..], k, s);
      assert kvs[0] in kvs;
      ValuePlain(kvs[0], s);
    }
  }

  lemma ValuePlain(kv: string, s: string)
    requires ';' !in kv && CharsIn(kv, s)
    ensures var r := KeyValue(kv); r.Some? ==> ';' !in r.value.1 && '=' !in r.value.1 && CharsIn(r.value.1, s)
  {
    SplitWithin(kv, '=');
    var ps := Split(kv, '=');
    if ps != [] {
      assert ps[|ps| - 1] in ps;
    }
  }

  /** Whatever the line, the name it yields has no separator and no line end in it. */
  lemma ReadNamesArePlain(file: File, line: string)
    ensures var r := HeaderLine(file, line); r.Some? ==> r.value.name == file.name || PlainParam(r.value.name)
  {
    var tail := DispositionTail(line);
    if tail.Some? {
      var ps := Split(tail.value, ';');
      SplitWithin(tail.value, ';');
      DedupWithin(ps);
      LookupPlain(Dedup(ps), "name", tail.value);
    }
  }

  /** A part's name comes back exactly when it is plain: quotes are fine, ';', '=', CR and LF are not. */
  lemma NameSurvivesIffPlain(f: File)
    requires PlainParam(f.filename)
    ensures (HeaderLine(NO_FILE, DispositionLine(f)).Some? &&
             HeaderLine(NO_FILE, DispositionLine(f)).value.name == f.name) <==> PlainParam(f.name)
  {
    if PlainParam(f.name) {
      DispositionRead(f);
    } else {
      ReadNamesArePlain(NO_FILE, DispositionLine(f));
    }
  }

  /** Key, sign and value fit into the text they were found in. */
  lemma KeyValueLength(kv: string)
    ensures var r := KeyValue(kv); r.Some? && r.value.1 != "" ==> |r.value.0| + 1 + |r.value.1| <= |kv|
  {
    var ps := Split(kv, '=');
    PiecesTotal(kv, '=');
    CleanTotal(Pieces(kv, '='));
    if |ps| >= 2 {
      assert ps[|ps| - 1] in ps[1..];
      MemberTotal(ps[1..], ps[|ps| - 1]);
    }
  }

  /** An extended filename is shorter than the piece it stands in, by its key and more. */
  lemma {:induction false} LookupLength(kvs: seq<string>, n: nat)
    requires forall q :: q in kvs ==> |q| <= n || (KeyValue(q).Some? && TrimQuotes(KeyValue(q).value.0) == "name")
    ensures var r := Lookup(kvs, "filename*"); r.Some? && r.value != "" ==> |r.value| + 10 <= n
  {
    if kvs != [] {
      LookupLength(kvs[1..], n);
      assert kvs[0] in kvs;
      KeyValueLength(kvs[0]);
    }
  }

  lemma {:induction false} PiecesCons(a: string, d: char, b: string)
    requires d !in a
    ensures Pieces(a + [d] + b, d) == [a] + Pieces(b, d)
    decreases |b|
  {
    if b == "" {
      PiecesTwo(a, d, "");
      assert [a, ""] == [a] + [""];
    } else {
      var c, x := b[..|b| - 1], b[|b| - 1];
      PiecesCons(a, d, c);
      assert b == c + [x];
      ConsOneMore(a, d, c, x);
    }
  }

  lemma ConsOneMore(a: string, d: char, c: string, x: char)
    requires Pieces(a + [d] + c, d) == [a] + Pieces(c, d)
    ensures Pieces(a + [d] + (c + [x]), d) == [a] + Pieces(c + [x], d)
  {
    Assoc(a + [d], c, [x]);
    GrowStep(a + [d] + c, x, d);
    GrowStep(c, x, d);
    GrowBehind(a, Pieces(c, d), x, d);
  }

  /** The pieces after one more character. */
  function Grow(ps: seq<string>, x: char, d: char): seq<string>
    requires ps != []
  {
    if x == d then ps + [""] else ps[..|ps| - 1] + [ps[|ps| - 1] + [x]]
  }

  lemma GrowStep(s: string, x: char, d: char)
    ensures Pieces(s + [x], d) == Grow(Pieces(s, d), x, d)
  {
    PiecesStep(s, x, d);
  }

  lemma GrowBehind(a: string, ps: seq<string>, x: char, d: char)
    requires ps != []
    ensures Grow([a] + ps, x, d) == [a] + Grow(ps, x, d)
  {
  }

  /** What the reader finds between the semicolons of a printed line: the name, and shorter things. */
  lemma ParamPieces(f: File)
    requires PlainParam(f.name) && f.filename != ""
    ensures forall q :: q in Dedup(Split(ParamText(f), ';')) ==>
              |q| <= |f.filename| + 12 || (KeyValue(q).Some? && TrimQuotes(KeyValue(q).value.0) == "name")
  {
    var a, rest := Quoted("name", f.name), " " + Quoted("filename", f.filename);
    ParamsText(f);
    QuotedShape("name", f.name);
    QuotedPair("name", f.name);
    TrimTrimmed(a);
    assert ParamText(f) == a + [';'] + rest;
    FirstOrShorter(a, ';', rest);
    DedupWithin(Split(ParamText(f), ';'));
  }

  lemma FirstOrShorter(a: string, d: char, rest: string)
    requires d !in a && Trim(a) == a
    ensures forall q :: q in Split(a + [d] + rest, d) ==> q == a || |q| <= |rest|
  {
    PiecesCons(a, d, rest);
    var ps := Pieces(rest, d);
    assert ([a] + ps)[1..] == ps;
    SplitIsShorter(rest, d);
  }

  /** Whatever the line, the filename it yields is the one before, a plain one, or decoded from an extended one. */
  lemma ReadFilenames(file: File, line: string)
    ensures var r := HeaderLine(file, line);
            r.Some? ==> r.value.filename == file.filename || PlainParam(r.value.filename) ||
                        (DispositionTail(line).Some? &&
                         var v := Lookup(Dedup(Split(DispositionTail(line).value, ';')), "filename*");
                         v.Some? && |v.value| > 7 && r.value.filename == DecodeUrl(v.value[7..], false))
  {
    var tail := DispositionTail(line);
    if tail.Some? {
      var ps := Split(tail.value, ';');
      SplitWithin(tail.value, ';');
      DedupWithin(ps);
      LookupPlain(Dedup(ps), "filename", tail.value);
    }
  }

  /** A filename comes back exactly when it is plain, like a name. */
  lemma FilenameSurvivesIffPlain(f: File)
    requires PlainParam(f.name)
    ensures (HeaderLine(NO_FILE, DispositionLine(f)).Some? &&
             HeaderLine(NO_FILE, DispositionLine(f)).value.filename == f.filename) <==> PlainParam(f.filename)
  {
    if PlainParam(f.filename) {
      DispositionRead(f);
    } else {
      ReadFilenames(NO_FILE, DispositionLine(f));
      if DispositionTail(DispositionLine(f)).Some? {
        TailIs(f);
        ParamPieces(f);
        var v := Lookup(Dedup(Split(ParamText(f), ';')), "filename*");
        LookupLength(Dedup(Split(ParamText(f), ';')), |f.filename| + 12);
        if v.Some? && |v.value| > 7 {
          DecodedIsShorter(v.value[7..], false);
        }
      }
    }
  }

  /** Both come back exactly if both are plain, whatever the other one is. */
  lemma NamesSurviveIffPlain(f: File)
    ensures (var r := HeaderLine(NO_FILE, DispositionLine(f));
             r.Some? && r.value.name == f.name && r.value.filename == f.filename) <==>
            PlainParam(f.name) && PlainParam(f.filename)
  {
    ReadNamesArePlain(NO_FILE, DispositionLine(f));
    if PlainParam(f.name) {
      FilenameSurvivesIffPlain(f);
      if PlainParam(f.filename) {
        DispositionRead(f);
      }
    }
  }

  lemma TailIs(f: File)
    requires DispositionTail(DispositionLine(f)).Some?
    ensures DispositionTail(DispositionLine(f)) == Some(ParamText(f))
  {
    DispositionIs(f);
    assert ParamText(f)[0] == 'n';
    TailFound(ParamText(f));
  }
}
