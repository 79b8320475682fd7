/**
  Writing a list of parts and reading it back, first with the reference reader and
  then through the push parser under every cut.
 */
module MultipartRoundTrip {
  import opened Text
  import opened MultipartSpec
  import opened MultipartParser

  /** A name or filename that survives: the reader cuts at ';' and '=' and stops at a line end. */
  predicate PlainParam(s: string) {
    ';' !in s && '=' !in s && '\r' !in s && '\n' !in s
  }

  function ParamText(f: File): string {
    "name=\"" + f.name + "\"" + (if f.filename == "" then "" else "; filename=\"" + f.filename + "\"")
  }

  const PREFIX := "Content-Disposition: form-data; "

  lemma {:induction false} AfterColonAt(a: string, t: string)
    requires ':' !in a
    ensures AfterColon(a + ":" + t) == Some(t)
  {
    var s := a + ":" + t;
    if a == "" {
      assert s[1..] == t;
    } else {
      assert s[1..] == a[1..] + ":" + t;
      AfterColonAt(a[1..], t);
    }
  }

  /** A name, a colon, a blank and a value that does not end in a blank make a header line. */
  lemma HeaderShape(name: string, v: string)
    requires name != "" && ':' !in name
    requires v != "" && !IsBlank(v[0]) && !IsBlank(v[|v| - 1])
    ensures IsHeader(name + ":" + (" " + v))
  {
    var s := name + ":" + (" " + v);
    assert s[|s| - 1] == v[|v| - 1] && s[0] == name[0];
    AfterColonAt(name, " " + v);
    assert (" " + v)[1..] == v;
  }

  lemma PrefixStarts(p: string, t: string)
    ensures StartsWithIgnoreCase(p + t, p)
  {
  }

  lemma TailFound(tail: string)
    requires tail != "" && !IsSpace(tail[0])
    ensures DispositionTail(PREFIX + tail) == if '\r' in tail || '\n' in tail then None else Some(tail)
  {
    var line := PREFIX + tail;
    var r := "form-data;" + (" " + tail);
    assert line == "Content-Disposition:" + (" " + r);
    PrefixStarts("Content-Disposition:", " " + r);
    PrefixStarts("form-data;", " " + tail);
    assert line[20..] == " " + r;
    SkipOne(r);
    assert r[10..] == " " + tail;
    SkipOne(tail);
  }

  lemma SkipOne(s: string)
    requires s != "" && !IsSpace(s[0])
    ensures SkipSpace(" " + s) == s
  {
    assert (" " + s)[1..] == s;
    assert SkipSpace(s) == s;
  }

  lemma DispositionIsHeader(tail: string)
    requires tail != "" && !IsBlank(tail[|tail| - 1])
    ensures IsHeader(PREFIX + tail) && !StartsWithIgnoreCase(PREFIX + tail, "Content-Type:")
  {
    var v := "form-data; " + tail;
    assert PREFIX + tail == "Content-Disposition" + ":" + (" " + v);
    HeaderShape("Content-Disposition", v);
    assert (PREFIX + tail)[8] == 'D';
  }

  function Quote(v: string): string { "\"" + v + "\"" }

  function Quoted(k: string, v: string): string { k + "=" + Quote(v) }

  lemma QuotedPair(k: string, v: string)
    requires k == "name" || k == "filename"
    requires '=' !in v
    ensures KeyValue(Quoted(k, v)) == Some((k, Quote(v)))
    ensures TrimQuotes(Quote(v)) == v
  {
    var q := Quote(v);
    assert q[|q| - 1] == '"' && q[1..|q| - 1] == v;
    KeyValuePair(k, q);
  }

  lemma QuotedShape(k: string, v: string)
    requires k == "name" || k == "filename"
    requires ';' !in v
    ensures var s := Quoted(k, v); s != "" && s[0] == k[0] && Trimmed(s) && ';' !in s
  {
    var s := Quoted(k, v);
    assert s[|s| - 1] == '"';
  }

  lemma ParamsText(f: File)
    ensures ParamText(f) == if f.filename == "" then Quoted("name", f.name)
                         else Quoted("name", f.name) + ";" + (" " + Quoted("filename", f.filename))
  {
  }

  lemma SplitOne(a: string)
    requires a != "" && Trimmed(a) && ';' !in a
    ensures Dedup(Split(a, ';')) == [a]
  {
    PiecesOne(a, ';');
    TrimTrimmed(a);
    assert Clean([a][1..]) == [];
    assert [a][..0] == [];
  }

  lemma SplitTwo(a: string, c: string)
    requires a != "" && Trimmed(a) && ';' !in a
    requires c != "" && Trimmed(c) && ';' !in c && a != c
    ensures Dedup(Split(a + ";" + (" " + c), ';')) == [a, c]
  {
    PiecesTwo(a, ';', " " + c);
    TrimTrimmed(a);
    TrimTrimmed(c);
    assert [a, " " + c][1..] == [" " + c] && [" " + c][1..] == [];
    assert Clean([" " + c]) == [c];
    assert Clean([a, " " + c]) == [a] + [c] == [a, c];
    assert [a, c][..1] == [a] && [a][..0] == [];
    assert Dedup([a]) == [a] && c !in [a];
  }

  lemma LookupFound(a: string, c: string, name: string, filename: string)
    requires KeyValue(a) == Some(("name", Quote(name))) && TrimQuotes(Quote(name)) == name
    requires KeyValue(c) == Some(("filename", Quote(filename))) && TrimQuotes(Quote(filename)) == filename
    ensures Lookup([a, c], "name") == Some(name) == Lookup([a], "name")
    ensures Lookup([a, c], "filename") == Some(filename) && Lookup([a], "filename") == None
    ensures Lookup([a, c], "filename*") == None == Lookup([a], "filename*")
  {
    assert [a, c][1..] == [c] && [a][1..] == [] && [c][1..] == [];
    assert Lookup([c], "filename") == Some(filename) && Lookup([c], "filename*") == None;
  }

  lemma ParamsSplit(f: File)
    requires PlainParam(f.name) && PlainParam(f.filename)
    ensures var a, c := Quoted("name", f.name), Quoted("filename", f.filename);
            Dedup(Split(ParamText(f), ';')) == if f.filename == "" then [a] else [a, c]
  {
    var a, c := Quoted("name", f.name), Quoted("filename", f.filename);
    ParamsText(f);
    QuotedShape("name", f.name);
    QuotedShape("filename", f.filename);
    if f.filename == "" {
      SplitOne(a);
    } else {
      SplitTwo(a, c);
    }
  }

  /** The name and filename found in what the writer puts after "form-data; ". */
  lemma ParamsRead(f: File)
    requires PlainParam(f.name) && PlainParam(f.filename)
    ensures var kvs := Dedup(Split(ParamText(f), ';'));
            Lookup(kvs, "name") == Some(f.name) && Lookup(kvs, "filename*") == None &&
            Lookup(kvs, "filename") == if f.filename == "" then None else Some(f.filename)
  {
    ParamsSplit(f);
    QuotedPair("name", f.name);
    QuotedPair("filename", f.filename);
    LookupFound(Quoted("name", f.name), Quoted("filename", f.filename), f.name, f.filename);
  }

  lemma ParamsShape(f: File)
    requires PlainParam(f.name) && PlainParam(f.filename)
    ensures var s := ParamText(f); s != "" && s[0] == 'n' && s[|s| - 1] == '"' && '\r' !in s && '\n' !in s
  {
  }

  /** The disposition line of a part is read back as its name and filename. */
  lemma DispositionRead(f: File)
    requires PlainParam(f.name) && PlainParam(f.filename)
    ensures HeaderLine(NO_FILE, DispositionLine(f)) == Some(File(f.name, f.filename, ""))
  {
    var tail := ParamText(f);
    DispositionIs(f);
    ParamsShape(f);
    TailFound(tail);
    DispositionIsHeader(tail);
    ParamsRead(f);
  }

  lemma TypeRead(file: File, ct: string)
    requires ct != "" && Trimmed(ct)
    ensures HeaderLine(file, "Content-Type: " + ct) == Some(file.(contentType := ct))
  {
    var line := "Content-Type: " + ct;
    assert line == "Content-Type" + ":" + (" " + ct);
    HeaderShape("Content-Type", ct);
    assert line == "Content-Type:" + (" " + ct);
    PrefixStarts("Content-Type:", " " + ct);
    assert line[13..] == " " + ct;
    TrimTrimmed(ct);
  }

  // ----- reading back what was written -----

  /** The header lines fit, the type needs no trimming, and the content does not hold the delimiter early. */
  predicate Writable(b: string, p: Part) {
    && PlainParam(p.file.name) && PlainParam(p.file.filename)
    && |DispositionLine(p.file)| < HEADER_MAX_LENGTH
    && Trimmed(p.file.contentType) && |TypeLine(p.file)| < HEADER_MAX_LENGTH
    && Find(TypeLine(p.file), CRLF) == |TypeLine(p.file)|
    && Find(p.content + Delimiter(b), Delimiter(b)) == |p.content|
  }

  function TypePart(f: File): string { if f.contentType == "" then "" else TypeLine(f) + CRLF }

  /** What follows "--" + b: another part, or the end. */
  function AfterDash(b: string, parts: seq<Part>): string {
    if parts == [] then "--\r\n"
    else CRLF + PartText(b, parts[0], AfterDash(b, parts[1..]))
  }

  function PartText(b: string, p: Part, more: string): string {
    DispositionLine(p.file) + CRLF + (TypePart(p.file) + (CRLF + (p.content + (Delimiter(b) + more))))
  }

  lemma ItemRegroup(dash: string, disp: string, ty: string, content: string, more: string)
    ensures (dash + CRLF + disp + CRLF + ty + CRLF) + (content + CRLF) + (dash + more) ==
            dash + (CRLF + (disp + CRLF + (ty + (CRLF + (content + ((CRLF + dash) + more))))))
  {
  }

  lemma {:induction false} SerializeShape(b: string, parts: seq<Part>)
    ensures Serialize(b, parts) == "--" + b + AfterDash(b, parts)
  {
    if parts != [] {
      SerializeShape(b, parts[1..]);
      SerializeCons(b, parts);
      ItemShape(b, parts[0], AfterDash(b, parts[1..]));
    }
  }

  lemma ItemShape(b: string, p: Part, more: string)
    ensures ItemBegin(b, p.file) + (p.content + CRLF) + ("--" + b + more) == "--" + b + (CRLF + PartText(b, p, more))
  {
    var dash, disp, ty := "--" + b, DispositionLine(p.file), TypePart(p.file);
    assert ItemBegin(b, p.file) == dash + CRLF + disp + CRLF + ty + CRLF;
    assert Delimiter(b) == CRLF + dash;
    ItemRegroup(dash, disp, ty, p.content, more);
  }

  lemma SerializeCons(b: string, parts: seq<Part>)
    requires parts != []
    ensures Serialize(b, parts) ==
            ItemBegin(b, parts[0].file) + (parts[0].content + CRLF) + Serialize(b, parts[1..])
  {
    var x, y, z := ItemBegin(b, parts[0].file) + (parts[0].content + CRLF), Items(b, parts[1..]), "--" + b + "--\r\n";
    assert (x + y) + z == x + (y + z);
  }

  lemma NoLineEnd(s: string)
    requires '\r' !in s
    ensures Find(s, CRLF) == |s|
  {
    forall j | 0 <= j && j + 2 <= |s|
      ensures !OccursAt(s, CRLF, j)
    {
      assert s[j..j + 2][0] == s[j];
    }
  }

  lemma ReadOneLine(b: string, file: File, line: string, rest: string)
    requires line != "" && Find(line, CRLF) == |line| && HeaderLine(file, line).Some?
    ensures ReadHeaderLines(b, file, line + CRLF + rest) ==
            Longer(|line|, ReadHeaderLines(b, HeaderLine(file, line).value, rest))
  {
    var t := line + CRLF + rest;
    FindLineEnd(line, rest);
    assert t[..|line|] == line && t[|line| + 2..] == rest;
  }

  lemma ReadEmptyLine(b: string, file: File, rest: string)
    ensures ReadHeaderLines(b, file, CRLF + rest) == ReadContent(b, file, rest)
  {
    FindLineEnd("", rest);
    assert "" + CRLF + rest == CRLF + rest;
    assert (CRLF + rest)[2..] == rest;
  }

  lemma ReadTypePart(b: string, file: File, f: File, rest: string)
    requires Trimmed(f.contentType) && Find(TypeLine(f), CRLF) == |TypeLine(f)| < HEADER_MAX_LENGTH
    requires file.contentType == ""
    ensures var m := ReadHeaderLines(b, file, TypePart(f) + rest);
            var n := ReadHeaderLines(b, file.(contentType := f.contentType), rest);
            m == n || m == Longer(|TypeLine(f)|, n)
  {
    if f.contentType == "" {
      assert "" + rest == rest;
    } else {
      TypeRead(file, f.contentType);
      ReadOneLine(b, file, TypeLine(f), rest);
    }
  }

  lemma ReadWrittenContent(b: string, f: File, content: string, more: string)
    requires Find(content + Delimiter(b), Delimiter(b)) == |content|
    ensures ReadContent(b, f, content + (Delimiter(b) + more)) == Prepend(Part(f, content), ReadAfterDelimiter(b, more))
  {
    var d := Delimiter(b);
    var t := content + (d + more);
    assert t == (content + d) + more;
    FindStable(content + d, more, d);
    assert t[..|content|] == content && t[|content| + |d|..] == more;
  }

  /** m is what o becomes when p comes first. */
  ghost predicate ReadsFirst(m: Option<Doc>, p: Part, o: Option<Doc>) {
    o.Some? && m.Some? && m.value.parts == [p] + o.value.parts &&
    m.value.epilogue == o.value.epilogue && m.value.longest < HEADER_MAX_LENGTH
  }

  lemma ReadWrittenTail(b: string, p: Part, more: string)
    requires Writable(b, p)
    requires var o := ReadAfterDelimiter(b, more); o.Some? && o.value.longest < HEADER_MAX_LENGTH
    ensures ReadsFirst(ReadHeaderLines(b, p.file, CRLF + (p.content + (Delimiter(b) + more))), p,
            ReadAfterDelimiter(b, more))
  {
    ReadWrittenContent(b, p.file, p.content, more);
    ReadEmptyLine(b, p.file, p.content + (Delimiter(b) + more));
  }

  lemma LongerReads(n: nat, m: Option<Doc>, p: Part, o: Option<Doc>)
    requires n < HEADER_MAX_LENGTH && ReadsFirst(m, p, o)
    ensures ReadsFirst(Longer(n, m), p, o)
  {
  }

  /** One written part read back, whatever follows its delimiter. */
  lemma ReadPartText(b: string, p: Part, more: string)
    requires Writable(b, p)
    requires var o := ReadAfterDelimiter(b, more); o.Some? && o.value.longest < HEADER_MAX_LENGTH
    ensures ReadsFirst(ReadHeaderLines(b, NO_FILE, PartText(b, p, more)), p, ReadAfterDelimiter(b, more))
  {
    var f, o := p.file, ReadAfterDelimiter(b, more);
    var tail := CRLF + (p.content + (Delimiter(b) + more));
    var named := File(f.name, f.filename, "");
    var k := ReadHeaderLines(b, named, TypePart(f) + tail);
    assert ReadsFirst(k, p, o) by {
      ReadWrittenTail(b, p, more);
      ReadTypePart(b, named, f, tail);
      LongerReads(|TypeLine(f)|, ReadHeaderLines(b, f, tail), p, o);
    }
    assert ReadHeaderLines(b, NO_FILE, PartText(b, p, more)) == Longer(|DispositionLine(f)|, k) by {
      ReadDisposition(b, f, TypePart(f) + tail);
    }
    LongerReads(|DispositionLine(f)|, k, p, o);
  }

  lemma ReadDisposition(b: string, f: File, rest: string)
    requires PlainParam(f.name) && PlainParam(f.filename)
    ensures ReadHeaderLines(b, NO_FILE, DispositionLine(f) + CRLF + rest) ==
            Longer(|DispositionLine(f)|, ReadHeaderLines(b, File(f.name, f.filename, ""), rest))
  {
    DispositionRead(f);
    DispositionShape(f);
    ReadOneLine(b, NO_FILE, DispositionLine(f), rest);
  }

  lemma DispositionShape(f: File)
    requires PlainParam(f.name) && PlainParam(f.filename)
    ensures DispositionLine(f) != "" && Find(DispositionLine(f), CRLF) == |DispositionLine(f)|
  {
    ParamsShape(f);
    DispositionIs(f);
    PrefixPlain();
    NoCr(PREFIX, ParamText(f));
    NoLineEnd(DispositionLine(f));
  }

  lemma DispositionIs(f: File)
    ensures DispositionLine(f) == PREFIX + ParamText(f)
  {
  }

  lemma PrefixPlain()
    ensures '\r' !in PREFIX
  {
  }

  lemma NoCr(a: string, b: string)
    requires '\r' !in a && '\r' !in b
    ensures '\r' !in a + b
  {
  }

  lemma ReadEnd(b: string)
    ensures ReadAfterDelimiter(b, "--\r\n") == Some(Doc([], CRLF, 0))
  {
    var t := "--\r\n";
    assert t[0] == '-' && t[2..] == CRLF;
    assert !(CRLF <= t);
  }

  lemma ReadAnother(b: string, t: string)
    ensures ReadAfterDelimiter(b, CRLF + t) == ReadHeaderLines(b, NO_FILE, t)
  {
    assert (CRLF + t)[2..] == t;
  }

  lemma {:induction false} ReadWrittenParts(b: string, parts: seq<Part>)
    requires AllWritable(b, parts)
    ensures var o := ReadAfterDelimiter(b, AfterDash(b, parts));
            o.Some? && o.value.parts == parts && o.value.epilogue == CRLF && o.value.longest < HEADER_MAX_LENGTH
  {
    if parts == [] {
      ReadEnd(b);
    } else {
      ReadWrittenParts(b, parts[1..]);
      var more := AfterDash(b, parts[1..]);
      ReadPartText(b, parts[0], more);
      ReadAnother(b, PartText(b, parts[0], more));
      assert [parts[0]] + parts[1..] == parts;
    }
  }

  lemma SerializeOpening(b: string, parts: seq<Part>)
    requires parts != []
    ensures Serialize(b, parts) == OpeningLine(b) + PartText(b, parts[0], AfterDash(b, parts[1..]))
  {
    SerializeShape(b, parts);
    OpeningRegroup(b, PartText(b, parts[0], AfterDash(b, parts[1..])));
  }

  lemma OpeningRegroup(b: string, body: string)
    ensures "--" + b + (CRLF + body) == OpeningLine(b) + body
  {
  }

  /** The reference reader inverts the writer on every non-empty list of writable parts. */
  lemma ReadSerialized(b: string, parts: seq<Part>)
    requires parts != [] && AllWritable(b, parts)
    ensures var o := ReadBody(b, Serialize(b, parts));
            o.Some? && o.value.parts == parts && o.value.epilogue == CRLF && o.value.longest < HEADER_MAX_LENGTH
    ensures OpeningLine(b) <= Serialize(b, parts)
  {
    var body := PartText(b, parts[0], AfterDash(b, parts[1..]));
    SerializeOpening(b, parts);
    ReadAfterOpening(b, OpeningLine(b), body);
    ReadAnother(b, body);
    ReadWrittenParts(b, parts);
  }

  lemma ReadAfterOpening(b: string, o: string, body: string)
    requires o == OpeningLine(b)
    ensures ReadBody(b, o + body) == ReadHeaderLines(b, NO_FILE, body)
  {
    var t := o + body;
    assert t[0..|o|] == o && OccursAt(t, o, 0);
    assert Find(t, o) == 0;
    assert t[|o|..] == body;
  }

  predicate AllWritable(b: string, parts: seq<Part>) { forall i :: 0 <= i < |parts| ==> Writable(b, parts[i]) }

  /** Piece k is the first that is not empty. */
  ghost predicate StartsAt(pieces: seq<string>, k: nat) {
    k < |pieces| && pieces[k] != "" && forall i :: 0 <= i < k ==> pieces[i] == ""
  }

  lemma {:induction false} EmptyPieces(pieces: seq<string>, k: nat)
    requires k <= |pieces| && forall i :: 0 <= i < k ==> pieces[i] == ""
    ensures Concat(pieces[k..]) == Concat(pieces)
    decreases k
  {
    if k == 0 {
      assert pieces[0..] == pieces;
    } else {
      EmptyPieces(pieces[1..], k - 1);
      assert pieces[1..][k - 1..] == pieces[k..];
    }
  }

  /**
    Multipart round trip: whatever way the written body is cut, as long as the first
    piece that is not empty holds the opening line, the parser reports exactly the parts
    that were written, in order, and ends valid.
   */
  lemma MultipartRoundTrip(b: string, parts: seq<Part>, accept: Receiver, pieces: seq<string>, k: nat)
    requires AcceptsAll(accept) && parts != [] && AllWritable(b, parts)
    requires Concat(pieces) == Serialize(b, parts) && StartsAt(pieces, k) && |pieces[k]| >= |OpeningLine(b)|
    ensures Delivers(FeedAll(b, accept, INITIAL, pieces), parts)
  {
    ReadSerialized(b, parts);
    EmptyPieces(pieces, k);
    FirstPieceOpens(b, pieces, k, Serialize(b, parts));
    ToleratedLineEnd();
    EveryCutDelivers(b, accept, pieces, k);
  }

  lemma FirstPieceOpens(b: string, pieces: seq<string>, k: nat, t: string)
    requires StartsAt(pieces, k) && Concat(pieces[k..]) == t && OpeningLine(b) <= t && |pieces[k]| >= |OpeningLine(b)|
    ensures OpensAt(b, pieces, k)
  {
    var o, p := OpeningLine(b), pieces[k];
    assert p <= t;
    assert p[0..|o|] == t[..|o|] == o && OccursAt(p, o, 0);
  }
}
