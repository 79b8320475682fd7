/**
  The exact limits of the push parser: which bodies come through under every cut, what
  happens to a header line at the limit, and to bytes after the closing delimiter.
  A body is also fed token by token here, with every cut where a token ends.
 */
module MultipartLimits {
  import opened Text
  import opened MultipartSpec
  import opened MultipartParser
  import opened MultipartRoundTrip
  import opened MultipartBody

  // ----- one token at a time -----

  /** About to read a header line, with nothing in the buffer. */
  ghost predicate AtLine(st: State) { (st.phase.Entry? || st.phase.Headers?) && st.buf == "" }

  function FileOf(st: State): File { if st.phase.Entry? then NO_FILE else st.file }

  /** Entering the header state changes nothing but that. */
  lemma EntryIsHeaders(b: string, accept: Receiver, st: State, x: string)
    requires AtLine(st) && x != ""
    ensures var h := st.(phase := Headers, file := FileOf(st), buf := x);
            Feed(b, accept, st, x) == Drain(b, accept, h) &&
            (StepHeaders(accept, h).Running? ==>
            Feed(b, accept, st, x) == Drain(b, accept, StepHeaders(accept, h).st)) &&
            (!StepHeaders(accept, h).Running? ==> Feed(b, accept, st, x) == StepHeaders(accept, h))
  {
    assert st.buf + x == x;
    if st.phase.Entry? {
      DrainStep(b, accept, st.(buf := x));
    }
  }

  lemma ScanLine(file: File, line: string)
    requires line != "" && Find(line, CRLF) == |line|
    ensures Find(line + CRLF, CRLF) == |line|
    ensures ScanHeaders(file, line + CRLF) ==
            if HeaderLine(file, line).None? then Malformed else Partial(HeaderLine(file, line).value, "")
  {
    FindLineEnd(line, "");
    var t := line + CRLF;
    assert t + "" == t && line + CRLF + "" == t;
    assert t[..|line|] == line && t[|line| + 2..] == "";
  }

  lemma LineToken(b: string, accept: Receiver, st: State, line: string)
    requires AtLine(st) && line != "" && Find(line, CRLF) == |line| <= HEADER_MAX_LENGTH
    ensures Feed(b, accept, st, line + CRLF) ==
            if HeaderLine(FileOf(st), line).None? then Rejected(st.events)
            else Waiting(st.(phase := Headers, file := HeaderLine(FileOf(st), line).value))
  {
    ScanLine(FileOf(st), line);
    EntryIsHeaders(b, accept, st, line + CRLF);
  }

  lemma LongToken(b: string, accept: Receiver, st: State, x: string)
    requires AtLine(st) && Find(x, CRLF) > HEADER_MAX_LENGTH
    ensures Feed(b, accept, st, x) == Rejected(st.events)
  {
    EntryIsHeaders(b, accept, st, x);
  }

  function Opened(st: State): State {
    st.(phase := Body, file := FileOf(st), events := st.events + [Header(FileOf(st))])
  }

  lemma BlankToken(b: string, accept: Receiver, st: State)
    requires AtLine(st) && AcceptsAll(accept)
    ensures Feed(b, accept, st, CRLF) == Waiting(Opened(st)) &&
            Parts(Opened(st).events) == Parts(st.events) + [Part(FileOf(st), "")]
  {
    PrefixOccurs(CRLF, CRLF);
    assert Find(CRLF, CRLF) == 0 && CRLF[2..] == "";
    assert ScanHeaders(FileOf(st), CRLF) == Complete(FileOf(st), "");
    EntryIsHeaders(b, accept, st, CRLF);
    PartsSnoc(st.events, Header(FileOf(st)));
  }

  function Filled(st: State, c: string): State { st.(phase := Boundary, events := st.events + [Content(c)]) }

  lemma ContentToken(b: string, accept: Receiver, st: State, c: string)
    requires st.phase.Body? && st.buf == "" && AcceptsAll(accept)
    requires Find(c + Delimiter(b), Delimiter(b)) == |c|
    ensures Feed(b, accept, st, c + Delimiter(b)) == Waiting(Filled(st, c))
    ensures Parts(Filled(st, c).events) == Extend(Parts(st.events), c)
  {
    var d := Delimiter(b);
    var s := st.(buf := c + d);
    assert st.buf + (c + d) == c + d;
    assert (c + d)[..|c|] == c && (c + d)[|c| + |d|..] == "";
    DrainStep(b, accept, s);
    PartsSnoc(st.events, Content(c));
  }

  lemma NextToken(b: string, accept: Receiver, st: State)
    requires st.phase.Boundary? && st.buf == ""
    ensures Feed(b, accept, st, CRLF) == Waiting(st.(phase := Entry))
  {
    var s := st.(buf := CRLF);
    assert st.buf + CRLF == CRLF && CRLF[2..] == "";
    DrainStep(b, accept, s);
  }

  lemma EndToken(b: string, accept: Receiver, st: State, x: string)
    requires st.phase.Boundary? && st.buf == ""
    ensures Feed(b, accept, st, "--" + x) == Waiting(st.(valid := true))
  {
    var s := st.(buf := "--" + x);
    assert st.buf + ("--" + x) == "--" + x;
    assert s.buf[0] == '-' && "--" <= s.buf;
    DrainStep(b, accept, s);
  }

  lemma FeedCons(b: string, accept: Receiver, st: State, x: string, pieces: seq<string>)
    ensures Concat([x] + pieces) == x + Concat(pieces)
    ensures var o := Feed(b, accept, st, x);
            FeedAll(b, accept, st, [x] + pieces) == if o.Waiting? then FeedAll(b, accept, o.st, pieces) else o
  {
    assert ([x] + pieces)[1..] == pieces;
  }

  /** These pieces take the parser from st to s. */
  ghost predicate Leads(b: string, accept: Receiver, st: State, pieces: seq<string>, s: State) {
    forall more :: FeedAll(b, accept, st, pieces + more) == FeedAll(b, accept, s, more)
  }

  lemma OneLeads(b: string, accept: Receiver, st: State, x: string, s: State)
    requires Feed(b, accept, st, x) == Waiting(s)
    ensures Leads(b, accept, st, [x], s) && Concat([x]) == x
  {
    forall more
      ensures FeedAll(b, accept, st, [x] + more) == FeedAll(b, accept, s, more)
    {
      FeedCons(b, accept, st, x, more);
    }
    FeedCons(b, accept, st, x, []);
    assert [x] + [] == [x];
  }

  lemma BothLead(b: string, accept: Receiver, st: State, p: seq<string>, m: State, q: seq<string>, s: State)
    requires Leads(b, accept, st, p, m) && Leads(b, accept, m, q, s)
    ensures Leads(b, accept, st, p + q, s) && Concat(p + q) == Concat(p) + Concat(q)
  {
    forall more
      ensures FeedAll(b, accept, st, (p + q) + more) == FeedAll(b, accept, s, more)
    {
      Assoc(p, q, more);
    }
    ConcatTwo(p, q);
  }

  lemma {:induction false} ConcatTwo(p: seq<string>, q: seq<string>)
    ensures Concat(p + q) == Concat(p) + Concat(q)
  {
    if p == [] {
      assert p + q == q;
    } else {
      assert (p + q)[1..] == p[1..] + q;
      ConcatTwo(p[1..], q);
    }
  }

  // ----- a cut that refuses a long header line -----

  /** A line that reaches the limit is refused when it arrives with its CR and without its LF. */
  lemma LongLineCut(b: string, accept: Receiver, st: State, u: string)
    requires AtLine(st) && HEADER_MAX_LENGTH <= Find(u, CRLF) < |u|
    ensures var k := Find(u, CRLF) + 1;
            Concat([u[..k], u[k..]]) == u && FeedAll(b, accept, st, [u[..k], u[k..]]) == Rejected(st.events)
  {
    var k := Find(u, CRLF) + 1;
    NoneBefore(u, CRLF, k);
    LongToken(b, accept, st, u[..k]);
    TwoPieces(b, accept, st, u[..k], u[k..]);
    assert u[..k] + u[k..] == u;
  }

  /** The blank line and the content after it, up to the next delimiter. */
  lemma ContentTokens(b: string, accept: Receiver, st: State, v: string) returns (pieces: seq<string>, s: State)
    requires AtLine(st) && AcceptsAll(accept) && Find(v, Delimiter(b)) < |v|
    ensures var k := Find(v, Delimiter(b));
            Concat(pieces) + v[k + |Delimiter(b)|..] == CRLF + v &&
            s.phase.Boundary? && s.buf == "" && s.valid == st.valid &&
            Parts(s.events) == Parts(st.events) + [Part(FileOf(st), v[..k])]
    ensures Leads(b, accept, st, pieces, s)
  {
    var d, k := Delimiter(b), Find(v, Delimiter(b));
    CutAtFirst(v, d);
    BlankToken(b, accept, st);
    ContentToken(b, accept, Opened(st), v[..k]);
    s := Filled(Opened(st), v[..k]);
    pieces := [CRLF, v[..k] + d];
    OneFilled(Parts(st.events), FileOf(st), v[..k]);
    FeedCons(b, accept, st, CRLF, [v[..k] + d]);
    assert [CRLF] + [v[..k] + d] == pieces && Concat([v[..k] + d]) == v[..k] + d;
    OneLeads(b, accept, st, CRLF, Opened(st));
    OneLeads(b, accept, Opened(st), v[..k] + d, s);
    BothLead(b, accept, st, [CRLF], Opened(st), [v[..k] + d], s);
  }

  lemma OneFilled(ps: seq<Part>, f: File, c: string)
    ensures Extend(ps + [Part(f, "")], c) == ps + [Part(f, c)]
  {
    var qs := ps + [Part(f, "")];
    assert qs[..|qs| - 1] == ps;
    assert "" + c == c;
  }

  /** One header line of u as a token, and what it leaves. */
  lemma FirstLineToken(b: string, accept: Receiver, st: State, u: string) returns (s: State)
    requires AtLine(st) && 0 < Find(u, CRLF) < |u| && Find(u, CRLF) <= HEADER_MAX_LENGTH
    requires HeaderLine(FileOf(st), u[..Find(u, CRLF)]).Some?
    ensures var k := Find(u, CRLF);
            Leads(b, accept, st, [u[..k] + CRLF], s) && Concat([u[..k] + CRLF]) + u[k + 2..] == u &&
            AtLine(s) && FileOf(s) == HeaderLine(FileOf(st), u[..k]).value && s.events == st.events &&
            s.valid == st.valid
  {
    var k := Find(u, CRLF);
    CutAtFirst(u, CRLF);
    LineToken(b, accept, st, u[..k]);
    s := st.(phase := Headers, file := HeaderLine(FileOf(st), u[..k]).value);
    OneLeads(b, accept, st, u[..k] + CRLF, s);
  }

  lemma {:induction false} RefusingCut(b: string, accept: Receiver, st: State, u: string) returns (pieces: seq<string>)
    requires AtLine(st) && AcceptsAll(accept)
    requires var o := ReadHeaderLines(b, FileOf(st), u); o.Some? && o.value.longest >= HEADER_MAX_LENGTH
    ensures Concat(pieces) == u && FeedAll(b, accept, st, pieces).Rejected?
    decreases |u|
  {
    var k := Find(u, CRLF);
    if k >= HEADER_MAX_LENGTH {
      pieces := [u[..k + 1], u[k + 1..]];
      LongLineCut(b, accept, st, u);
    } else if k > 0 {
      var s := FirstLineToken(b, accept, st, u);
      var more := RefusingCut(b, accept, s, u[k + 2..]);
      pieces := [u[..k] + CRLF] + more;
      ConcatTwo([u[..k] + CRLF], more);
    } else {
      var v := u[2..];
      BlankLineRead(b, FileOf(st), u);
      var head, s := ContentTokens(b, accept, st, v);
      var w := v[Find(v, Delimiter(b)) + |Delimiter(b)|..];
      var e := NextPart(b, accept, st, head, s);
      var more := RefusingCut(b, accept, e, w[2..]);
      pieces := (head + [CRLF]) + more;
      ConcatTwo(head + [CRLF], more);
      Rejoined(Concat(head), w, u);
    }
  }

  /** After a blank line: what the reader does with the content and what follows its delimiter. */
  lemma BlankLineRead(b: string, f: File, u: string)
    requires Find(u, CRLF) == 0 && u != "" && ReadHeaderLines(b, f, u).Some?
    ensures var v := u[2..];
            var k := Find(v, Delimiter(b));
            u == CRLF + v && k < |v| &&
            ReadHeaderLines(b, f, u) == Prepend(Part(f, v[..k]), ReadAfterDelimiter(b, v[k + |Delimiter(b)|..]))
  {
    CutAtFirst(u, CRLF);
    assert u[..0] + CRLF == CRLF;
  }

  lemma NextPart(b: string, accept: Receiver, st: State, head: seq<string>, s: State) returns (e: State)
    requires Leads(b, accept, st, head, s) && s.phase.Boundary? && s.buf == ""
    ensures Leads(b, accept, st, head + [CRLF], e) && Concat(head + [CRLF]) == Concat(head) + CRLF
    ensures e == s.(phase := Entry)
  {
    NextToken(b, accept, s);
    e := s.(phase := Entry);
    OneLeads(b, accept, s, CRLF, e);
    BothLead(b, accept, st, head, s, [CRLF], e);
  }

  lemma Rejoined(head: string, w: string, u: string)
    requires head + w == u && CRLF <= w
    ensures (head + CRLF) + w[2..] == u
  {
    assert w == CRLF + w[2..];
  }

  // ----- a cut that delivers -----

  /** The closing token, with i bytes of the epilogue in the same piece. */
  lemma LastPart(b: string, accept: Receiver, st: State, head: seq<string>, s: State, w: string, i: nat)
    returns (pieces: seq<string>, e: State)
    requires Leads(b, accept, st, head, s) && s.phase.Boundary? && s.buf == ""
    requires "--" <= w && i <= |w| - 2
    ensures Leads(b, accept, st, pieces, e) && Concat(pieces) + w[2..][i..] == Concat(head) + w
    ensures e == s.(valid := true)
  {
    var x := w[2..][..i];
    EndToken(b, accept, s, x);
    e := s.(valid := true);
    OneLeads(b, accept, s, "--" + x, e);
    BothLead(b, accept, st, head, s, ["--" + x], e);
    pieces := head + ["--" + x];
    EndJoined(Concat(head), w, i);
  }

  lemma EndJoined(head: string, w: string, i: nat)
    requires "--" <= w && i <= |w| - 2
    ensures (head + ("--" + w[2..][..i])) + w[2..][i..] == head + w
  {
    var x, y := w[2..][..i], w[2..][i..];
    assert w[2..] == x + y;
    assert w == "--" + w[2..];
    assert (head + ("--" + x)) + y == head + ("--" + (x + y));
  }

  lemma Glue(a: string, c: string, tail: string, v: string, u: string)
    requires a + v == u && c + tail == v
    ensures (a + c) + tail == u
  {
  }

  ghost predicate Finished(s: State, parts: seq<Part>) {
    s.phase.Boundary? && s.buf == "" && s.valid && Parts(s.events) == parts
  }

  /** The pieces take the parser through u to its end, i bytes of the epilogue included, with these parts reported. */
  ghost predicate Reaches(b: string, accept: Receiver, st: State, u: string, parts: seq<Part>, tail: string,
                          pieces: seq<string>, s: State)
  {
    Leads(b, accept, st, pieces, s) && Concat(pieces) + tail == u && Finished(s, Parts(st.events) + parts)
  }

  /** Pieces p up to m and then on to the end. */
  lemma ReachesOn(b: string, accept: Receiver, st: State, u: string, p: seq<string>, m: State, w: string,
                  first: seq<Part>,
                  parts: seq<Part>, tail: string, more: seq<string>, s: State)
    requires Leads(b, accept, st, p, m) && Concat(p) + w == u && Parts(m.events) == Parts(st.events) + first
    requires Reaches(b, accept, m, w, parts, tail, more, s)
    ensures Reaches(b, accept, st, u, first + parts, tail, p + more, s)
  {
    BothLead(b, accept, st, p, m, more, s);
    Glue(Concat(p), Concat(more), tail, w, u);
    Assoc(Parts(st.events), first, parts);
  }

  lemma LineRead(b: string, f: File, u: string)
    requires Find(u, CRLF) > 0 && ReadHeaderLines(b, f, u).Some?
    ensures var k := Find(u, CRLF);
            var doc := ReadHeaderLines(b, f, u).value;
            k < |u| && k <= doc.longest && HeaderLine(f, u[..k]).Some? &&
            var rest := ReadHeaderLines(b, HeaderLine(f, u[..k]).value, u[k + 2..]);
            rest.Some? && rest.value.parts == doc.parts && rest.value.epilogue == doc.epilogue &&
            rest.value.longest <= doc.longest &&
            doc.longest == (if k > rest.value.longest then k else rest.value.longest)
  {
  }

  lemma LastReaches(b: string, accept: Receiver, st: State, head: seq<string>, m: State, w: string, i: nat,
                    u: string, p: Part)
    returns (pieces: seq<string>, s: State)
    requires Leads(b, accept, st, head, m) && m.phase.Boundary? && m.buf == "" && Concat(head) + w == u
    requires Parts(m.events) == Parts(st.events) + [p] && "--" <= w && i <= |w| - 2
    ensures Reaches(b, accept, st, u, [p], w[2..][i..], pieces, s)
  {
    pieces, s := LastPart(b, accept, st, head, m, w, i);
  }

  /** Fed token by token, a body with no header line above the limit comes through, up to i bytes of its epilogue. */
  lemma {:induction false} TokenCut(b: string, accept: Receiver, st: State, u: string, i: nat)
    returns (pieces: seq<string>, s: State)
    requires AtLine(st) && AcceptsAll(accept)
    requires var o := ReadHeaderLines(b, FileOf(st), u);
             o.Some? && o.value.longest <= HEADER_MAX_LENGTH && i <= |o.value.epilogue|
    ensures var doc := ReadHeaderLines(b, FileOf(st), u).value;
            Reaches(b, accept, st, u, doc.parts, doc.epilogue[i..], pieces, s)
    decreases |u|, 1
  {
    var k := Find(u, CRLF);
    if k > 0 {
      var doc := ReadHeaderLines(b, FileOf(st), u).value;
      LineRead(b, FileOf(st), u);
      var m := FirstLineToken(b, accept, st, u);
      var more;
      more, s := TokenCut(b, accept, m, u[k + 2..], i);
      pieces := [u[..k] + CRLF] + more;
      ReachesOn(b, accept, st, u, [u[..k] + CRLF], m, u[k + 2..], [], doc.parts, doc.epilogue[i..], more, s);
      assert [] + doc.parts == doc.parts;
    } else {
      pieces, s := PartCut(b, accept, st, u, i);
    }
  }

  lemma {:induction false} PartCut(b: string, accept: Receiver, st: State, u: string, i: nat)
    returns (pieces: seq<string>, s: State)
    requires AtLine(st) && AcceptsAll(accept) && Find(u, CRLF) == 0 && u != ""
    requires var o := ReadHeaderLines(b, FileOf(st), u);
             o.Some? && o.value.longest <= HEADER_MAX_LENGTH && i <= |o.value.epilogue|
    ensures var doc := ReadHeaderLines(b, FileOf(st), u).value;
            Reaches(b, accept, st, u, doc.parts, doc.epilogue[i..], pieces, s)
    decreases |u|, 0
  {
    BlankLineRead(b, FileOf(st), u);
    var head, m := ContentTokens(b, accept, st, u[2..]);
    var v, d := u[2..], Delimiter(b);
    var p, w := Part(FileOf(st), v[..Find(v, d)]), v[Find(v, d) + |d|..];
    if CRLF <= w {
      var e := NextPart(b, accept, st, head, m);
      Rejoined(Concat(head), w, u);
      var doc := ReadHeaderLines(b, NO_FILE, w[2..]).value;
      var more;
      more, s := TokenCut(b, accept, e, w[2..], i);
      pieces := (head + [CRLF]) + more;
      ReachesOn(b, accept, st, u, head + [CRLF], e, w[2..], [p], doc.parts, doc.epilogue[i..], more, s);
    } else {
      pieces, s := LastReaches(b, accept, st, head, m, w, i, u, p);
      assert [p] + [] == [p];
    }
  }

  // ----- cuts of an epilogue -----

  /** The run went wrong: it was refused, or a part was reported that st had not. */
  ghost predicate Spoilt(st: State, o: Outcome) { o.Rejected? || |Parts(st.events)| < |Parts(o.st.events)| }

  lemma BlankSpoils(b: string, accept: Receiver, st: State, v: string)
    requires AtLine(st) && AcceptsAll(accept) && CRLF <= v
    ensures Concat([CRLF, v[2..]]) == v && Spoilt(st, FeedAll(b, accept, st, [CRLF, v[2..]]))
  {
    BlankToken(b, accept, st);
    TwoPieces(b, accept, st, CRLF, v[2..]);
    OpenedSpoils(b, accept, st, v[2..]);
    assert v == CRLF + v[2..];
  }

  lemma OpenedSpoils(b: string, accept: Receiver, st: State, x: string)
    requires Parts(Opened(st).events) == Parts(st.events) + [Part(FileOf(st), "")]
    ensures Spoilt(st, FeedAll(b, accept, Opened(st), [x]))
  {
    PartsGrow(b, accept, Opened(st), [x]);
  }

  lemma TwoPieces(b: string, accept: Receiver, st: State, x: string, y: string)
    ensures Concat([x, y]) == x + y
    ensures var o := Feed(b, accept, st, x);
            FeedAll(b, accept, st, [x, y]) == if o.Waiting? then FeedAll(b, accept, o.st, [y]) else o
  {
    FeedCons(b, accept, st, x, [y]);
    FeedCons(b, accept, st, y, []);
    assert [x] + [y] == [x, y] && [y] + [] == [y];
    assert y + "" == y;
  }

  /** A text that the header state cannot go on taking for ever has a cut under which it does not. */
  lemma {:induction false} SpoilingCut(b: string, accept: Receiver, st: State, v: string) returns (pieces: seq<string>)
    requires AtLine(st) && AcceptsAll(accept) && !Endless(FileOf(st), v)
    ensures Concat(pieces) == v && Spoilt(st, FeedAll(b, accept, st, pieces))
    decreases |v|
  {
    var k := Find(v, CRLF);
    if k == |v| {
      pieces := [v];
      LongToken(b, accept, st, v);
      FeedCons(b, accept, st, v, []);
      assert [v] + [] == [v];
    } else if k >= HEADER_MAX_LENGTH {
      pieces := [v[..k + 1], v[k + 1..]];
      LongLineCut(b, accept, st, v);
    } else if k == 0 {
      pieces := [CRLF, v[2..]];
      PrefixOccurs(v, CRLF);
      BlankSpoils(b, accept, st, v);
    } else if HeaderLine(FileOf(st), v[..k]).None? {
      CutAtFirst(v, CRLF);
      pieces := [v[..k] + CRLF, v[k + 2..]];
      LineToken(b, accept, st, v[..k]);
      TwoPieces(b, accept, st, v[..k] + CRLF, v[k + 2..]);
    } else {
      var s := FirstLineToken(b, accept, st, v);
      var more := SpoilingCut(b, accept, s, v[k + 2..]);
      pieces := [v[..k] + CRLF] + more;
      ConcatTwo([v[..k] + CRLF], more);
    }
  }

  // ----- exactly when every cut delivers -----

  /** The preamble and the opening line as one piece. */
  lemma OpeningToken(b: string, accept: Receiver, t: string) returns (x: string, u: string)
    requires Find(t, OpeningLine(b)) < |t|
    ensures x + u == t && Find(x, OpeningLine(b)) < |x| && ReadBody(b, t) == ReadHeaderLines(b, NO_FILE, u)
    ensures Feed(b, accept, INITIAL, x) == Waiting(INITIAL.(phase := Entry))
  {
    var o, k := OpeningLine(b), Find(t, OpeningLine(b));
    CutAtFirst(t, o);
    x, u := t[..k] + o, t[k + |o|..];
    var st := INITIAL.(buf := x);
    assert INITIAL.buf + x == x;
    assert x[k..] == o && o[|o|..] == "";
    DrainStep(b, accept, st);
  }

  /** A cut of t whose first piece holds a whole opening line. */
  ghost predicate WholeCut(b: string, t: string, pieces: seq<string>) {
    pieces != [] && Concat(pieces) == t && Find(pieces[0], OpeningLine(b)) < |pieces[0]|
  }

  lemma OpeningFirst(b: string, accept: Receiver, x: string, u: string, more: seq<string>)
    requires Find(x, OpeningLine(b)) < |x| && Concat(more) == u
    requires Feed(b, accept, INITIAL, x) == Waiting(INITIAL.(phase := Entry))
    ensures WholeCut(b, x + u, [x] + more)
    ensures FeedAll(b, accept, INITIAL, [x] + more) == FeedAll(b, accept, INITIAL.(phase := Entry), more)
  {
    FeedCons(b, accept, INITIAL, x, more);
  }

  lemma LongBodyRefused(b: string, accept: Receiver, t: string) returns (pieces: seq<string>)
    requires AcceptsAll(accept) && ReadBody(b, t).Some? && ReadBody(b, t).value.longest >= HEADER_MAX_LENGTH
    ensures WholeCut(b, t, pieces) && FeedAll(b, accept, INITIAL, pieces).Rejected?
  {
    var x, u := OpeningToken(b, accept, t);
    var more := RefusingCut(b, accept, INITIAL.(phase := Entry), u);
    pieces := [x] + more;
    OpeningFirst(b, accept, x, u, more);
  }

  /** The body token by token, with i bytes of its epilogue. */
  lemma BodyTokens(b: string, accept: Receiver, t: string, i: nat) returns (head: seq<string>, s: State)
    requires AcceptsAll(accept) && ReadBody(b, t).Some? && ReadBody(b, t).value.longest <= HEADER_MAX_LENGTH
    requires i <= |ReadBody(b, t).value.epilogue|
    ensures head != [] && Find(head[0], OpeningLine(b)) < |head[0]|
    ensures Reaches(b, accept, INITIAL, t, ReadBody(b, t).value.parts, ReadBody(b, t).value.epilogue[i..], head, s)
  {
    var doc := ReadBody(b, t).value;
    var x, u := OpeningToken(b, accept, t);
    var st := INITIAL.(phase := Entry);
    var more;
    more, s := TokenCut(b, accept, st, u, i);
    OneLeads(b, accept, INITIAL, x, st);
    ReachesOn(b, accept, INITIAL, t, [x], st, u, [], doc.parts, doc.epilogue[i..], more, s);
    head := [x] + more;
    assert [] + doc.parts == doc.parts;
  }

  /** Followed by a cut of the rest of the epilogue. */
  lemma TokensThen(b: string, accept: Receiver, t: string, parts: seq<Part>, tail: string,
                   head: seq<string>, s: State, after: seq<string>)
    requires head != [] && Find(head[0], OpeningLine(b)) < |head[0]|
    requires Reaches(b, accept, INITIAL, t, parts, tail, head, s) && Concat(after) == tail
    ensures WholeCut(b, t, head + after)
    ensures FeedAll(b, accept, INITIAL, head + after) == FeedAll(b, accept, s, after)
  {
    ConcatTwo(head, after);
  }

  lemma EpilogueSpoils(b: string, accept: Receiver, t: string) returns (pieces: seq<string>)
    requires AcceptsAll(accept) && ReadBody(b, t).Some? && ReadBody(b, t).value.longest <= HEADER_MAX_LENGTH
    requires !Tolerated(ReadBody(b, t).value.epilogue)
    ensures WholeCut(b, t, pieces) && !Delivers(FeedAll(b, accept, INITIAL, pieces), ReadBody(b, t).value.parts)
  {
    var doc := ReadBody(b, t).value;
    var i :| OccursAt(doc.epilogue, CRLF, i) && !Endless(NO_FILE, doc.epilogue[i + 2..]);
    var head, s := BodyTokens(b, accept, t, i);
    LineEndAt(doc.epilogue, i);
    var after := LineEndSpoils(b, accept, s, doc.epilogue[i..]);
    TokensThen(b, accept, t, doc.parts, doc.epilogue[i..], head, s, after);
    pieces := head + after;
    assert [] + doc.parts == doc.parts;
  }

  lemma LineEndAt(e: string, i: nat)
    requires OccursAt(e, CRLF, i)
    ensures CRLF <= e[i..] && e[i..][2..] == e[i + 2..]
  {
    assert e[i..i + 2] == e[i..][..2];
  }

  /** After the end, a line end and a text that the header state cannot go on taking. */
  lemma LineEndSpoils(b: string, accept: Receiver, s: State, w: string) returns (after: seq<string>)
    requires AcceptsAll(accept) && s.phase.Boundary? && s.buf == "" && CRLF <= w && !Endless(NO_FILE, w[2..])
    ensures Concat(after) == w && Spoilt(s, FeedAll(b, accept, s, after))
  {
    var e := s.(phase := Entry);
    NextToken(b, accept, s);
    var cut := SpoilingCut(b, accept, e, w[2..]);
    FeedCons(b, accept, s, CRLF, cut);
    after := [CRLF] + cut;
    assert w == CRLF + w[2..];
  }

  /**
    A body comes through under every cut that leaves its opening line whole in the first
    piece, if and only if every header line is below the limit and its epilogue is tolerable.
   */
  lemma EveryCutDeliversIff(b: string, accept: Receiver, t: string)
    requires AcceptsAll(accept) && ReadBody(b, t).Some?
    ensures var doc := ReadBody(b, t).value;
            (forall pieces :: WholeCut(b, t, pieces) ==> Delivers(FeedAll(b, accept, INITIAL, pieces), doc.parts)) <==>
            doc.longest < 8192 && Tolerated(doc.epilogue)
  {
    var doc := ReadBody(b, t).value;
    if doc.longest >= HEADER_MAX_LENGTH {
      var pieces := LongBodyRefused(b, accept, t);
      assert WholeCut(b, t, pieces);
    } else if !Tolerated(doc.epilogue) {
      var pieces := EpilogueSpoils(b, accept, t);
      assert WholeCut(b, t, pieces);
    } else {
      forall pieces | WholeCut(b, t, pieces)
        ensures Delivers(FeedAll(b, accept, INITIAL, pieces), doc.parts)
      {
        assert pieces[0..] == pieces && OpensAt(b, pieces, 0);
        EveryCutDelivers(b, accept, pieces, 0);
      }
    }
  }

  /** At the limit it depends on the cut: a body whose longest header line just reaches it has cuts of both kinds. */
  lemma LimitDependsOnCut(b: string, accept: Receiver, t: string) returns (good: seq<string>, bad: seq<string>)
    requires AcceptsAll(accept) && ReadBody(b, t).Some? && ReadBody(b, t).value.longest == 8192
    ensures WholeCut(b, t, good) && Delivers(FeedAll(b, accept, INITIAL, good), ReadBody(b, t).value.parts)
    ensures WholeCut(b, t, bad) && FeedAll(b, accept, INITIAL, bad).Rejected?
  {
    var doc := ReadBody(b, t).value;
    bad := LongBodyRefused(b, accept, t);
    var e := doc.epilogue;
    var head, s := BodyTokens(b, accept, t, |e|);
    assert e[|e|..] == "";
    TokensThen(b, accept, t, doc.parts, "", head, s, []);
    good := head + [];
    assert [] + doc.parts == doc.parts;
  }

  /**
    Bytes after the closing delimiter are ignored in its own piece, but in a later one they
    may open a part: after any written body, two line ends do.
   */
  lemma LateEpilogueOpensPart(b: string, accept: Receiver, parts: seq<Part>)
    requires AcceptsAll(accept) && parts != [] && AllWritable(b, parts)
    ensures var o := FeedAll(b, accept, INITIAL, [Serialize(b, parts), "\r\n\r\n"]);
            o.Waiting? && Parts(o.st.events) == parts + [Part(NO_FILE, "")]
  {
    var t := Serialize(b, parts);
    var s := WholeBody(b, accept, parts);
    FeedCons(b, accept, INITIAL, t, ["\r\n\r\n"]);
    assert [t] + ["\r\n\r\n"] == [t, "\r\n\r\n"];
    FeedCons(b, accept, s, "\r\n\r\n", []);
    assert ["\r\n\r\n"] + [] == ["\r\n\r\n"];
    TwoLineEnds(b, accept, s);
  }

  /** A written body in one piece. */
  lemma WholeBody(b: string, accept: Receiver, parts: seq<Part>) returns (s: State)
    requires AcceptsAll(accept) && parts != [] && AllWritable(b, parts)
    ensures Feed(b, accept, INITIAL, Serialize(b, parts)) == Waiting(s) && Finished(s, parts)
  {
    var t := Serialize(b, parts);
    ReadSerialized(b, parts);
    s := WholeText(b, accept, t);
  }

  lemma WholeText(b: string, accept: Receiver, t: string) returns (s: State)
    requires AcceptsAll(accept) && ReadBody(b, t).Some? && ReadBody(b, t).value.longest < HEADER_MAX_LENGTH
    ensures Feed(b, accept, INITIAL, t) == Waiting(s) && Finished(s, ReadBody(b, t).value.parts)
  {
    var st := INITIAL.(buf := t);
    assert INITIAL.buf + t == t;
    DrainKeeps(b, accept, st, "");
    MeaningOfStart(b, t);
    CallFinishes(b, accept, st, ReadBody(b, t).value, Drain(b, accept, st));
    s := Drain(b, accept, st).st;
  }

  lemma MeaningOfStart(b: string, t: string)
    ensures Meaning(b, INITIAL.(buf := t), "") == ReadBody(b, t)
  {
    assert t + "" == t;
    assert ReadBody(b, t).Some? ==> [] + ReadBody(b, t).value.parts == ReadBody(b, t).value.parts;
  }

  lemma CallFinishes(b: string, accept: Receiver, st: State, doc: Doc, o: Outcome)
    requires AcceptsAll(accept) && CallKeeps(b, accept, st, "", o)
    requires Meaning(b, st, "") == Some(doc) && doc.longest < HEADER_MAX_LENGTH
    ensures o.Waiting? && Finished(o.st, doc.parts)
  {
  }

  lemma TwoLineEnds(b: string, accept: Receiver, st: State)
    requires AcceptsAll(accept) && st.phase.Boundary? && st.buf == ""
    ensures var o := Feed(b, accept, st, "\r\n\r\n");
            o.Waiting? && Parts(o.st.events) == Parts(st.events) + [Part(NO_FILE, "")]
  {
    var s1 := st.(buf := "\r\n\r\n");
    assert st.buf + "\r\n\r\n" == "\r\n\r\n";
    assert s1.buf[2..] == CRLF;
    var s2 := st.(phase := Entry, buf := CRLF);
    assert Step(b, accept, s1) == Running(s2);
    DrainStep(b, accept, s1);
    BlankToken(b, accept, st.(phase := Entry));
    assert "" + CRLF == CRLF;
  }
}
