/**
  The push parser for multipart/form-data: five states over a sliding buffer, fed
  in pieces of any size.  Its transitions are given as functions on a value, the
  parser object carries them out on its buffer, and every cut of a body is shown to
  yield what the reference reader sees in the whole text.
 */
module MultipartParser {
  import opened Text
  import opened MultipartSpec

  datatype Event = Header(file: File) | Content(data: string)

  /** The two callbacks: their answer may depend on everything delivered so far. */
  type Receiver = seq<Event> -> bool

  datatype Phase = Opening | Entry | Headers | Body | Boundary

  datatype State = State(phase: Phase, file: File, buf: string, valid: bool, events: seq<Event>)

  const INITIAL := State(Opening, NO_FILE, "", false, [])

  /** Go on with the loop, ask for more input, or give up. */
  datatype Outcome = Running(st: State) | Waiting(st: State) | Rejected(events: seq<Event>)

  datatype HeaderScan =
    | Complete(file: File, rest: string)
    | Partial(file: File, rest: string)
    | Malformed

  /** Takes header lines off the buffer up to the empty line or the last complete one. */
  function ScanHeaders(file: File, buf: string): (r: HeaderScan)
    ensures r.Complete? ==> |r.rest| < |buf|
    ensures r.Partial? ==> Find(r.rest, CRLF) == |r.rest|
    decreases |buf|
  {
    var pos := Find(buf, CRLF);
    if pos == |buf| then Partial(file, buf)
    else if pos == 0 then Complete(file, buf[2..])
    else
      match HeaderLine(file, buf[..pos])
      case None => Malformed
      case Some(f) => ScanHeaders(f, buf[pos + 2..])
  }

  function Deliver(accept: Receiver, st: State, e: Event): (r: Outcome)
    ensures r == Running(st.(events := st.events + [e])) || r == Rejected(st.events + [e])
  {
    var events := st.events + [e];
    if accept(events) then Running(st.(events := events)) else Rejected(events)
  }

  function StepOpening(b: string, st: State): (r: Outcome)
    ensures r.Running? ==> |r.st.buf| < |st.buf|
  {
    var buf := st.buf[Find(st.buf, OpeningLine(b))..];
    if |OpeningLine(b)| > |buf| then Waiting(st.(buf := buf))
    else if !(OpeningLine(b) <= buf) then Rejected(st.events)
    else Running(st.(phase := Entry, buf := buf[|OpeningLine(b)|..]))
  }

  function StepHeaders(accept: Receiver, st: State): (r: Outcome)
    ensures r.Running? ==> |r.st.buf| < |st.buf|
  {
    if Find(st.buf, CRLF) > HEADER_MAX_LENGTH then Rejected(st.events)
    else
      match ScanHeaders(st.file, st.buf)
      case Malformed => Rejected(st.events)
      case Partial(f, rest) => Waiting(st.(file := f, buf := rest))
      case Complete(f, rest) => Deliver(accept, st.(phase := Body, file := f, buf := rest), Header(f))
  }

  function StepBody(d: string, accept: Receiver, st: State): (r: Outcome)
    requires d != ""
    ensures r.Running? ==> |r.st.buf| < |st.buf|
  {
    if |d| > |st.buf| then Waiting(st)
    else
      var pos := Find(st.buf, d);
      if pos < |st.buf| then
        Deliver(accept, st.(phase := Boundary, buf := st.buf[pos + |d|..]), Content(st.buf[..pos]))
      else
        var len := |st.buf| - |d|;
        if len == 0 then Waiting(st)
        else
          var o := Deliver(accept, st.(buf := st.buf[len..]), Content(st.buf[..len]));
          if o.Running? then Waiting(o.st) else o
  }

  function StepBoundary(st: State): (r: Outcome)
    ensures r.Running? ==> |r.st.buf| < |st.buf|
  {
    if |st.buf| < 2 then Waiting(st)
    else if CRLF <= st.buf then Running(st.(phase := Entry, buf := st.buf[2..]))
    else if "--" <= st.buf then Running(st.(valid := true, buf := ""))
    else Waiting(st)
  }

  /** One round of the loop, entered only with a non-empty buffer. */
  function Step(b: string, accept: Receiver, st: State): (r: Outcome)
    requires st.buf != ""
    ensures r.Running? ==> |r.st.buf| < |st.buf| || (r.st.buf == st.buf && st.phase.Entry? && !r.st.phase.Entry?)
  {
    match st.phase
    case Opening => StepOpening(b, st)
    case Entry => Running(st.(phase := Headers, file := NO_FILE))
    case Headers => StepHeaders(accept, st)
    case Body => StepBody(Delimiter(b), accept, st)
    case Boundary => StepBoundary(st)
  }

  /** The loop of one call: steps until the buffer is empty or a step stops it. */
  function Drain(b: string, accept: Receiver, st: State): (r: Outcome)
    ensures !r.Running?
    decreases |st.buf|, if st.phase.Entry? then 1 else 0
  {
    if st.buf == "" then Waiting(st)
    else
      match Step(b, accept, st)
      case Running(s) => Drain(b, accept, s)
      case o => o
  }

  lemma DrainStep(b: string, accept: Receiver, st: State)
    requires st.buf != "" && Step(b, accept, st).Running?
    ensures Drain(b, accept, st) == Drain(b, accept, Step(b, accept, st).st)
  {
  }

  function Feed(b: string, accept: Receiver, st: State, piece: string): (r: Outcome)
    ensures !r.Running?
  {
    Drain(b, accept, st.(buf := st.buf + piece))
  }

  function FeedAll(b: string, accept: Receiver, st: State, pieces: seq<string>): (r: Outcome)
    ensures !r.Running?
    decreases |pieces|
  {
    if pieces == [] then Waiting(st)
    else
      match Feed(b, accept, st, pieces[0])
      case Waiting(s) => FeedAll(b, accept, s, pieces[1..])
      case o => o
  }

  // ----- what the callbacks were told -----

  function Extend(ps: seq<Part>, c: string): seq<Part> {
    if ps == [] then []
    else ps[..|ps| - 1] + [ps[|ps| - 1].(content := ps[|ps| - 1].content + c)]
  }

  /** A header opens a part, content is added to the last one. */
  function Report(ps: seq<Part>, e: Event): seq<Part> {
    match e
    case Header(f) => ps + [Part(f, "")]
    case Content(c) => Extend(ps, c)
  }

  /** The parts reported so far. */
  function Parts(events: seq<Event>): seq<Part> {
    if events == [] then []
    else Report(Parts(events[..|events| - 1]), events[|events| - 1])
  }

  lemma PartsSnoc(events: seq<Event>, e: Event)
    ensures Parts(events + [e]) == Report(Parts(events), e)
  {
    assert (events + [e])[..|events|] == events;
  }

  // ----- one text, any cut -----

  function After(ps: seq<Part>, o: Option<Doc>): Option<Doc> {
    match o
    case None => None
    case Some(d) => Some(d.(parts := ps + d.parts))
  }

  type Reader = string -> Option<Doc>

  ghost function Next(b: string): Reader { (t: string) => ReadAfterDelimiter(b, t) }

  /** Reading on in the content of the last part of ps, up to d, and then with next. */
  ghost function MoreContent(d: string, next: Reader, ps: seq<Part>, t: string): Option<Doc>
    requires d != ""
  {
    var pos := Find(t, d);
    if pos == |t| then None else After(Extend(ps, t[..pos]), next(t[pos + |d|..]))
  }

  /** What the reference reader makes of the reports so far, the buffer and the bytes still to come. */
  ghost function Meaning(b: string, st: State, rest: string): Option<Doc> {
    var ps := Parts(st.events);
    var t := st.buf + rest;
    match st.phase
    case Opening => After(ps, ReadBody(b, t))
    case Entry => After(ps, ReadHeaderLines(b, NO_FILE, t))
    case Headers => After(ps, ReadHeaderLines(b, st.file, t))
    case Body => MoreContent(Delimiter(b), Next(b), ps, t)
    case Boundary => After(ps, ReadAfterDelimiter(b, t))
  }

  /** The same parts and epilogue; header lines already consumed no longer count. */
  ghost predicate Agrees(o: Option<Doc>, o': Option<Doc>) {
    match o
    case None => o'.None?
    case Some(d) =>
      o'.Some? && o'.value.parts == d.parts && o'.value.epilogue == d.epilogue && o'.value.longest <= d.longest
  }

  lemma {:induction false} ScanHeadersMeaning(b: string, file: File, buf: string, rest: string)
    ensures match ScanHeaders(file, buf)
            case Malformed => ReadHeaderLines(b, file, buf + rest).None?
            case Partial(f, r) => Agrees(ReadHeaderLines(b, file, buf + rest), ReadHeaderLines(b, f, r + rest))
            case Complete(f, r) => Agrees(ReadHeaderLines(b, file, buf + rest), ReadContent(b, f, r + rest))
    decreases |buf|
  {
    var pos := Find(buf, CRLF);
    if pos < |buf| {
      FindStable(buf, rest, CRLF);
      assert (buf + rest)[..pos] == buf[..pos];
      assert (buf + rest)[pos + 2..] == buf[pos + 2..] + rest;
      if pos > 0 && HeaderLine(file, buf[..pos]).Some? {
        ScanHeadersMeaning(b, HeaderLine(file, buf[..pos]).value, buf[pos + 2..], rest);
      }
    }
  }

  /** The step that sees the closing "--". */
  ghost predicate Closing(st: State) {
    st.phase.Boundary? && |st.buf| >= 2 && "--" <= st.buf
  }

  /** Rejection has a reason: a callback refused, the text is no body, or a header line is too long. */
  ghost predicate Justified(accept: Receiver, events: seq<Event>, meaning: Option<Doc>) {
    !accept(events) || meaning.None? || meaning.value.longest >= HEADER_MAX_LENGTH
  }

  ghost predicate Keeps(b: string, accept: Receiver, st: State, rest: string, o: Outcome) {
    match o
    case Running(s) =>
      s.valid == st.valid && !s.phase.Opening? && Agrees(Meaning(b, st, rest), Meaning(b, s, rest))
    case Waiting(s) =>
      s.valid == st.valid && !s.phase.Opening? && Agrees(Meaning(b, st, rest), Meaning(b, s, rest))
    case Rejected(es) => Justified(accept, es, Meaning(b, st, rest))
  }

  lemma OpeningMeaning(b: string, accept: Receiver, st: State, rest: string)
    requires st.phase.Opening? && Find(st.buf, OpeningLine(b)) < |st.buf|
    ensures Keeps(b, accept, st, rest, StepOpening(b, st))
  {
    var o := OpeningLine(b);
    var pos := Find(st.buf, o);
    FindStable(st.buf, rest, o);
    assert st.buf[pos..][..|o|] == st.buf[pos..pos + |o|];
    assert st.buf[pos..][|o|..] + rest == (st.buf + rest)[pos + |o|..];
  }

  lemma LongLine(b: string, file: File, buf: string, rest: string)
    requires Find(buf, CRLF) > HEADER_MAX_LENGTH
    ensures var m := ReadHeaderLines(b, file, buf + rest); m.Some? ==> m.value.longest >= HEADER_MAX_LENGTH
  {
    if Find(buf, CRLF) < |buf| {
      FindStable(buf, rest, CRLF);
    } else {
      FindLate(buf, rest, CRLF);
    }
  }

  /** Opening a part and then reading its content is reading the part. */
  lemma ContentMeaning(b: string, ps: seq<Part>, f: File, t: string)
    ensures MoreContent(Delimiter(b), Next(b), ps + [Part(f, "")], t) == After(ps, ReadContent(b, f, t))
  {
    var pos := Find(t, Delimiter(b));
    if pos < |t| {
      var qs := ps + [Part(f, "")];
      assert qs[..|qs| - 1] == ps && "" + t[..pos] == t[..pos];
      assert Extend(qs, t[..pos]) == ps + [Part(f, t[..pos])];
      var o := ReadAfterDelimiter(b, t[pos + |Delimiter(b)|..]);
      if o.Some? {
        assert ps + ([Part(f, t[..pos])] + o.value.parts) == (ps + [Part(f, t[..pos])]) + o.value.parts;
      }
    }
  }

  lemma HeadersMeaning(b: string, accept: Receiver, st: State, rest: string)
    requires st.phase.Headers?
    ensures Keeps(b, accept, st, rest, StepHeaders(accept, st))
  {
    var ps := Parts(st.events);
    if Find(st.buf, CRLF) > HEADER_MAX_LENGTH {
      LongLine(b, st.file, st.buf, rest);
    } else {
      ScanHeadersMeaning(b, st.file, st.buf, rest);
      match ScanHeaders(st.file, st.buf)
      case Malformed =>
      case Partial(f, r) =>
      case Complete(f, r) =>
        HeadersEnd(b, ps, f, r, rest, ReadHeaderLines(b, st.file, st.buf + rest));
        PartsSnoc(st.events, Header(f));
    }
  }

  lemma HeadersEnd(b: string, ps: seq<Part>, f: File, r: string, rest: string, m: Option<Doc>)
    requires Agrees(m, ReadContent(b, f, r + rest))
    ensures Agrees(After(ps, m), MoreContent(Delimiter(b), Next(b), ps + [Part(f, "")], r + rest))
  {
    ContentMeaning(b, ps, f, r + rest);
  }

  lemma ExtendTwice(ps: seq<Part>, x: string, y: string)
    ensures Extend(Extend(ps, x), y) == Extend(ps, x + y)
  {
    if ps != [] {
      var last := ps[|ps| - 1];
      assert last.content + (x + y) == (last.content + x) + y;
    }
  }

  /** Without a match in buf, all but its last |d| bytes come before any match. */
  lemma EarlyBytes(buf: string, rest: string, d: string)
    requires 0 < |d| <= |buf| && Find(buf, d) == |buf|
    ensures var len := |buf| - |d|;
            var t, u := buf + rest, buf[len..] + rest;
            var pos := Find(t, d);
            len <= pos && Find(u, d) == pos - len && |u| == |t| - len &&
            t[..pos] == buf[..len] + u[..pos - len] &&
            (pos < |t| ==> pos + |d| <= |t| && t[pos + |d|..] == u[pos - len + |d|..])
  {
    var t := buf + rest;
    var len := |buf| - |d|;
    var pos := Find(t, d);
    FindLate(buf, rest, d);
    FindDrop(t, d, len);
    assert t[len..] == buf[len..] + rest;
    assert t[..len] == buf[..len];
    TakeAcross(t, len, pos);
    if pos < |t| {
      DropDrop(t, len, pos - len + |d|);
    }
  }

  /** Content handed on early is content the reader would have found there. */
  lemma EarlyContent(d: string, next: Reader, ps: seq<Part>, buf: string, rest: string)
    requires 0 < |d| <= |buf| && Find(buf, d) == |buf|
    ensures var len := |buf| - |d|;
            MoreContent(d, next, ps, buf + rest) == MoreContent(d, next, Extend(ps, buf[..len]), buf[len..] + rest)
  {
    var len := |buf| - |d|;
    EarlyBytes(buf, rest, d);
    var pos := Find(buf + rest, d);
    ExtendTwice(ps, buf[..len], (buf[len..] + rest)[..pos - len]);
  }

  lemma FoundContent(d: string, next: Reader, ps: seq<Part>, buf: string, rest: string)
    requires d != "" && Find(buf, d) < |buf|
    ensures var pos := Find(buf, d);
            MoreContent(d, next, ps, buf + rest) == After(Extend(ps, buf[..pos]), next(buf[pos + |d|..] + rest))
  {
    FindStable(buf, rest, d);
    var pos := Find(buf, d);
    assert (buf + rest)[..pos] == buf[..pos];
    assert (buf + rest)[pos + |d|..] == buf[pos + |d|..] + rest;
  }

  lemma BodyFound(d: string, next: Reader, accept: Receiver, st: State, rest: string)
    requires st.phase.Body? && d != "" && Find(st.buf, d) < |st.buf|
    ensures var o := StepBody(d, accept, st);
            if o.Running? then
              o.st.valid == st.valid && o.st.phase.Boundary? &&
              MoreContent(d, next, Parts(st.events), st.buf + rest) == After(Parts(o.st.events), next(o.st.buf + rest))
            else o.Rejected? && !accept(o.events)
  {
    var pos := Find(st.buf, d);
    var ps := Parts(st.events);
    FoundContent(d, next, ps, st.buf, rest);
    PartsSnoc(st.events, Content(st.buf[..pos]));
  }

  lemma BodyHeld(d: string, next: Reader, accept: Receiver, st: State, rest: string)
    requires st.phase.Body? && d != "" && Find(st.buf, d) == |st.buf|
    ensures var o := StepBody(d, accept, st);
            if o.Waiting? then
              o.st.valid == st.valid && o.st.phase.Body? &&
              MoreContent(d, next, Parts(st.events), st.buf + rest) ==
              MoreContent(d, next, Parts(o.st.events), o.st.buf + rest)
            else o.Rejected? && !accept(o.events)
  {
    if |d| < |st.buf| {
      var n := |st.buf| - |d|;
      var s := st.(buf := st.buf[n..], events := st.events + [Content(st.buf[..n])]);
      assert StepBody(d, accept, st) == if accept(s.events) then Waiting(s) else Rejected(s.events);
      HandedOn(d, next, st, rest, n);
    }
  }

  lemma HandedOn(d: string, next: Reader, st: State, rest: string, n: nat)
    requires 0 < |d| == |st.buf| - n && Find(st.buf, d) == |st.buf|
    ensures MoreContent(d, next, Parts(st.events), st.buf + rest) ==
            MoreContent(d, next, Parts(st.events + [Content(st.buf[..n])]), st.buf[n..] + rest)
  {
    EarlyContent(d, next, Parts(st.events), st.buf, rest);
    PartsSnoc(st.events, Content(st.buf[..n]));
  }

  lemma BodyMeaning(b: string, accept: Receiver, st: State, rest: string)
    requires st.phase.Body?
    ensures Keeps(b, accept, st, rest, StepBody(Delimiter(b), accept, st))
  {
    if Find(st.buf, Delimiter(b)) < |st.buf| {
      FoundKeeps(b, accept, st, rest);
    } else {
      HeldKeeps(b, accept, st, rest);
    }
  }

  lemma FoundKeeps(b: string, accept: Receiver, st: State, rest: string)
    requires st.phase.Body? && Find(st.buf, Delimiter(b)) < |st.buf|
    ensures Keeps(b, accept, st, rest, StepBody(Delimiter(b), accept, st))
  {
    BodyFound(Delimiter(b), Next(b), accept, st, rest);
    SameAgrees(Meaning(b, st, rest));
  }

  lemma HeldKeeps(b: string, accept: Receiver, st: State, rest: string)
    requires st.phase.Body? && Find(st.buf, Delimiter(b)) == |st.buf|
    ensures Keeps(b, accept, st, rest, StepBody(Delimiter(b), accept, st))
  {
    BodyHeld(Delimiter(b), Next(b), accept, st, rest);
    SameAgrees(Meaning(b, st, rest));
  }

  lemma SameAgrees(m: Option<Doc>)
    ensures Agrees(m, m)
  {
  }

  /** Every round of the loop but the closing one keeps what the whole text means. */
  lemma StepMeaning(b: string, accept: Receiver, st: State, rest: string)
    requires st.buf != "" && !Closing(st)
    requires st.phase.Opening? ==> Find(st.buf, OpeningLine(b)) < |st.buf|
    ensures Keeps(b, accept, st, rest, Step(b, accept, st))
  {
    match st.phase
    case Opening => OpeningMeaning(b, accept, st, rest);
    case Entry =>
    case Headers => HeadersMeaning(b, accept, st, rest);
    case Body => BodyMeaning(b, accept, st, rest);
    case Boundary =>
      assert |st.buf| >= 2 ==> (st.buf + rest)[2..] == st.buf[2..] + rest;
  }

  lemma ClosingMeaning(b: string, accept: Receiver, st: State, rest: string)
    requires Closing(st)
    ensures Step(b, accept, st) == Running(st.(valid := true, buf := ""))
    ensures Meaning(b, st, rest) == Some(Doc(Parts(st.events), (st.buf + rest)[2..], 0))
  {
    assert (st.buf + rest)[0] == '-' && "--" <= st.buf + rest;
    assert Parts(st.events) + [] == Parts(st.events);
  }

  // ----- whole calls, whole runs -----

  ghost predicate IsSuffix(s: string, t: string) { |s| <= |t| && t[|t| - |s|..] == s }

  /** What a call leaves behind, in terms of the meaning of the text it was called in. */
  ghost predicate CallKeeps(b: string, accept: Receiver, st: State, rest: string, o: Outcome) {
    var m := Meaning(b, st, rest);
    match o
    case Running(_) => false
    case Rejected(es) => Justified(accept, es, m)
    case Waiting(s) =>
      if s.valid then
        m.Some? && m.value.parts == Parts(s.events) && IsSuffix(rest, m.value.epilogue) &&
        s.phase.Boundary? && s.buf == ""
      else !s.phase.Opening? && Agrees(m, Meaning(b, s, rest)) && Meaning(b, s, "").None?
  }

  lemma {:induction false} DrainKeeps(b: string, accept: Receiver, st: State, rest: string)
    requires !st.valid
    requires st.phase.Opening? ==> Find(st.buf, OpeningLine(b)) < |st.buf|
    ensures CallKeeps(b, accept, st, rest, Drain(b, accept, st))
    decreases |st.buf|, if st.phase.Entry? then 1 else 0
  {
    if st.buf == "" {
      EmptyIsIncomplete(b, st);
    } else if Closing(st) {
      ClosingMeaning(b, accept, st, rest);
      assert (st.buf + rest)[2..] == st.buf[2..] + rest;
    } else {
      StepMeaning(b, accept, st, rest);
      var o := Step(b, accept, st);
      match o
      case Running(s) => DrainKeeps(b, accept, s, rest);
      case Waiting(s) => WaitingIsIncomplete(b, accept, st);
      case Rejected(_) =>
    }
  }

  lemma EmptyIsIncomplete(b: string, st: State)
    requires st.buf == ""
    ensures Meaning(b, st, "").None?
  {
    assert st.buf + "" == "";
  }

  /** The parser asks for more only when the bytes at hand do not finish the body. */
  lemma WaitingIsIncomplete(b: string, accept: Receiver, st: State)
    requires st.buf != "" && Step(b, accept, st).Waiting?
    requires st.phase.Opening? ==> Find(st.buf, OpeningLine(b)) < |st.buf|
    ensures Meaning(b, Step(b, accept, st).st, "").None?
  {
    var s := Step(b, accept, st).st;
    assert s.buf + "" == s.buf;
    match st.phase
    case Opening =>
    case Entry =>
    case Headers =>
    case Body => HeldIsIncomplete(Delimiter(b), accept, st);
    case Boundary =>
  }

  lemma HeldIsIncomplete(d: string, accept: Receiver, st: State)
    requires d != "" && st.phase.Body? && StepBody(d, accept, st).Waiting?
    ensures Find(StepBody(d, accept, st).st.buf, d) == |StepBody(d, accept, st).st.buf|
  {
    if |d| <= |st.buf| && Find(st.buf, d) == |st.buf| {
      FindDrop(st.buf, d, |st.buf| - |d|);
    }
  }

  // ----- after the closing delimiter -----

  /** Every line below the limit; an unfinished last one may reach it. */
  predicate ShortLines(v: string)
    decreases |v|
  {
    var pos := Find(v, CRLF);
    if pos == |v| then |v| <= HEADER_MAX_LENGTH else pos < HEADER_MAX_LENGTH && ShortLines(v[pos + 2..])
  }

  /** However v arrives, the header state takes it without complaint and without coming to an end. */
  ghost predicate Endless(file: File, v: string) { ScanHeaders(file, v).Partial? && ShortLines(v) }

  /** What may follow the closing delimiter: no line end in it may be followed by a header section or a bad line. */
  ghost predicate Tolerated(epilogue: string) {
    forall i :: OccursAt(epilogue, CRLF, i) ==> Endless(NO_FILE, epilogue[i + 2..])
  }

  lemma ToleratedSuffix(e: string, n: nat)
    requires n <= |e| && Tolerated(e)
    ensures Tolerated(e[n..])
  {
    forall i | OccursAt(e[n..], CRLF, i)
      ensures Endless(NO_FILE, e[n..][i + 2..])
    {
      OccursInSuffix(e, CRLF, n, i);
      DropDrop(e, n, i + 2);
    }
  }

  lemma ToleratedLineEnd()
    ensures Tolerated(CRLF)
  {
    assert CRLF[2..] == "";
    assert Endless(NO_FILE, "");
  }

  /** A beginning of a text without a match is at most one character into it. */
  lemma FirstLineFits(x: string, y: string)
    requires ShortLines(x + y)
    ensures Find(x, CRLF) <= HEADER_MAX_LENGTH
  {
    if Find(x, CRLF) == |x| {
      FindLate(x, y, CRLF);
    } else {
      FindStable(x, y, CRLF);
    }
  }

  lemma {:induction false} ScanBeginning(file: File, x: string, y: string)
    requires Endless(file, x + y)
    ensures Find(x, CRLF) <= HEADER_MAX_LENGTH
    ensures var r := ScanHeaders(file, x); r.Partial? && Endless(r.file, r.rest + y)
    decreases |x|
  {
    FirstLineFits(x, y);
    var pos := Find(x, CRLF);
    if pos < |x| {
      FindStable(x, y, CRLF);
      LineOfBoth(x, y, pos);
      ScanBeginning(HeaderLine(file, x[..pos]).value, x[pos + 2..], y);
    }
  }

  lemma LineOfBoth(x: string, y: string, pos: nat)
    requires pos + 2 <= |x|
    ensures (x + y)[..pos] == x[..pos] && (x + y)[pos + 2..] == x[pos + 2..] + y
  {
  }

  /** Valid, and the bytes left cannot start another part. */
  ghost predicate Resting(st: State, rest: string) {
    var t := st.buf + rest;
    st.valid &&
    match st.phase
    case Boundary => Tolerated(t)
    case Entry => Endless(NO_FILE, t)
    case Headers => Endless(st.file, t)
    case _ => false
  }

  lemma RestingBoundary(st: State, rest: string)
    requires st.phase.Boundary? && Resting(st, rest)
    ensures var o := StepBoundary(st); !o.Rejected? && Resting(o.st, rest) && o.st.events == st.events
  {
    var t := st.buf + rest;
    if |st.buf| >= 2 && CRLF <= st.buf {
      PrefixOccurs(t, CRLF);
      assert t[2..] == st.buf[2..] + rest;
    } else if |st.buf| >= 2 && "--" <= st.buf {
      ToleratedSuffix(t, |st.buf|);
      assert t[|st.buf|..] == rest == "" + rest;
    }
  }

  lemma {:induction false} RestingDrain(b: string, accept: Receiver, st: State, rest: string)
    requires Resting(st, rest)
    ensures var o := Drain(b, accept, st); o.Waiting? && Resting(o.st, rest) && o.st.events == st.events
    decreases |st.buf|, if st.phase.Entry? then 1 else 0
  {
    if st.buf != "" {
      if st.phase.Boundary? {
        RestingBoundary(st, rest);
      } else if st.phase.Headers? {
        ScanBeginning(st.file, st.buf, rest);
      }
      var o := Step(b, accept, st);
      if o.Running? {
        RestingDrain(b, accept, o.st, rest);
      }
    }
  }

  lemma {:induction false} RestingRun(b: string, accept: Receiver, st: State, pieces: seq<string>)
    requires Resting(st, Concat(pieces))
    ensures var o := FeedAll(b, accept, st, pieces); o.Waiting? && Resting(o.st, "") && o.st.events == st.events
    decreases |pieces|
  {
    if pieces != [] {
      var st' := st.(buf := st.buf + pieces[0]);
      var rest := Concat(pieces[1..]);
      assert st'.buf + rest == st.buf + Concat(pieces);
      RestingDrain(b, accept, st', rest);
      RestingRun(b, accept, Drain(b, accept, st').st, pieces[1..]);
    }
  }

  // ----- every cut -----

  ghost predicate AcceptsAll(accept: Receiver) { forall es: seq<Event> :: accept(es) }

  /** The parser ended valid and reported these parts, each of them to its end. */
  ghost predicate Delivers(o: Outcome, parts: seq<Part>) {
    o.Waiting? && o.st.valid && !o.st.phase.Body? && Parts(o.st.events) == parts
  }

  /** From any state reached before the end, the pieces still to come deliver the parts still missing. */
  lemma {:induction false} RunDelivers(b: string, accept: Receiver, st: State, pieces: seq<string>, doc: Doc)
    requires AcceptsAll(accept) && doc.longest < HEADER_MAX_LENGTH && Tolerated(doc.epilogue)
    requires !st.valid && Meaning(b, st, "").None?
    requires !st.phase.Opening? || (pieces != [] &&
               Find(st.buf + pieces[0], OpeningLine(b)) < |st.buf + pieces[0]|)
    requires Agrees(Some(doc), Meaning(b, st, Concat(pieces)))
    ensures Delivers(FeedAll(b, accept, st, pieces), doc.parts)
    decreases |pieces|
  {
    if pieces != [] {
      var st' := st.(buf := st.buf + pieces[0]);
      var rest := Concat(pieces[1..]);
      assert st'.buf + rest == st.buf + Concat(pieces);
      assert Meaning(b, st', rest) == Meaning(b, st, Concat(pieces));
      DrainKeeps(b, accept, st', rest);
      var o := Drain(b, accept, st');
      if o.Waiting? && o.st.valid {
        EpilogueRests(o.st, doc.epilogue, rest);
        RestingRun(b, accept, o.st, pieces[1..]);
      } else if o.Waiting? {
        RunDelivers(b, accept, o.st, pieces[1..], doc);
      }
    }
  }

  lemma EpilogueRests(st: State, epilogue: string, rest: string)
    requires st.valid && st.phase.Boundary? && st.buf == "" && Tolerated(epilogue) && IsSuffix(rest, epilogue)
    ensures Resting(st, rest)
  {
    ToleratedSuffix(epilogue, |epilogue| - |rest|);
    assert st.buf + rest == rest;
  }

  /** A piece without a whole opening line is thrown away at the start: the parser is as if it had not come. */
  lemma OpeningMustBeWhole(b: string, accept: Receiver, piece: string)
    requires Find(piece, OpeningLine(b)) == |piece|
    ensures Feed(b, accept, INITIAL, piece) == Waiting(INITIAL)
  {
    assert INITIAL.buf + piece == piece;
    assert piece[|piece|..] == "";
  }

  /** The first k pieces hold no opening line. */
  ghost predicate NoOpening(b: string, pieces: seq<string>, k: nat) {
    k <= |pieces| && forall i :: 0 <= i < k ==> Find(pieces[i], OpeningLine(b)) == |pieces[i]|
  }

  /** So all pieces before the first one with a whole opening line are lost. */
  lemma {:induction false} PiecesSkipped(b: string, accept: Receiver, pieces: seq<string>, k: nat)
    requires NoOpening(b, pieces, k)
    ensures FeedAll(b, accept, INITIAL, pieces) == FeedAll(b, accept, INITIAL, pieces[k..])
    decreases k
  {
    if k == 0 {
      assert pieces[0..] == pieces;
    } else {
      OpeningMustBeWhole(b, accept, pieces[0]);
      PiecesSkipped(b, accept, pieces[1..], k - 1);
      assert pieces[1..][k - 1..] == pieces[k..];
    }
  }

  /** Piece k is the first one that holds a whole opening line. */
  ghost predicate OpensAt(b: string, pieces: seq<string>, k: nat) {
    NoOpening(b, pieces, k) && k < |pieces| && Find(pieces[k], OpeningLine(b)) < |pieces[k]|
  }

  /**
    Cut independence: under every cut, if piece k is the first with a whole opening line
    and what the pieces from there on hold is a complete body with header lines below the
    limit and a tolerable epilogue, the callbacks see exactly the parts that the reference
    reader finds there, and the parser ends valid.
   */
  lemma EveryCutDelivers(b: string, accept: Receiver, pieces: seq<string>, k: nat)
    requires AcceptsAll(accept) && OpensAt(b, pieces, k)
    requires ReadBody(b, Concat(pieces[k..])).Some?
    requires ReadBody(b, Concat(pieces[k..])).value.longest < HEADER_MAX_LENGTH
    requires Tolerated(ReadBody(b, Concat(pieces[k..])).value.epilogue)
    ensures Delivers(FeedAll(b, accept, INITIAL, pieces), ReadBody(b, Concat(pieces[k..])).value.parts)
  {
    PiecesSkipped(b, accept, pieces, k);
    var ps := pieces[k..];
    EmptyIsIncomplete(b, INITIAL);
    var doc := ReadBody(b, Concat(ps)).value;
    assert INITIAL.buf + Concat(ps) == Concat(ps) && "" + ps[0] == ps[0];
    assert [] + doc.parts == doc.parts;
    RunDelivers(b, accept, INITIAL, ps, doc);
  }

  /**
    Nothing but a body is accepted: when a call first makes the parser valid, the text
    received so far, followed by anything, is a body whose parts are those reported.
    The callbacks may answer as they like, and header lines may be of any length.
   */
  lemma {:induction false} ValidOnlyOnBodies(b: string, accept: Receiver, st: State, pieces: seq<string>,
                                             last: string, rest: string)
    requires !st.valid
    requires !st.phase.Opening? || (pieces != [] &&
               Find(st.buf + pieces[0], OpeningLine(b)) < |st.buf + pieces[0]|)
    requires var o := FeedAll(b, accept, st, pieces);
             o.Waiting? && !o.st.valid && Feed(b, accept, o.st, last).Waiting? && Feed(b, accept, o.st, last).st.valid
    ensures var m := Meaning(b, st, Concat(pieces) + last + rest);
            m.Some? && m.value.parts == Parts(Feed(b, accept, FeedAll(b, accept, st, pieces).st, last).st.events)
    decreases |pieces|
  {
    Regrouped(st.buf, pieces, last, rest);
    if pieces == [] {
      DrainKeeps(b, accept, st.(buf := st.buf + last), rest);
    } else {
      var st' := st.(buf := st.buf + pieces[0]);
      var more := Concat(pieces[1..]) + last + rest;
      DrainKeeps(b, accept, st', more);
      var o := Drain(b, accept, st');
      assert o.Waiting?;
      if o.st.valid {
        ValidStays(b, accept, o.st, pieces[1..]);
      } else {
        ValidOnlyOnBodies(b, accept, o.st, pieces[1..], last, rest);
      }
    }
  }

  lemma Regrouped(buf: string, pieces: seq<string>, last: string, rest: string)
    ensures pieces == [] ==> (buf + last) + rest == buf + (Concat(pieces) + last + rest)
    ensures pieces != [] ==>
              (buf + pieces[0]) + (Concat(pieces[1..]) + last + rest) == buf + (Concat(pieces) + last + rest)
  {
    if pieces == [] {
      AssocFour(buf, "", last, rest);
      assert buf + "" == buf && "" + last == last;
    } else {
      assert Concat(pieces) == pieces[0] + Concat(pieces[1..]);
      RegroupTwo(buf, pieces[0], Concat(pieces[1..]), last, rest);
    }
  }

  lemma RegroupTwo(a: string, b: string, c: string, d: string, e: string)
    ensures (a + b) + ((c + d) + e) == a + (((b + c) + d) + e)
  {
  }

  lemma {:induction false} ValidStaysInCall(b: string, accept: Receiver, st: State)
    requires st.valid
    ensures var o := Drain(b, accept, st); o.Waiting? ==> o.st.valid
    decreases |st.buf|, if st.phase.Entry? then 1 else 0
  {
    if st.buf != "" && Step(b, accept, st).Running? {
      ValidStaysInCall(b, accept, Step(b, accept, st).st);
    }
  }

  lemma {:induction false} ValidStays(b: string, accept: Receiver, st: State, pieces: seq<string>)
    requires st.valid
    ensures var o := FeedAll(b, accept, st, pieces); o.Waiting? ==> o.st.valid
    decreases |pieces|
  {
    if pieces != [] {
      ValidStaysInCall(b, accept, st.(buf := st.buf + pieces[0]));
      var o := Feed(b, accept, st, pieces[0]);
      if o.Waiting? {
        ValidStays(b, accept, o.st, pieces[1..]);
      }
    }
  }
}
