/**
  What the callbacks can rely on while a body is still arriving: no byte of content
  is lost, repeated or handed on too early, and a finished part never changes.
 */
module MultipartBody {
  import opened Text
  import opened MultipartSpec
  import opened MultipartParser
  import opened MultipartRoundTrip

  ghost function EventsOf(o: Outcome): seq<Event> {
    if o.Rejected? then o.events else o.st.events
  }

  /** The parts whose delimiter has been seen; in the content of a part that one is still open. */
  ghost function SealedOf(events: seq<Event>, body: bool): seq<Part> {
    var ps := Parts(events);
    if body && ps != [] then ps[..|ps| - 1] else ps
  }

  ghost function Sealed(st: State): seq<Part> { SealedOf(st.events, st.phase.Body?) }

  lemma HeaderSeals(es: seq<Event>, f: File, body: bool)
    ensures SealedOf(es, false) <= Parts(es + [Header(f)]) && SealedOf(es, false) <= SealedOf(es + [Header(f)], body)
  {
    PartsSnoc(es, Header(f));
  }

  lemma ContentSeals(es: seq<Event>, c: string, body: bool)
    ensures SealedOf(es, true) <= Parts(es + [Content(c)]) && SealedOf(es, true) <= SealedOf(es + [Content(c)], body)
  {
    PartsSnoc(es, Content(c));
    if Parts(es) != [] { ExtendInit(Parts(es), c); }
  }

  /** Header reports come out of the header state, content out of the body state, nothing else is reported. */
  lemma StepEvents(b: string, accept: Receiver, st: State)
    requires st.buf != ""
    ensures var o := Step(b, accept, st);
            || (EventsOf(o) == st.events && (o.Rejected? || o.st.phase.Body? ==> st.phase.Body? || o.Rejected?))
            || (st.phase.Headers? && exists f :: EventsOf(o) == st.events + [Header(f)])
            || (st.phase.Body? && exists c :: EventsOf(o) == st.events + [Content(c)])
  {
    match st.phase
    case Opening =>
    case Entry =>
    case Headers =>
    case Body => var o := StepBody(Delimiter(b), accept, st);
    case Boundary =>
  }

  lemma StepSeals(b: string, accept: Receiver, st: State)
    requires st.buf != ""
    ensures var o := Step(b, accept, st);
            Sealed(st) <= Parts(EventsOf(o)) && (!o.Rejected? ==> Sealed(st) <= Sealed(o.st))
  {
    StepEvents(b, accept, st);
    var o := Step(b, accept, st);
    var es := EventsOf(o);
    if es != st.events {
      var body := !o.Rejected? && o.st.phase.Body?;
      if st.phase.Headers? {
        var f :| es == st.events + [Header(f)];
        HeaderSeals(st.events, f, body);
      } else {
        var c :| es == st.events + [Content(c)];
        ContentSeals(st.events, c, body);
      }
    }
  }

  lemma ExtendInit(ps: seq<Part>, c: string)
    requires ps != []
    ensures |Extend(ps, c)| == |ps| && Extend(ps, c)[..|ps| - 1] == ps[..|ps| - 1]
  {
  }

  lemma {:induction false} DrainSeals(b: string, accept: Receiver, st: State)
    ensures var o := Drain(b, accept, st);
            Sealed(st) <= Parts(EventsOf(o)) && (!o.Rejected? ==> Sealed(st) <= Sealed(o.st))
    decreases |st.buf|, if st.phase.Entry? then 1 else 0
  {
    if st.buf != "" {
      StepSeals(b, accept, st);
      var o := Step(b, accept, st);
      if o.Running? {
        DrainSeals(b, accept, o.st);
      }
    }
  }

  /** Over every run, whatever arrives and whatever the callbacks answer, a finished part stays as reported. */
  lemma {:induction false} FinishedPartsStay(b: string, accept: Receiver, st: State, pieces: seq<string>)
    ensures Sealed(st) <= Parts(EventsOf(FeedAll(b, accept, st, pieces)))
    decreases |pieces|
  {
    if pieces != [] {
      var st' := st.(buf := st.buf + pieces[0]);
      assert Sealed(st') == Sealed(st);
      DrainSeals(b, accept, st');
      var o := Drain(b, accept, st');
      if o.Waiting? {
        FinishedPartsStay(b, accept, o.st, pieces[1..]);
      }
    }
  }

  lemma StepGrows(b: string, accept: Receiver, st: State)
    requires st.buf != ""
    ensures |Parts(st.events)| <= |Parts(EventsOf(Step(b, accept, st)))|
  {
    StepEvents(b, accept, st);
    var es := EventsOf(Step(b, accept, st));
    if es != st.events {
      if st.phase.Headers? {
        var f :| es == st.events + [Header(f)];
        PartsSnoc(st.events, Header(f));
      } else {
        var c :| es == st.events + [Content(c)];
        PartsSnoc(st.events, Content(c));
      }
    }
  }

  lemma {:induction false} DrainGrows(b: string, accept: Receiver, st: State)
    ensures |Parts(st.events)| <= |Parts(EventsOf(Drain(b, accept, st)))|
    decreases |st.buf|, if st.phase.Entry? then 1 else 0
  {
    if st.buf != "" {
      StepGrows(b, accept, st);
      var o := Step(b, accept, st);
      if o.Running? {
        DrainGrows(b, accept, o.st);
      }
    }
  }

  /** A part once reported is never taken back. */
  lemma {:induction false} PartsGrow(b: string, accept: Receiver, st: State, pieces: seq<string>)
    ensures |Parts(st.events)| <= |Parts(EventsOf(FeedAll(b, accept, st, pieces)))|
    decreases |pieces|
  {
    if pieces != [] {
      DrainGrows(b, accept, st.(buf := st.buf + pieces[0]));
      var o := Feed(b, accept, st, pieces[0]);
      if o.Waiting? {
        PartsGrow(b, accept, o.st, pieces[1..]);
      }
    }
  }

  // ----- content conservation -----

  /** All of t has been received; all but the last bytes have been handed on. */
  ghost predicate HeldBack(d: string, ps: seq<Part>, t: string, s: State) {
    s.phase.Body? && |s.buf| == Min(|d|, |t|) && s.buf == t[|t| - |s.buf|..] &&
    Parts(s.events) == Extend(ps, t[..|t| - |s.buf|])
  }

  lemma ExtendNothing(ps: seq<Part>)
    ensures Extend(ps, "") == ps
  {
    if ps != [] {
      assert ps[|ps| - 1].content + "" == ps[|ps| - 1].content;
      assert ps[..|ps| - 1] + [ps[|ps| - 1]] == ps;
    }
  }

  lemma HoldStep(d: string, accept: Receiver, st: State)
    requires d != "" && AcceptsAll(accept) && st.phase.Body? && Find(st.buf, d) == |st.buf|
    ensures var o := StepBody(d, accept, st);
            o.Waiting? && o.st.valid == st.valid && HeldBack(d, Parts(st.events), st.buf, o.st)
  {
    if |d| < |st.buf| {
      PartsSnoc(st.events, Content(st.buf[..|st.buf| - |d|]));
    } else {
      ExtendNothing(Parts(st.events));
      assert st.buf[0..] == st.buf && st.buf[..0] == "";
    }
  }

  lemma HoldCall(b: string, accept: Receiver, st: State)
    requires AcceptsAll(accept) && st.phase.Body? && Find(st.buf, Delimiter(b)) == |st.buf|
    ensures var o := Drain(b, accept, st);
            o.Waiting? && o.st.valid == st.valid && HeldBack(Delimiter(b), Parts(st.events), st.buf, o.st)
  {
    HoldStep(Delimiter(b), accept, st);
    if st.buf == "" {
      ExtendNothing(Parts(st.events));
    }
  }

  lemma HeldBackChain(d: string, ps: seq<Part>, t: string, u: string, s: State, s': State)
    requires d != "" && HeldBack(d, ps, t, s) && HeldBack(d, Parts(s.events), s.buf + u, s')
    ensures HeldBack(d, ps, t + u, s')
  {
    var n := |t| - |s.buf|;
    var x := s.buf + u;
    var m := |x| - |s'.buf|;
    ExtendTwice(ps, t[..n], x[..m]);
    ChainSlices(t, u, n, x, m);
  }

  lemma ChainSlices(t: string, u: string, n: nat, x: string, m: nat)
    requires n <= |t| && x == t[n..] + u && m <= |x|
    ensures (t + u)[..n + m] == t[..n] + x[..m] && (t + u)[n + m..] == x[m..]
  {
    assert t + u == t[..n] + x;
  }

  /**
    While no delimiter has arrived, under every cut: the bytes handed on followed by
    the bytes held back are the bytes received, and exactly the last ones that could
    begin a delimiter are held.
   */
  lemma {:induction false} ContentConserved(b: string, accept: Receiver, st: State, pieces: seq<string>)
    requires AcceptsAll(accept) && st.phase.Body? && |st.buf| <= |Delimiter(b)|
    requires Find(st.buf + Concat(pieces), Delimiter(b)) == |st.buf + Concat(pieces)|
    ensures var o := FeedAll(b, accept, st, pieces);
            o.Waiting? && o.st.valid == st.valid &&
            HeldBack(Delimiter(b), Parts(st.events), st.buf + Concat(pieces), o.st)
    decreases |pieces|
  {
    var d := Delimiter(b);
    if pieces == [] {
      assert st.buf + Concat(pieces) == st.buf;
      ExtendNothing(Parts(st.events));
      assert st.buf[0..] == st.buf && st.buf[..0] == "";
    } else {
      var x, rest := st.buf + pieces[0], Concat(pieces[1..]);
      assert st.buf + Concat(pieces) == x + rest;
      NoneInPrefix(x, rest, d);
      HoldCall(b, accept, st.(buf := x));
      var s := Drain(b, accept, st.(buf := x)).st;
      StillNone(x, rest, s.buf, d);
      ContentConserved(b, accept, s, pieces[1..]);
      HeldBackChain(d, Parts(st.events), x, rest, s, FeedAll(b, accept, s, pieces[1..]).st);
    }
  }

  lemma StillNone(x: string, rest: string, held: string, d: string)
    requires d != "" && |held| <= |x| && held == x[|x| - |held|..] && Find(x + rest, d) == |x + rest|
    ensures Find(held + rest, d) == |held + rest|
  {
    assert held + rest == (x + rest)[|x| - |held|..];
    FindDrop(x + rest, d, |x| - |held|);
  }

  lemma NoneInPrefix(a: string, b: string, p: string)
    requires p != "" && Find(a + b, p) == |a + b|
    ensures Find(a, p) == |a|
  {
    if Find(a, p) < |a| {
      FindStable(a, b, p);
    }
  }

  lemma DelimitedCall(b: string, accept: Receiver, st: State)
    requires AcceptsAll(accept) && st.phase.Body? && Parts(st.events) != []
    requires Find(st.buf, Delimiter(b)) < |st.buf|
    ensures var o := Drain(b, accept, st);
            var done := Extend(Parts(st.events), st.buf[..Find(st.buf, Delimiter(b))]);
            done <= Parts(EventsOf(o)) && (!o.Rejected? ==> done <= Sealed(o.st))
  {
    var c := st.buf[..Find(st.buf, Delimiter(b))];
    PartsSnoc(st.events, Content(c));
    DrainStep(b, accept, st);
    DrainSeals(b, accept, Step(b, accept, st).st);
  }

  /** In the content of a part, no delimiter seen yet, one coming before t is over. */
  ghost predicate Ready(b: string, s: State, t: string) {
    s.phase.Body? && Parts(s.events) != [] && |s.buf| <= |Delimiter(b)| &&
    Find(s.buf, Delimiter(b)) == |s.buf| && Find(s.buf + t, Delimiter(b)) < |s.buf + t|
  }

  /** The parts reported so far, the last one completed by the bytes before the delimiter. */
  ghost function Due(b: string, s: State, t: string): seq<Part> {
    Extend(Parts(s.events), (s.buf + t)[..Find(s.buf + t, Delimiter(b))])
  }

  /** One call either completes the part or leaves the same due. */
  lemma OneCall(b: string, accept: Receiver, st: State, pieces: seq<string>) returns (s: State)
    requires AcceptsAll(accept) && pieces != [] && Ready(b, st, Concat(pieces))
    ensures Due(b, st, Concat(pieces)) <= Parts(EventsOf(FeedAll(b, accept, st, pieces))) ||
            (Ready(b, s, Concat(pieces[1..])) && Due(b, s, Concat(pieces[1..])) == Due(b, st, Concat(pieces)) &&
             FeedAll(b, accept, st, pieces) == FeedAll(b, accept, s, pieces[1..]))
  {
    var x := st.buf + pieces[0];
    if Find(x, Delimiter(b)) < |x| {
      CallCompletes(b, accept, st, pieces);
      s := st;
    } else {
      s := CallHolds(b, accept, st, pieces);
    }
  }

  lemma CallCompletes(b: string, accept: Receiver, st: State, pieces: seq<string>)
    requires AcceptsAll(accept) && pieces != [] && st.phase.Body? && Parts(st.events) != []
    requires Find(st.buf + pieces[0], Delimiter(b)) < |st.buf + pieces[0]|
    ensures Due(b, st, Concat(pieces)) <= Parts(EventsOf(FeedAll(b, accept, st, pieces)))
  {
    FeedIsLater(b, accept, st, pieces);
    DelimiterArrives(b, accept, st.(buf := st.buf + pieces[0]), pieces[1..]);
    DueHere(b, st, pieces);
  }

  lemma CallHolds(b: string, accept: Receiver, st: State, pieces: seq<string>) returns (s: State)
    requires AcceptsAll(accept) && pieces != [] && Ready(b, st, Concat(pieces))
    requires Find(st.buf + pieces[0], Delimiter(b)) == |st.buf + pieces[0]|
    ensures Ready(b, s, Concat(pieces[1..])) && Due(b, s, Concat(pieces[1..])) == Due(b, st, Concat(pieces))
    ensures FeedAll(b, accept, st, pieces) == FeedAll(b, accept, s, pieces[1..])
  {
    var x, rest := st.buf + pieces[0], Concat(pieces[1..]);
    Gathered(st.buf, pieces);
    FeedIsLater(b, accept, st, pieces);
    s := DelimiterToCome(b, accept, st.(buf := x), rest);
    DueStays(b, st, s, x, rest);
    DueHere(b, st, pieces);
  }

  lemma DueHere(b: string, st: State, pieces: seq<string>)
    requires pieces != []
    ensures Due(b, st.(buf := st.buf + pieces[0]), Concat(pieces[1..])) == Due(b, st, Concat(pieces))
  {
    Gathered(st.buf, pieces);
  }

  lemma Gathered(buf: string, pieces: seq<string>)
    requires pieces != []
    ensures buf + Concat(pieces) == (buf + pieces[0]) + Concat(pieces[1..])
  {
  }

  lemma DueStays(b: string, st: State, s: State, x: string, rest: string)
    requires Find(x, Delimiter(b)) == |x| && Find(x + rest, Delimiter(b)) < |x + rest|
    requires HeldBack(Delimiter(b), Parts(st.events), x, s)
    ensures Due(b, s, rest) == Due(b, st.(buf := x), rest)
  {
    HeldJoins(Parts(st.events), Delimiter(b), x, rest, s.buf);
  }

  /**
    Once the delimiter has arrived, under every cut and whatever comes after it, the
    part holds exactly the bytes before its first occurrence.
   */
  lemma {:induction false} ContentEndsAtDelimiter(b: string, accept: Receiver, st: State, pieces: seq<string>)
    requires AcceptsAll(accept) && Ready(b, st, Concat(pieces))
    ensures Due(b, st, Concat(pieces)) <= Parts(EventsOf(FeedAll(b, accept, st, pieces)))
    decreases |pieces|
  {
    assert pieces == [] ==> st.buf + Concat(pieces) == st.buf;
    var s := OneCall(b, accept, st, pieces);
    if !(Due(b, st, Concat(pieces)) <= Parts(EventsOf(FeedAll(b, accept, st, pieces)))) {
      ContentEndsAtDelimiter(b, accept, s, pieces[1..]);
    }
  }

  lemma FeedIsLater(b: string, accept: Receiver, st: State, pieces: seq<string>)
    requires pieces != []
    ensures FeedAll(b, accept, st, pieces) == Later(b, accept, st.(buf := st.buf + pieces[0]), pieces[1..])
  {
  }

  /** A call that finds no delimiter leaves the parser ready for it. */
  lemma DelimiterToCome(b: string, accept: Receiver, st: State, rest: string) returns (s: State)
    requires AcceptsAll(accept) && st.phase.Body? && Parts(st.events) != [] && Find(st.buf, Delimiter(b)) == |st.buf|
    requires Find(st.buf + rest, Delimiter(b)) < |st.buf + rest|
    ensures Drain(b, accept, st) == Waiting(s) && HeldBack(Delimiter(b), Parts(st.events), st.buf, s)
    ensures Ready(b, s, rest)
  {
    HoldCall(b, accept, st);
    s := Drain(b, accept, st).st;
    HeldReady(b, Parts(st.events), st.buf, rest, s);
  }

  lemma HeldReady(b: string, ps: seq<Part>, x: string, rest: string, s: State)
    requires ps != [] && Find(x, Delimiter(b)) == |x| && Find(x + rest, Delimiter(b)) < |x + rest|
    requires HeldBack(Delimiter(b), ps, x, s)
    ensures Ready(b, s, rest)
  {
    HeldSplit(Delimiter(b), x, rest, s.buf);
    ExtendInit(ps, x[..|x| - |s.buf|]);
  }

  lemma HeldJoins(ps: seq<Part>, d: string, x: string, rest: string, held: string)
    requires d != "" && Find(x, d) == |x| && |held| == Min(|d|, |x|) && held == x[|x| - |held|..]
    requires Find(x + rest, d) < |x + rest|
    ensures Extend(Extend(ps, x[..|x| - |held|]), (held + rest)[..Find(held + rest, d)]) ==
            Extend(ps, (x + rest)[..Find(x + rest, d)])
  {
    HeldSplit(d, x, rest, held);
    ExtendTwice(ps, x[..|x| - |held|], (held + rest)[..Find(held + rest, d)]);
  }

  /** What is left of the pieces after the call that took st. */
  ghost function Later(b: string, accept: Receiver, st: State, pieces: seq<string>): Outcome {
    var o := Drain(b, accept, st);
    if o.Waiting? then FeedAll(b, accept, o.st, pieces) else o
  }

  lemma DelimiterArrives(b: string, accept: Receiver, st: State, pieces: seq<string>)
    requires AcceptsAll(accept) && st.phase.Body? && Parts(st.events) != [] && Find(st.buf, Delimiter(b)) < |st.buf|
    ensures Due(b, st, Concat(pieces)) <= Parts(EventsOf(Later(b, accept, st, pieces)))
  {
    var d, x, rest := Delimiter(b), st.buf, Concat(pieces);
    FindStable(x, rest, d);
    assert (x + rest)[..Find(x, d)] == x[..Find(x, d)];
    DelimitedCall(b, accept, st);
    var o := Drain(b, accept, st);
    if o.Waiting? {
      FinishedPartsStay(b, accept, o.st, pieces);
    }
  }

  lemma HeldSplit(d: string, x: string, rest: string, held: string)
    requires d != "" && Find(x, d) == |x| && |held| == Min(|d|, |x|) && held == x[|x| - |held|..]
    requires Find(x + rest, d) < |x + rest|
    ensures var n, pos := |x| - |held|, Find(x + rest, d);
            n <= pos && Find(held + rest, d) == pos - n < |held + rest| && Find(held, d) == |held| &&
            (x + rest)[..pos] == x[..n] + (held + rest)[..pos - n]
  {
    var n, pos := |x| - |held|, Find(x + rest, d);
    FindLate(x, rest, d);
    FindDrop(x + rest, d, n);
    FindDrop(x, d, n);
    assert (x + rest)[n..] == held + rest;
  }
}
