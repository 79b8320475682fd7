/**
  What becomes of a written body whose opening line does not arrive in one piece.  The
  parser then starts at some later opening line, if there is one, and is behind from then
  on: whatever the cut, it never reports the parts that were written.
 */
module MultipartOpening {
  import opened Text
  import opened MultipartSpec
  import opened MultipartParser
  import opened MultipartRoundTrip
  import opened MultipartBody

  /** A boundary is part of a header field, so there is no line end in it. */
  predicate PlainBoundary(b: string) { '\r' !in b && '\n' !in b }

  function Dash(b: string): string { "--" + b }

  // ----- where delimiters and opening lines can stand in a written body -----

  /** No delimiter starts in a line, nor at its end when the next line does not start with a hyphen. */
  lemma DelimiterLater(b: string, line: string, y: string, q: nat)
    requires Find(line, CRLF) == |line| && (y == "" || y[0] != '-') && OccursAt(line + CRLF + y, Delimiter(b), q)
    ensures q >= |line| + 2 && OccursAt(y, Delimiter(b), q - |line| - 2)
  {
    var t, d := line + CRLF + y, Delimiter(b);
    FindLineEnd(line, y);
    assert t[q..q + 2] == CRLF by {
      assert t[q..q + |d|][..2] == CRLF;
    }
    assert OccursAt(t, CRLF, q);
    OccursChar(t, d, q, 0);
    OccursChar(t, d, q, 2);
    assert q != |line| + 1 && q != |line|;
    assert t[|line| + 2..] == y;
    OccursInSuffix(t, d, |line| + 2, q - |line| - 2);
  }

  /** An opening line ends where a line ends, or stands in what follows. */
  lemma OpeningLater(b: string, line: string, y: string, o: nat)
    requires PlainBoundary(b) && Find(line, CRLF) == |line| && OccursAt(line + CRLF + y, OpeningLine(b), o)
    ensures o + |Dash(b)| == |line| || (o >= |line| + 2 && OccursAt(y, OpeningLine(b), o - |line| - 2))
  {
    var t, p := line + CRLF + y, OpeningLine(b);
    var e := o + |Dash(b)|;
    FindLineEnd(line, y);
    assert p[|Dash(b)|..] == CRLF;
    assert t[e..e + 2] == CRLF by {
      SubSlice(t, o, o + |p|, |Dash(b)|, |p|);
    }
    assert OccursAt(t, CRLF, e);
    if e != |line| {
      DashPlain(b);
      if o <= |line| {
        OccursChar(t, p, o, |line| - o);
        assert false;
      }
      OccursChar(t, p, o, 0);
      assert o != |line| + 1;
      assert t[|line| + 2..] == y;
      OccursInSuffix(t, p, |line| + 2, o - |line| - 2);
    }
  }

  lemma DashPlain(b: string)
    requires PlainBoundary(b)
    ensures forall k :: 0 <= k < |Dash(b)| ==> OpeningLine(b)[k] != '\r'
    ensures Find(Dash(b), CRLF) == |Dash(b)|
  {
    forall k | 0 <= k < |Dash(b)|
      ensures OpeningLine(b)[k] != '\r'
    {
      assert k >= 2 ==> OpeningLine(b)[k] == b[k - 2];
    }
    assert '\r' !in Dash(b);
    NoLineEnd(Dash(b));
  }

  // ----- the pieces of a written body -----

  /** From the content of the first part on. */
  function FromContent(b: string, ps: seq<Part>): string
    requires ps != []
  {
    ps[0].content + (Delimiter(b) + AfterDash(b, ps[1..]))
  }

  function FromBlank(b: string, ps: seq<Part>): string
    requires ps != []
  {
    CRLF + FromContent(b, ps)
  }

  function FromType(b: string, ps: seq<Part>): string
    requires ps != []
  {
    TypePart(ps[0].file) + FromBlank(b, ps)
  }

  lemma Layout(b: string, ps: seq<Part>)
    requires ps != []
    ensures Dash(b) + AfterDash(b, ps) == Dash(b) + CRLF + (DispositionLine(ps[0].file) + CRLF + FromType(b, ps))
  {
    Assoc(Dash(b), CRLF, DispositionLine(ps[0].file) + CRLF + FromType(b, ps));
  }

  lemma HeaderStarts(b: string, ps: seq<Part>)
    requires ps != [] && Writable(b, ps[0])
    ensures var f := ps[0].file;
            Find(DispositionLine(f), CRLF) == |DispositionLine(f)| && DispositionLine(f)[0] == 'C' &&
            Find(TypeLine(f), CRLF) == |TypeLine(f)| && TypeLine(f)[0] == 'C' && FromType(b, ps)[0] != '-'
  {
    DispositionShape(ps[0].file);
    TypeLayout(b, ps);
  }

  lemma DelimiterFromType(b: string, ps: seq<Part>, q: nat)
    requires ps != [] && Writable(b, ps[0]) && OccursAt(FromType(b, ps), Delimiter(b), q)
    ensures var n := |FromType(b, ps)| - |FromBlank(b, ps)|;
            q >= n && OccursAt(FromBlank(b, ps), Delimiter(b), q - n)
  {
    TypeLater(b, ps[0].file, FromBlank(b, ps), q);
  }

  lemma TypeLater(b: string, f: File, z: string, q: nat)
    requires Find(TypeLine(f), CRLF) == |TypeLine(f)| && z != "" && z[0] != '-'
    requires OccursAt(TypePart(f) + z, Delimiter(b), q)
    ensures q >= |TypePart(f)| && OccursAt(z, Delimiter(b), q - |TypePart(f)|)
  {
    if f.contentType == "" {
      assert "" + z == z;
    } else {
      DelimiterLater(b, TypeLine(f), z, q);
    }
  }

  lemma TypeLayout(b: string, ps: seq<Part>)
    requires ps != []
    ensures FromType(b, ps) ==
            if ps[0].file.contentType == "" then FromBlank(b, ps) else TypeLine(ps[0].file) + CRLF + FromBlank(b, ps)
  {
    Assoc(TypeLine(ps[0].file), CRLF, FromBlank(b, ps));
  }

  /** In a written part a delimiter stands nowhere before the blank line. */
  lemma DelimiterFromBlank(b: string, ps: seq<Part>, q: nat)
    requires PlainBoundary(b) && ps != [] && Writable(b, ps[0])
    requires OccursAt(Dash(b) + AfterDash(b, ps), Delimiter(b), q)
    ensures var n := |Dash(b) + AfterDash(b, ps)| - |FromBlank(b, ps)|;
            q >= n && OccursAt(FromBlank(b, ps), Delimiter(b), q - n)
  {
    var line := DispositionLine(ps[0].file);
    Layout(b, ps);
    HeaderStarts(b, ps);
    DashPlain(b);
    TwoLinesLater(b, Dash(b), line, FromType(b, ps), q);
    DelimiterFromType(b, ps, q - |Dash(b)| - |line| - 4);
  }

  lemma TwoLinesLater(b: string, x: string, line: string, y: string, q: nat)
    requires Find(x, CRLF) == |x| && line != "" && line[0] != '-' && Find(line, CRLF) == |line|
    requires (y == "" || y[0] != '-') && OccursAt(x + CRLF + (line + CRLF + y), Delimiter(b), q)
    ensures q >= |x| + |line| + 4 && OccursAt(y, Delimiter(b), q - |x| - |line| - 4)
  {
    DelimiterLater(b, x, line + CRLF + y, q);
    DelimiterLater(b, line, y, q - |x| - 2);
  }

  function Rest(b: string, ps: seq<Part>): nat { |AfterDash(b, ps)| }

  /** With r bytes left the reader is in the header section of no part of ps, and not behind the last. */
  predicate Clear(b: string, ps: seq<Part>, r: nat) {
    (r >= Rest(b, ps) || (ps != [] && r < |FromContent(b, ps)|)) && (ps != [] ==> Clear(b, ps[1..], r))
  }

  lemma RestFalls(b: string, ps: seq<Part>)
    requires ps != []
    ensures Rest(b, ps[1..]) + |ps[0].content| + |Delimiter(b)| == |FromContent(b, ps)| < Rest(b, ps)
  {
  }

  lemma {:induction false} ClearAbove(b: string, ps: seq<Part>, r: nat)
    requires r >= Rest(b, ps)
    ensures Clear(b, ps, r)
    decreases |ps|
  {
    if ps != [] {
      RestFalls(b, ps);
      ClearAbove(b, ps[1..], r);
    }
  }

  lemma NoDelimiterAtEnd(b: string, q: nat)
    requires PlainBoundary(b)
    ensures !OccursAt(Dash(b) + AfterDash(b, []), Delimiter(b), q)
  {
    var t, d := Dash(b) + "--\r\n", Delimiter(b);
    if q <= 2 {
      assert q < 2 ==> t[q] == '-';
      assert q == 2 ==> t[q] == if b == "" then '-' else b[0];
      OccursChar(t, d, q, 0);
    }
  }

  /** In the content of a part: no delimiter before its own, and the next one in what follows that. */
  lemma DelimiterInContent(b: string, c: string, more: string, q: nat)
    requires Find(c + Delimiter(b), Delimiter(b)) == |c| && OccursAt(c + (Delimiter(b) + more), Delimiter(b), q)
    ensures q == |c| || (q >= |c| + 2 && OccursAt(Dash(b) + more, Delimiter(b), q - |c| - 2))
  {
    var d := Delimiter(b);
    var t := c + (d + more);
    Assoc(c, d, more);
    if q < |c| {
      OccursInPrefix(c + d, more, d, q);
    }
    assert t[|c| + 1] == '\n';
    if q == |c| + 1 {
      OccursChar(t, d, q, 0);
    }
    if q >= |c| + 2 {
      assert t[|c| + 2..] == Dash(b) + more;
      OccursInSuffix(t, d, |c| + 2, q - |c| - 2);
    }
  }

  /** The same with the blank line before it, whose line end may itself begin a delimiter. */
  lemma DelimiterAfterBlank(b: string, c: string, more: string, q: nat)
    requires Find(c + Delimiter(b), Delimiter(b)) == |c| &&
             OccursAt(CRLF + (c + (Delimiter(b) + more)), Delimiter(b), q)
    ensures q == 0 || q == |c| + 2 || (q >= |c| + 4 && OccursAt(Dash(b) + more, Delimiter(b), q - |c| - 4))
  {
    var d, y := Delimiter(b), c + (Delimiter(b) + more);
    var t := CRLF + y;
    if q == 1 {
      OccursChar(t, d, q, 0);
    }
    if q >= 2 {
      assert t[2..] == y;
      OccursInSuffix(t, d, 2, q - 2);
      DelimiterInContent(b, c, more, q - 2);
    }
  }

  /** A delimiter stands in the body written for ps with r bytes after it. */
  ghost predicate DelimiterLeaves(b: string, ps: seq<Part>, r: nat) {
    Leaves(Dash(b) + AfterDash(b, ps), Delimiter(b), r)
  }

  ghost predicate Leaves(t: string, d: string, r: nat) { r + |d| <= |t| && OccursAt(t, d, |t| - r - |d|) }

  /** Then it belongs to the first part, or to one of the others. */
  lemma DelimiterOf(b: string, ps: seq<Part>, r: nat)
    requires PlainBoundary(b) && ps != [] && Writable(b, ps[0]) && DelimiterLeaves(b, ps, r)
    ensures r < |FromContent(b, ps)| && (DelimiterLeaves(b, ps[1..], r) || r >= Rest(b, ps[1..]))
  {
    DelimiterFromBlank(b, ps, |Dash(b) + AfterDash(b, ps)| - r - |Delimiter(b)|);
    RestFalls(b, ps);
    LeavesAfterBlank(b, ps[0].content, AfterDash(b, ps[1..]), r);
  }

  lemma LeavesAfterBlank(b: string, c: string, more: string, r: nat)
    requires Find(c + Delimiter(b), Delimiter(b)) == |c| && Leaves(CRLF + (c + (Delimiter(b) + more)), Delimiter(b), r)
    ensures r < |c + (Delimiter(b) + more)| && (Leaves(Dash(b) + more, Delimiter(b), r) || r >= |more|)
  {
    DelimiterAfterBlank(b, c, more, |CRLF + (c + (Delimiter(b) + more))| - r - |Delimiter(b)|);
  }

  lemma ClearCons(b: string, ps: seq<Part>, r: nat)
    requires ps != [] && r < |FromContent(b, ps)| && Clear(b, ps[1..], r)
    ensures Clear(b, ps, r)
  {
  }

  /** A delimiter in a written body does not end in a header section, nor behind the last part. */
  lemma {:induction false} DelimiterClear(b: string, ps: seq<Part>, r: nat)
    requires PlainBoundary(b) && AllWritable(b, ps) && DelimiterLeaves(b, ps, r)
    ensures Clear(b, ps, r)
    decreases |ps|
  {
    if ps == [] {
      NoDelimiterAtEnd(b, |Dash(b) + AfterDash(b, ps)| - r - |Delimiter(b)|);
    } else {
      DelimiterOf(b, ps, r);
      if r >= Rest(b, ps[1..]) {
        ClearAbove(b, ps[1..], r);
      } else {
        DelimiterClear(b, ps[1..], r);
      }
      ClearCons(b, ps, r);
    }
  }

  // ----- a parser that is behind stays behind -----

  /** Bytes of the part being read and bytes still to be read. */
  ghost function Left(st: State, rest: string): nat {
    var ps := Parts(st.events);
    |st.buf| + |rest| + if st.phase.Body? && ps != [] then |ps[|ps| - 1].content| else 0
  }

  /** For every part, the bytes written from its content on. */
  type Room = nat -> nat

  /**
    The parts closed so far are not those written, or there are more to come and too few
    bytes left even for the content of the next one and what was written after it.
   */
  ghost predicate Short(room: Room, parts: seq<Part>, closed: seq<Part>, left: nat) {
    closed <= parts ==> |closed| < |parts| && left < room(|closed|)
  }

  /** The parser is somewhere in the text t and short of it. */
  ghost predicate Behind(t: string, room: Room, parts: seq<Part>, st: State, rest: string) {
    && IsSuffix(st.buf + rest, t)
    && !st.phase.Opening? && (st.phase.Body? ==> Parts(st.events) != [])
    && Short(room, parts, Sealed(st), Left(st, rest))
  }

  /** If the part closed by a delimiter d of t is the one written, the one after it is already out of reach. */
  ghost predicate Tight(t: string, d: string, room: Room, parts: seq<Part>) {
    forall i: nat, r: nat :: i < |parts| && Leaves(t, d, r) && r + |d| + |parts[i].content| < room(i) ==>
      i + 1 < |parts| && r < room(i + 1)
  }

  lemma SuffixShrinks(buf: string, rest: string, r: string, t: string)
    requires IsSuffix(buf + rest, t) && IsSuffix(r, buf)
    ensures IsSuffix(r + rest, t)
  {
    var n := |buf| - |r|;
    var m := |t| - |buf + rest|;
    assert (buf + rest)[n..] == r + rest;
    DropDrop(t, m, n);
  }

  lemma BehindLess(t: string, room: Room, parts: seq<Part>, st: State, rest: string, s: State)
    requires Behind(t, room, parts, st, rest)
    requires IsSuffix(s.buf, st.buf) && Sealed(s) == Sealed(st) && Left(s, rest) <= Left(st, rest)
    requires !s.phase.Opening? && (s.phase.Body? ==> Parts(s.events) != [])
    ensures Behind(t, room, parts, s, rest)
  {
    SuffixShrinks(st.buf, rest, s.buf, t);
  }

  lemma {:induction false} ScanSuffix(file: File, buf: string)
    ensures var r := ScanHeaders(file, buf); !r.Malformed? ==> IsSuffix(r.rest, buf)
    decreases |buf|
  {
    var k := Find(buf, CRLF);
    if k < |buf| && k > 0 && HeaderLine(file, buf[..k]).Some? {
      var f, tail := HeaderLine(file, buf[..k]).value, buf[k + 2..];
      ScanSuffix(f, tail);
      var r := ScanHeaders(f, tail);
      if !r.Malformed? {
        DropDrop(buf, k + 2, |tail| - |r.rest|);
      }
    }
  }

  lemma BehindHeaders(accept: Receiver, t: string, room: Room, parts: seq<Part>, st: State, rest: string)
    requires Behind(t, room, parts, st, rest) && st.phase.Headers?
    ensures var o := StepHeaders(accept, st); !o.Rejected? ==> Behind(t, room, parts, o.st, rest)
  {
    ScanSuffix(st.file, st.buf);
    var o, r := StepHeaders(accept, st), ScanHeaders(st.file, st.buf);
    if o.Running? {
      PartsSnoc(st.events, Header(r.file));
      var ps := Parts(st.events);
      assert (ps + [Part(r.file, "")])[..|ps|] == ps;
    }
    if !o.Rejected? {
      BehindLess(t, room, parts, st, rest, o.st);
    }
  }

  lemma BehindBoundary(t: string, room: Room, parts: seq<Part>, st: State, rest: string)
    requires Behind(t, room, parts, st, rest) && st.phase.Boundary?
    ensures var o := StepBoundary(st); Behind(t, room, parts, o.st, rest)
  {
    var o := StepBoundary(st);
    assert st.buf[|st.buf|..] == "" && st.buf[0..] == st.buf;
    BehindLess(t, room, parts, st, rest, o.st);
  }

  lemma ExtendLast(ps: seq<Part>, x: string)
    requires ps != []
    ensures var qs := Extend(ps, x);
            |qs| == |ps| && qs[..|ps| - 1] == ps[..|ps| - 1] && qs[|ps| - 1].content == ps[|ps| - 1].content + x
  {
  }

  lemma ExtendShort(t: string, d: string, room: Room, parts: seq<Part>, ps: seq<Part>, x: string, left: nat, r: nat)
    requires Tight(t, d, room, parts) && ps != [] && Leaves(t, d, r)
    requires left == r + |d| + |x| + |ps[|ps| - 1].content| && Short(room, parts, ps[..|ps| - 1], left)
    ensures Short(room, parts, Extend(ps, x), r)
  {
    ExtendLast(ps, x);
    var qs, i := Extend(ps, x), |ps| - 1;
    if qs <= parts {
      assert ps[..i] == qs[..i] <= parts && parts[i] == qs[i];
    }
  }

  lemma FoundInSuffix(t: string, d: string, buf: string, rest: string)
    requires d != "" && IsSuffix(buf + rest, t) && Find(buf, d) < |buf|
    ensures Leaves(t, d, |buf| - Find(buf, d) - |d| + |rest|)
  {
    var k := Find(buf, d);
    OccursInPrefix(buf, rest, d, k);
    OccursInSuffix(t, d, |t| - |buf + rest|, k);
  }

  /** The state after the delimiter in the buffer. */
  function Closed(d: string, st: State): State
    requires d != "" && Find(st.buf, d) < |st.buf|
  {
    var k := Find(st.buf, d);
    st.(phase := Boundary, buf := st.buf[k + |d|..], events := st.events + [Content(st.buf[..k])])
  }

  lemma ClosedShape(d: string, accept: Receiver, st: State, rest: string)
    requires d != "" && st.phase.Body? && Find(st.buf, d) < |st.buf|
    ensures var o := StepBody(d, accept, st); !o.Rejected? ==> o.st == Closed(d, st)
    ensures var s := Closed(d, st);
            Sealed(s) == Extend(Parts(st.events), st.buf[..Find(st.buf, d)]) && Left(s, rest) == |s.buf| + |rest|
  {
    PartsSnoc(st.events, Content(st.buf[..Find(st.buf, d)]));
  }

  lemma BehindFound(d: string, accept: Receiver, t: string, room: Room, parts: seq<Part>, st: State, rest: string)
    requires d != "" && Tight(t, d, room, parts)
    requires Behind(t, room, parts, st, rest) && st.phase.Body? && Find(st.buf, d) < |st.buf|
    ensures var o := StepBody(d, accept, st); !o.Rejected? ==> Behind(t, room, parts, o.st, rest)
  {
    ClosedShape(d, accept, st, rest);
    ClosedBehind(d, t, room, parts, st, rest, Closed(d, st));
  }

  lemma ClosedBehind(d: string, t: string, room: Room, parts: seq<Part>, st: State, rest: string, s: State)
    requires d != "" && Tight(t, d, room, parts)
    requires Behind(t, room, parts, st, rest) && st.phase.Body? && Find(st.buf, d) < |st.buf|
    requires s.phase.Boundary? && s.buf == st.buf[Find(st.buf, d) + |d|..] && Left(s, rest) == |s.buf| + |rest|
    requires Sealed(s) == Extend(Parts(st.events), st.buf[..Find(st.buf, d)])
    ensures Behind(t, room, parts, s, rest)
  {
    FoundInSuffix(t, d, st.buf, rest);
    SuffixShrinks(st.buf, rest, s.buf, t);
    ExtendShort(t, d, room, parts, Parts(st.events), st.buf[..Find(st.buf, d)], Left(st, rest), |s.buf| + |rest|);
  }

  /** The state after the bytes that are not held back were handed on. */
  function Held(d: string, st: State): State
    requires |d| < |st.buf|
  {
    var n := |st.buf| - |d|;
    st.(buf := st.buf[n..], events := st.events + [Content(st.buf[..n])])
  }

  lemma HeldShape(d: string, st: State, rest: string)
    requires st.phase.Body? && Parts(st.events) != [] && |d| < |st.buf|
    ensures var s := Held(d, st);
            Parts(s.events) != [] && Sealed(s) == Sealed(st) && Left(s, rest) == Left(st, rest) &&
            IsSuffix(s.buf, st.buf)
  {
    var x := st.buf[..|st.buf| - |d|];
    PartsSnoc(st.events, Content(x));
    ExtendLast(Parts(st.events), x);
  }

  lemma BehindHeld(d: string, accept: Receiver, t: string, room: Room, parts: seq<Part>, st: State, rest: string)
    requires d != "" && Behind(t, room, parts, st, rest) && st.phase.Body? && Find(st.buf, d) == |st.buf|
    ensures var o := StepBody(d, accept, st); !o.Rejected? ==> Behind(t, room, parts, o.st, rest)
  {
    if |d| < |st.buf| {
      HeldShape(d, st, rest);
      BehindLess(t, room, parts, st, rest, Held(d, st));
    }
  }

  lemma BehindStep(b: string, accept: Receiver, t: string, room: Room, parts: seq<Part>, st: State, rest: string)
    requires Tight(t, Delimiter(b), room, parts) && Behind(t, room, parts, st, rest) && st.buf != ""
    ensures var o := Step(b, accept, st); !o.Rejected? ==> Behind(t, room, parts, o.st, rest)
  {
    match st.phase
    case Entry => BehindLess(t, room, parts, st, rest, st.(phase := Headers, file := NO_FILE));
    case Headers => BehindHeaders(accept, t, room, parts, st, rest);
    case Body =>
      if Find(st.buf, Delimiter(b)) < |st.buf| {
        BehindFound(Delimiter(b), accept, t, room, parts, st, rest);
      } else {
        BehindHeld(Delimiter(b), accept, t, room, parts, st, rest);
      }
    case Boundary => BehindBoundary(t, room, parts, st, rest);
    case Opening =>
  }

  lemma {:induction false} BehindDrain(b: string, accept: Receiver, t: string, room: Room, parts: seq<Part>,
                                       st: State, rest: string)
    requires Tight(t, Delimiter(b), room, parts) && Behind(t, room, parts, st, rest)
    ensures var o := Drain(b, accept, st); o.Waiting? ==> Behind(t, room, parts, o.st, rest)
    decreases |st.buf|, if st.phase.Entry? then 1 else 0
  {
    if st.buf != "" {
      BehindStep(b, accept, t, room, parts, st, rest);
      var o := Step(b, accept, st);
      if o.Running? {
        BehindDrain(b, accept, t, room, parts, o.st, rest);
      }
    }
  }

  /** Over every run: a parser that is behind never delivers what was written. */
  lemma {:induction false} BehindRun(b: string, accept: Receiver, t: string, room: Room, parts: seq<Part>, st: State,
                                     pieces: seq<string>)
    requires Tight(t, Delimiter(b), room, parts) && Behind(t, room, parts, st, Concat(pieces))
    ensures !Delivers(FeedAll(b, accept, st, pieces), parts)
    decreases |pieces|
  {
    if pieces == [] {
      BehindNow(t, room, parts, st);
    } else {
      BehindMore(t, room, parts, st, pieces[0], Concat(pieces[1..]));
      BehindDrain(b, accept, t, room, parts, st.(buf := st.buf + pieces[0]), Concat(pieces[1..]));
      var o := Feed(b, accept, st, pieces[0]);
      if o.Waiting? {
        BehindRun(b, accept, t, room, parts, o.st, pieces[1..]);
      }
    }
  }

  lemma BehindNow(t: string, room: Room, parts: seq<Part>, st: State)
    requires Behind(t, room, parts, st, "")
    ensures !Delivers(Waiting(st), parts)
  {
  }

  lemma BehindMore(t: string, room: Room, parts: seq<Part>, st: State, x: string, rest: string)
    requires Behind(t, room, parts, st, x + rest)
    ensures Behind(t, room, parts, st.(buf := st.buf + x), rest)
  {
    assert (st.buf + x) + rest == st.buf + (x + rest);
  }

  // ----- in a written body -----

  ghost function RoomIn(b: string, parts: seq<Part>): Room {
    (i: nat) => if i < |parts| then |FromContent(b, parts[i..])| else 0
  }

  lemma {:induction false} ClearDrop(b: string, ps: seq<Part>, k: nat, r: nat)
    requires k <= |ps| && Clear(b, ps, r)
    ensures Clear(b, ps[k..], r)
    decreases k
  {
    if k == 0 {
      assert ps[0..] == ps;
    } else {
      ClearDrop(b, ps[1..], k - 1, r);
      assert ps[1..][k - 1..] == ps[k..];
    }
  }

  lemma NextOutOfReach(b: string, parts: seq<Part>, i: nat, r: nat)
    requires PlainBoundary(b) && AllWritable(b, parts) && i < |parts| && DelimiterLeaves(b, parts, r)
    requires r + |Delimiter(b)| + |parts[i].content| < |FromContent(b, parts[i..])|
    ensures i + 1 < |parts| && r < |FromContent(b, parts[i + 1..])|
  {
    DelimiterClear(b, parts, r);
    ClearDrop(b, parts, i + 1, r);
    RestFalls(b, parts[i..]);
    assert parts[i..][1..] == parts[i + 1..] && parts[i..][0] == parts[i];
  }

  lemma WrittenIsTight(b: string, parts: seq<Part>)
    requires PlainBoundary(b) && AllWritable(b, parts)
    ensures Tight(Dash(b) + AfterDash(b, parts), Delimiter(b), RoomIn(b, parts), parts)
  {
    var t, d, room := Dash(b) + AfterDash(b, parts), Delimiter(b), RoomIn(b, parts);
    forall i: nat, r: nat | i < |parts| && Leaves(t, d, r) && r + |d| + |parts[i].content| < room(i)
      ensures i + 1 < |parts| && r < room(i + 1)
    {
      TightAt(b, parts, i, r);
    }
  }

  lemma TightAt(b: string, parts: seq<Part>, i: nat, r: nat)
    requires PlainBoundary(b) && AllWritable(b, parts) && i < |parts| && DelimiterLeaves(b, parts, r)
    requires r + |Delimiter(b)| + |parts[i].content| < RoomIn(b, parts)(i)
    ensures i + 1 < |parts| && r < RoomIn(b, parts)(i + 1)
  {
    NextOutOfReach(b, parts, i, r);
  }

  // ----- a later opening line -----

  lemma {:induction false} OpeningEnds(b: string, line: string, y: string, o: nat)
    requires o + |Dash(b)| == |line| && OccursAt(line + CRLF + y, OpeningLine(b), o)
    ensures line[o..] == Dash(b) && (line + CRLF + y)[o + |OpeningLine(b)|..] == y
  {
    var t, p := line + CRLF + y, OpeningLine(b);
    assert p[..|Dash(b)|] == Dash(b);
    SubSlice(t, o, o + |p|, 0, |Dash(b)|);
    assert t[o..o + |Dash(b)|] == line[o..];
  }

  ghost predicate EndsIn(line: string, x: string) { exists o :: 0 <= o <= |line| && line[o..] == x }

  /**
    Where a later opening line leaves the reader: in or behind the content of the first part, or
    among its header lines.
   */
  ghost predicate LateStart(b: string, ps: seq<Part>, z: string)
    requires ps != []
  {
    || |z| < |FromContent(b, ps)|
    || (z == FromType(b, ps) && EndsIn(DispositionLine(ps[0].file), Dash(b)))
    || (z == FromBlank(b, ps) && ps[0].file.contentType != "")
  }

  lemma OpeningFromBlank(b: string, ps: seq<Part>, o: nat)
    requires PlainBoundary(b) && ps != [] && OccursAt(FromBlank(b, ps), OpeningLine(b), o)
    ensures |FromBlank(b, ps)| - o - |OpeningLine(b)| < |FromContent(b, ps)|
  {
    assert FromBlank(b, ps) == "" + CRLF + FromContent(b, ps);
    assert Find("", CRLF) == 0;
    OpeningLater(b, "", FromContent(b, ps), o);
  }

  lemma OpeningFromType(b: string, ps: seq<Part>, o: nat)
    requires PlainBoundary(b) && ps != [] && Writable(b, ps[0]) && OccursAt(FromType(b, ps), OpeningLine(b), o)
    ensures LateStart(b, ps, FromType(b, ps)[o + |OpeningLine(b)|..])
  {
    var f, y, p := ps[0].file, FromBlank(b, ps), OpeningLine(b);
    TypeLayout(b, ps);
    HeaderStarts(b, ps);
    if f.contentType == "" {
      OpeningFromBlank(b, ps, o);
    } else {
      OpeningLater(b, TypeLine(f), y, o);
      if o + |Dash(b)| == |TypeLine(f)| {
        OpeningEnds(b, TypeLine(f), y, o);
      } else {
        OpeningFromBlank(b, ps, o - |TypeLine(f)| - 2);
      }
    }
  }

  lemma SuffixOf(x: string, y: string, n: nat)
    requires |x| <= n <= |x + y|
    ensures (x + y)[n..] == y[n - |x|..]
  {
  }

  lemma OpeningFromDisposition(b: string, ps: seq<Part>, o: nat)
    requires PlainBoundary(b) && ps != [] && Writable(b, ps[0])
    requires OccursAt(DispositionLine(ps[0].file) + CRLF + FromType(b, ps), OpeningLine(b), o)
    ensures LateStart(b, ps, (DispositionLine(ps[0].file) + CRLF + FromType(b, ps))[o + |OpeningLine(b)|..])
  {
    var line, y := DispositionLine(ps[0].file), FromType(b, ps);
    HeaderStarts(b, ps);
    OpeningLater(b, line, y, o);
    if o + |Dash(b)| == |line| {
      OpeningEnds(b, line, y, o);
    } else {
      OpeningFromType(b, ps, o - |line| - 2);
      SuffixOf(line + CRLF, y, o + |OpeningLine(b)|);
    }
  }

  lemma OpeningOf(b: string, ps: seq<Part>, o: nat)
    requires PlainBoundary(b) && ps != [] && Writable(b, ps[0]) && o > 0
    requires OccursAt(Dash(b) + AfterDash(b, ps), OpeningLine(b), o)
    ensures LateStart(b, ps, (Dash(b) + AfterDash(b, ps))[o + |OpeningLine(b)|..])
  {
    Layout(b, ps);
    SecondOpening(b, DispositionLine(ps[0].file) + CRLF + FromType(b, ps), o);
    OpeningFromDisposition(b, ps, o - |Dash(b)| - 2);
  }

  lemma SecondOpening(b: string, y: string, o: nat)
    requires PlainBoundary(b) && o > 0 && OccursAt(Dash(b) + CRLF + y, OpeningLine(b), o)
    ensures var n := |Dash(b)| + 2;
            o >= n && OccursAt(y, OpeningLine(b), o - n) &&
            (Dash(b) + CRLF + y)[o + |OpeningLine(b)|..] == y[o - n + |OpeningLine(b)|..]
  {
    DashPlain(b);
    OpeningLater(b, Dash(b), y, o);
    SuffixOf(Dash(b) + CRLF, y, o + |OpeningLine(b)|);
  }

  // ----- a part read without its first header lines -----

  lemma AnonymousWritable(b: string, p: Part, ct: string)
    requires Writable(b, p) && (ct == p.file.contentType || ct == "")
    ensures Writable(b, Part(File("", "", ct), p.content))
  {
    TypePlain();
    assert "Content-Type: " + "" == "Content-Type: ";
  }

  lemma TypePlain()
    ensures Find("Content-Type: ", CRLF) == |"Content-Type: "|
  {
    NoLineEnd("Content-Type: ");
  }

  lemma ReadFromBlank(b: string, ps: seq<Part>)
    requires ps != [] && AllWritable(b, ps)
    ensures var m := ReadHeaderLines(b, NO_FILE, FromBlank(b, ps));
            m.Some? && m.value.parts == [Part(NO_FILE, ps[0].content)] + ps[1..] &&
            m.value.epilogue == CRLF && m.value.longest < HEADER_MAX_LENGTH
  {
    AnonymousWritable(b, ps[0], "");
    ReadWrittenParts(b, ps[1..]);
    ReadWrittenTail(b, Part(NO_FILE, ps[0].content), AfterDash(b, ps[1..]));
  }

  lemma ReadFromType(b: string, ps: seq<Part>)
    requires ps != [] && AllWritable(b, ps)
    ensures var m := ReadHeaderLines(b, NO_FILE, FromType(b, ps));
            m.Some? && m.value.parts == [Part(File("", "", ps[0].file.contentType), ps[0].content)] + ps[1..] &&
            m.value.epilogue == CRLF && m.value.longest < HEADER_MAX_LENGTH
  {
    var f := ps[0].file;
    var p := Part(File("", "", f.contentType), ps[0].content);
    AnonymousWritable(b, ps[0], f.contentType);
    ReadWrittenParts(b, ps[1..]);
    ReadWrittenTail(b, p, AfterDash(b, ps[1..]));
    ReadTypePart(b, NO_FILE, f, FromBlank(b, ps));
    LongerReads(|TypeLine(f)|, ReadHeaderLines(b, p.file, FromBlank(b, ps)), p,
    ReadAfterDelimiter(b, AfterDash(b, ps[1..])));
  }

  /** The two hyphens of a boundary at the end of the disposition line come from the name or the filename. */
  lemma HyphensAreNamed(f: File, b: string)
    requires EndsIn(DispositionLine(f), Dash(b))
    ensures f.name != "" || f.filename != ""
  {
    var o :| 0 <= o <= |DispositionLine(f)| && DispositionLine(f)[o..] == Dash(b);
    if f.name == "" && f.filename == "" {
      var line := "Content-Disposition: form-data; name=\"\"";
      assert DispositionLine(f) == line;
      assert line[o..][0] == line[o] && line[o..][1] == line[o + 1];
      NoTwoHyphens(o);
    }
  }

  lemma NoTwoHyphens(o: nat)
    requires o + 1 < |"Content-Disposition: form-data; name=\"\""|
    ensures var line := "Content-Disposition: form-data; name=\"\""; line[o] != '-' || line[o + 1] != '-'
  {
  }

  // ----- the parser from its start -----

  lemma OpeningStep(b: string, accept: Receiver, piece: string)
    requires Find(piece, OpeningLine(b)) < |piece|
    ensures var x := piece[Find(piece, OpeningLine(b)) + |OpeningLine(b)|..];
            Feed(b, accept, INITIAL, piece) == Feed(b, accept, INITIAL.(phase := Entry), x)
  {
    var p, k := OpeningLine(b), Find(piece, OpeningLine(b));
    assert INITIAL.buf + piece == piece && "" + piece[k + |p|..] == piece[k + |p|..];
    var st := INITIAL.(buf := piece);
    assert piece[k..][..|p|] == piece[k..k + |p|];
    DropDrop(piece, k, |p|);
    DrainStep(b, accept, st);
  }

  /** The text after the first opening line. */
  function AfterOpening(b: string, u: string): string
    requires Find(u, OpeningLine(b)) < |u|
  {
    u[Find(u, OpeningLine(b)) + |OpeningLine(b)|..]
  }

  lemma OpeningRun(b: string, accept: Receiver, ps: seq<string>) returns (qs: seq<string>)
    requires ps != [] && Find(ps[0], OpeningLine(b)) < |ps[0]|
    ensures Find(Concat(ps), OpeningLine(b)) < |Concat(ps)| && Concat(qs) == AfterOpening(b, Concat(ps))
    ensures FeedAll(b, accept, INITIAL, ps) == FeedAll(b, accept, INITIAL.(phase := Entry), qs)
  {
    var x := AfterOpening(b, ps[0]);
    qs := [x] + ps[1..];
    assert qs[1..] == ps[1..];
    OpeningStep(b, accept, ps[0]);
    FindStable(ps[0], Concat(ps[1..]), OpeningLine(b));
    assert AfterOpening(b, ps[0] + Concat(ps[1..])) == x + Concat(ps[1..]);
  }

  lemma BehindFromStart(b: string, parts: seq<Part>, z: string)
    requires parts != [] && IsSuffix(z, Dash(b) + AfterDash(b, parts)) && |z| < |FromContent(b, parts)|
    ensures Behind(Dash(b) + AfterDash(b, parts), RoomIn(b, parts), parts, INITIAL.(phase := Entry), z)
  {
    assert "" + z == z && parts[0..] == parts;
  }

  lemma SuffixOccurs(t: string, u: string, p: string, k: nat)
    requires IsSuffix(u, t) && OccursAt(u, p, k)
    ensures OccursAt(t, p, |t| - |u| + k) && t[|t| - |u| + k + |p|..] == u[k + |p|..] && IsSuffix(u[k + |p|..], t)
  {
    OccursInSuffix(t, p, |t| - |u|, k);
    DropDrop(t, |t| - |u|, k + |p|);
  }

  lemma LateStartAt(b: string, parts: seq<Part>, u: string)
    requires PlainBoundary(b) && parts != [] && Writable(b, parts[0]) && Find(u, OpeningLine(b)) < |u|
    requires var t := Dash(b) + AfterDash(b, parts); IsSuffix(u, t) && |u| < |t|
    ensures LateStart(b, parts, AfterOpening(b, u)) && IsSuffix(AfterOpening(b, u), Dash(b) + AfterDash(b, parts))
  {
    var t, o := Dash(b) + AfterDash(b, parts), Find(u, OpeningLine(b));
    SuffixOccurs(t, u, OpeningLine(b), o);
    OpeningOf(b, parts, |t| - |u| + o);
  }

  lemma ContentStartLoses(b: string, accept: Receiver, parts: seq<Part>, ps: seq<string>)
    requires PlainBoundary(b) && parts != [] && AllWritable(b, parts) && ps != [] &&
             Find(ps[0], OpeningLine(b)) < |ps[0]|
    requires Find(Concat(ps), OpeningLine(b)) < |Concat(ps)|
    requires IsSuffix(AfterOpening(b, Concat(ps)), Dash(b) + AfterDash(b, parts))
    requires |AfterOpening(b, Concat(ps))| < |FromContent(b, parts)|
    ensures !Delivers(FeedAll(b, accept, INITIAL, ps), parts)
  {
    var qs := OpeningRun(b, accept, ps);
    BehindFromStart(b, parts, Concat(qs));
    WrittenIsTight(b, parts);
    BehindRun(b, accept, Dash(b) + AfterDash(b, parts), RoomIn(b, parts), parts, INITIAL.(phase := Entry), qs);
  }

  /** A parser that starts at a later opening line of the body does not deliver what was written. */
  lemma LateStartLoses(b: string, accept: Receiver, parts: seq<Part>, pieces: seq<string>, k: nat)
    requires PlainBoundary(b) && AcceptsAll(accept) && parts != [] && AllWritable(b, parts) && OpensAt(b, pieces, k)
    requires var t := Dash(b) + AfterDash(b, parts); IsSuffix(Concat(pieces[k..]), t) && |Concat(pieces[k..])| < |t|
    ensures !Delivers(FeedAll(b, accept, INITIAL, pieces), parts)
  {
    var ps := pieces[k..];
    FindStable(ps[0], Concat(ps[1..]), OpeningLine(b));
    LateStartAt(b, parts, Concat(ps));
    var z := AfterOpening(b, Concat(ps));
    if |z| < |FromContent(b, parts)| {
      PiecesSkipped(b, accept, pieces, k);
      ContentStartLoses(b, accept, parts, ps);
    } else {
      HeaderStartLoses(b, accept, parts, pieces, k, z);
    }
  }

  lemma HeaderStartLoses(b: string, accept: Receiver, parts: seq<Part>, pieces: seq<string>, k: nat, z: string)
    requires AcceptsAll(accept) && parts != [] && AllWritable(b, parts) && OpensAt(b, pieces, k)
    requires ReadBody(b, Concat(pieces[k..])) == ReadHeaderLines(b, NO_FILE, z)
    requires LateStart(b, parts, z) && |z| >= |FromContent(b, parts)|
    ensures !Delivers(FeedAll(b, accept, INITIAL, pieces), parts)
  {
    ToleratedLineEnd();
    if z == FromBlank(b, parts) && parts[0].file.contentType != "" {
      ReadFromBlank(b, parts);
    } else {
      ReadFromType(b, parts);
      HyphensAreNamed(parts[0].file, b);
    }
    EveryCutDelivers(b, accept, pieces, k);
  }

  lemma {:induction false} FirstOpening(b: string, pieces: seq<string>, i: nat) returns (k: nat)
    requires NoOpening(b, pieces, i)
    ensures i <= k <= |pieces| && NoOpening(b, pieces, k) && (k < |pieces| ==> OpensAt(b, pieces, k))
    decreases |pieces| - i
  {
    k := i;
    if i < |pieces| && Find(pieces[i], OpeningLine(b)) == |pieces[i]| {
      k := FirstOpening(b, pieces, i + 1);
    }
  }

  /** Dropping pieces leaves an end of the text, a shorter one when one of them was not empty. */
  lemma {:induction false} ConcatDrop(pieces: seq<string>, k: nat, j: nat)
    requires j < k <= |pieces|
    ensures IsSuffix(Concat(pieces[k..]), Concat(pieces))
    ensures |Concat(pieces[k..])| + |pieces[j]| <= |Concat(pieces)|
    decreases k
  {
    var rest := pieces[1..];
    assert rest[k - 1..] == pieces[k..];
    if k > 1 {
      ConcatDrop(rest, k - 1, if j == 0 then 0 else j - 1);
    }
    SuffixBehind(pieces[0], Concat(rest), Concat(pieces[k..]));
  }

  lemma SuffixBehind(x: string, v: string, u: string)
    requires IsSuffix(u, v)
    ensures IsSuffix(u, x + v)
  {
    DropDrop(x + v, |x|, |v| - |u|);
    assert (x + v)[|x|..] == v;
  }

  /**
    The written parts come back, each of them to its end, exactly if the first piece that
    is not empty has room for the whole opening line: under every cut of every written body.
   */
  lemma ComesBackIff(b: string, accept: Receiver, parts: seq<Part>, pieces: seq<string>, j: nat)
    requires PlainBoundary(b) && AcceptsAll(accept) && parts != [] && AllWritable(b, parts)
    requires Concat(pieces) == Serialize(b, parts) && StartsAt(pieces, j)
    ensures Delivers(FeedAll(b, accept, INITIAL, pieces), parts) <==> |pieces[j]| >= |OpeningLine(b)|
  {
    if |pieces[j]| >= |OpeningLine(b)| {
      MultipartRoundTrip.MultipartRoundTrip(b, parts, accept, pieces, j);
    } else {
      ShortStartLoses(b, accept, parts, pieces, j);
    }
  }

  lemma ShortStartLoses(b: string, accept: Receiver, parts: seq<Part>, pieces: seq<string>, j: nat)
    requires PlainBoundary(b) && AcceptsAll(accept) && parts != [] && AllWritable(b, parts)
    requires Concat(pieces) == Serialize(b, parts) && StartsAt(pieces, j) && |pieces[j]| < |OpeningLine(b)|
    ensures !Delivers(FeedAll(b, accept, INITIAL, pieces), parts)
  {
    TooShort(b, pieces, j);
    var k := FirstOpening(b, pieces, j + 1);
    if k < |pieces| {
      SerializeShape(b, parts);
      ConcatDrop(pieces, k, j);
      LateStartLoses(b, accept, parts, pieces, k);
    } else {
      NeverStarts(b, accept, parts, pieces);
    }
  }

  lemma TooShort(b: string, pieces: seq<string>, j: nat)
    requires StartsAt(pieces, j) && |pieces[j]| < |OpeningLine(b)|
    ensures NoOpening(b, pieces, j + 1)
  {
  }

  lemma NeverStarts(b: string, accept: Receiver, parts: seq<Part>, pieces: seq<string>)
    requires NoOpening(b, pieces, |pieces|)
    ensures !Delivers(FeedAll(b, accept, INITIAL, pieces), parts)
  {
    PiecesSkipped(b, accept, pieces, |pieces|);
    assert pieces[|pieces|..] == [];
  }
}
