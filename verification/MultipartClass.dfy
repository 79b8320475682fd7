/**
  The parser object itself: a growing buffer with a live window [spos, epos), moved
  to the front when bytes are appended and searched in place.
 */
module MultipartClass {
  import opened Text
  import opened MultipartSpec
  import opened MultipartParser

  lemma PutNext(buf: string, r: nat, i: nat, data: string)
    requires i < |data| && r + |data| <= |buf| && buf[r..r + i] == data[..i]
    ensures var u := buf[r + i := data[i]]; u[..r] == buf[..r] && u[r..r + i + 1] == data[..i + 1]
  {
    var u := buf[r + i := data[i]];
    assert u[r..r + i + 1] == u[r..r + i] + [data[i]];
    assert u[r..r + i] == buf[r..r + i];
    assert data[..i + 1] == data[..i] + [data[i]];
  }

  lemma Filled(buf: string, r: nat, live: string, data: string)
    requires r + |data| <= |buf| && buf[..r] == live && buf[r..r + |data|] == data[..|data|]
    ensures buf[0..r + |data|] == live + data
  {
    JoinSlices(buf, r, r + |data|);
    assert buf[0..r + |data|] == buf[..r + |data|] && data[..|data|] == data;
  }

  class MultipartFormDataParser {
    const boundary: string
    var state: Phase
    var isValid: bool
    var file: File
    var buf: string
    var spos: nat
    var epos: nat
    /** What the callbacks have been told. */
    var events: seq<Event>

    ghost predicate Valid()
      reads this
    {
      spos <= epos <= |buf|
    }

    ghost function Live(): string
      reads this
      requires Valid()
    {
      buf[spos..epos]
    }

    ghost function View(): State
      reads this
      requires Valid()
    {
      State(state, file, Live(), isValid, events)
    }

    /** The object did what the step says. */
    ghost predicate Did(o: Outcome, ok: bool, more: bool)
      reads this
      requires Valid()
    {
      match o
      case Running(s) => ok && more && View() == s
      case Waiting(s) => ok && !more && View() == s
      case Rejected(es) => !ok && events == es
    }

    constructor (boundary: string)
      ensures Valid() && View() == INITIAL && this.boundary == boundary
    {
      this.boundary := boundary;
      state, isValid, file := Opening, false, NO_FILE;
      buf, spos, epos, events := "", 0, 0, [];
    }

    /** Moves the live bytes to the front, lowest first. */
    method MoveToFront()
      requires Valid()
      modifies this`buf, this`spos, this`epos
      ensures Valid() && Live() == old(Live()) && spos == 0
    {
      var remaining := epos - spos;
      ghost var live := Live();
      if remaining > 0 && spos > 0 {
        var i := 0;
        while i < remaining
          invariant 0 <= i <= remaining
          invariant |buf| == |old(buf)| && spos == old(spos) && epos == old(epos)
          invariant forall k :: 0 <= k < i ==> buf[k] == live[k]
          invariant forall k :: i <= k < |buf| ==> buf[k] == old(buf)[k]
        {
          buf := buf[i := buf[spos + i]];
          i := i + 1;
        }
      }
      assert buf[..remaining] == live;
      spos, epos := 0, remaining;
    }

    /** Moves the live bytes to the front and adds data behind them. */
    method BufAppend(data: string)
      requires Valid()
      modifies this`buf, this`spos, this`epos
      ensures Valid() && Live() == old(Live()) + data
    {
      ghost var live := Live();
      MoveToFront();
      var remaining := epos;
      if remaining + |data| > |buf| {
        buf := buf + seq(remaining + |data| - |buf|, _ => '\0');
      }
      assert buf[..remaining] == live;
      var i := 0;
      while i < |data|
        invariant 0 <= i <= |data| && spos == 0 && epos == remaining && remaining + |data| <= |buf|
        invariant buf[..remaining] == live
        invariant buf[remaining..remaining + i] == data[..i]
      {
        PutNext(buf, remaining, i, data);
        buf := buf[remaining + i := data[i]];
        i := i + 1;
      }
      epos := epos + |data|;
      Filled(buf, remaining, live, data);
    }

    method BufErase(size: nat)
      requires Valid() && size <= epos - spos
      modifies this`spos
      ensures Valid() && Live() == old(Live())[size..]
    {
      spos := spos + size;
    }

    /** Whether the window starts with b at index p of the buffer. */
    method StartWith(p: nat, b: string) returns (r: bool)
      requires Valid() && spos <= p <= epos
      ensures r == OccursAt(Live(), b, p - spos)
    {
      if epos - p < |b| { return false; }
      ghost var there := buf[p..p + |b|];
      SubSlice(buf, spos, epos, p - spos, p - spos + |b|);
      var i := 0;
      while i < |b|
        invariant 0 <= i <= |b| && forall k :: 0 <= k < i ==> there[k] == b[k]
      {
        assert there[i] == buf[p + i];
        if buf[p + i] != b[i] { return false; }
        i := i + 1;
      }
      assert there == b;
      return true;
    }

    /** Looks for the first byte of s, and only there compares the rest. */
    method BufFind(s: string) returns (r: nat)
      requires Valid() && s != ""
      ensures r == Find(Live(), s)
    {
      ghost var live := Live();
      var off := spos;
      while off < epos
        invariant spos <= off <= epos
        invariant forall j :: 0 <= j < off - spos ==> !OccursAt(live, s, j)
      {
        var pos := off;
        while pos < epos && buf[pos] != s[0]
          invariant off <= pos <= epos
          invariant forall j :: 0 <= j < pos - spos ==> !OccursAt(live, s, j)
        {
          OccursChar(live, s, pos - spos, 0);
          pos := pos + 1;
        }
        if pos == epos { return epos - spos; }
        if |s| > epos - pos { return epos - spos; }
        var here := StartWith(pos, s);
        if here { return pos - spos; }
        off := pos + 1;
      }
      return epos - spos;
    }

    method Tell(e: Event, accept: Receiver) returns (ok: bool)
      modifies this`events
      ensures events == old(events) + [e] && ok == accept(events)
    {
      events := events + [e];
      ok := accept(events);
    }

    /** State 2: take header lines off the buffer; more says whether the loop goes on. */
    method ParseHeaders(accept: Receiver) returns (ok: bool, more: bool)
      requires Valid() && state == Headers
      modifies this
      ensures Valid()
      ensures Did(StepHeaders(accept, old(View())), ok, more)
      ensures !ok ==> (isValid <==> old(isValid) && Find(old(Live()), CRLF) > HEADER_MAX_LENGTH)
    {
      var pos := BufFind(CRLF);
      if pos > HEADER_MAX_LENGTH { return false, false; }
      ghost var scan := ScanHeaders(file, Live());
      while pos < epos - spos
        invariant Valid() && pos == Find(Live(), CRLF)
        invariant ScanHeaders(file, Live()) == scan
        invariant state == old(state) && isValid == old(isValid) && events == old(events)
        decreases epos - spos
      {
        if pos == 0 {
          ok, more := OpenPart(accept);
          return;
        }
        ok := TakeLine(pos);
        if !ok { return false, false; }
        pos := BufFind(CRLF);
      }
      return true, false;
    }

    /** The blank line: announce the part and go on to its content. */
    method OpenPart(accept: Receiver) returns (ok: bool, more: bool)
      requires Valid() && |CRLF| <= epos - spos
      modifies this
      ensures Valid()
      ensures Did(Deliver(accept, old(View()).(phase := Body, buf := old(Live())[2..]), Header(old(file))), ok, more)
      ensures !ok ==> !isValid
    {
      ok := Tell(Header(file), accept);
      if !ok {
        isValid := false;
        return false, false;
      }
      BufErase(|CRLF|);
      state := Body;
      return true, true;
    }

    /** One header line and its end. */
    method TakeLine(pos: nat) returns (ok: bool)
      requires Valid() && pos + |CRLF| <= epos - spos
      modifies this
      ensures Valid() && events == old(events)
      ensures var next := HeaderLine(old(file), old(Live())[..pos]);
              ok == next.Some? && (!ok ==> !isValid) &&
              (ok ==> View() == old(View()).(file := next.value, buf := old(Live())[pos + 2..]))
    {
      var header := buf[spos..spos + pos];
      assert header == Live()[..pos];
      var next := HeaderLine(file, header);
      if next.None? {
        isValid := false;
        return false;
      }
      file := next.value;
      BufErase(pos + |CRLF|);
      return true;
    }

    /** Hands on the first n live bytes as content, and erases them and skip more. */
    method HandOn(n: nat, skip: nat, accept: Receiver) returns (ok: bool)
      requires Valid() && n + skip <= epos - spos
      modifies this
      ensures Valid()
      ensures events == old(events) + [Content(old(Live())[..n])] && ok == accept(events)
      ensures if ok then View() == old(View()).(buf := old(Live())[n + skip..], events := events) else !isValid
    {
      assert Live()[..n] == buf[spos..spos + n];
      ok := Tell(Content(buf[spos..spos + n]), accept);
      if !ok {
        isValid := false;
        return;
      }
      BufErase(n + skip);
    }

    /** State 3: hand on content up to the delimiter, or all but the bytes it could begin in. */
    method ParseBody(accept: Receiver) returns (ok: bool, more: bool)
      requires Valid() && state == Body
      modifies this
      ensures Valid()
      ensures Did(StepBody(Delimiter(boundary), accept, old(View())), ok, more)
      ensures !ok ==> !isValid
    {
      var delimiter := Delimiter(boundary);
      if |delimiter| > epos - spos { return true, false; }
      var pos := BufFind(delimiter);
      if pos < epos - spos {
        ok := HandOn(pos, |delimiter|, accept);
        if !ok { return false, false; }
        state := Boundary;
        return true, true;
      }
      var len := epos - spos - |delimiter|;
      if len > 0 {
        ok := HandOn(len, 0, accept);
        if !ok { return false, false; }
      }
      return true, false;
    }

    /** Erases p from the front of the live bytes if it is there. */
    method SkipIf(p: string) returns (here: bool)
      requires Valid() && |p| <= epos - spos
      modifies this`spos
      ensures Valid() && here == (p <= old(Live()))
      ensures Live() == if here then old(Live())[|p|..] else old(Live())
    {
      here := StartWith(spos, p);
      PrefixOccurs(Live(), p);
      if here { BufErase(|p|); }
    }

    /** State 4: another part, the end, or not enough to tell. */
    method ParseBoundary() returns (more: bool)
      requires Valid() && state == Boundary
      modifies this
      ensures Valid()
      ensures match StepBoundary(old(View()))
              case Running(s) => more && View() == s
              case Waiting(s) => !more && View() == s
              case Rejected(_) => false
    {
      if |CRLF| > epos - spos { return false; }
      var again := SkipIf(CRLF);
      if again {
        state := Entry;
        return true;
      }
      var done := SkipIf("--");
      if done {
        isValid := true;
        BufErase(epos - spos);
        return true;
      }
      return false;
    }

    /** State 0: drop everything before the opening line, and the line itself. */
    method ParseOpening() returns (ok: bool, more: bool)
      requires Valid() && state == Opening
      modifies this
      ensures Valid()
      ensures Did(StepOpening(boundary, old(View())), ok, more) && isValid == old(isValid)
    {
      var opening := OpeningLine(boundary);
      var pos := BufFind(opening);
      BufErase(pos);
      if |opening| > epos - spos { return true, false; }
      var here := SkipOpening(opening);
      return here, here;
    }

    method SkipOpening(opening: string) returns (here: bool)
      requires Valid() && |opening| <= epos - spos
      modifies this`spos, this`state
      ensures Valid() && here == (opening <= old(Live()))
      ensures here ==> View() == old(View()).(phase := Entry, buf := old(Live())[|opening|..])
    {
      here := SkipIf(opening);
      if here { state := Entry; }
    }

    /** One round of the loop; only a round that empties the buffer makes the body valid. */
    method Round(accept: Receiver) returns (ok: bool, more: bool)
      requires Valid() && spos < epos
      modifies this
      ensures Valid()
      ensures Did(Step(boundary, accept, old(View())), ok, more)
      ensures isValid && !old(isValid) ==> ok && spos == epos
    {
      match state {
        case Opening => ok, more := ParseOpening();
        case Entry => file, state, ok, more := NO_FILE, Headers, true, true;
        case Headers => ok, more := ParseHeaders(accept);
        case Body => ok, more := ParseBody(accept);
        case Boundary => ok := true; more := ParseBoundary();
      }
    }

    /** One call with the bytes that have arrived; a call that refuses them never makes the body valid. */
    method Parse(data: string, accept: Receiver) returns (ok: bool)
      requires Valid()
      modifies this
      ensures Valid()
      ensures match Feed(boundary, accept, old(View()), data)
              case Running(_) => false
              case Waiting(s) => ok && View() == s
              case Rejected(es) => !ok && events == es && (isValid ==> old(isValid))
    {
      BufAppend(data);
      ghost var goal := Drain(boundary, accept, View());
      while epos - spos > 0
        invariant Valid() && Drain(boundary, accept, View()) == goal
        invariant isValid && !old(isValid) ==> spos == epos
        decreases epos - spos, if state == Entry then 1 else 0
      {
        ghost var before := View();
        var more;
        ok, more := Round(accept);
        if !ok { return false; }
        if !more { return true; }
        DrainStep(boundary, accept, before);
      }
      return true;
    }
  }
}
