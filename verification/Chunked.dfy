/**
  Chunked transfer coding (section 7.1 of RFC 9112): the writer that frames every
  write of a content provider, and the reader that takes the frames apart line by
  line and block by block, however the stream is fragmented.
 */
module Chunked {
  import opened Text
  import opened Url
  import opened Streams

  const ULONG_MAX: nat := 0xFFFF_FFFF_FFFF_FFFF
  const RECV_BUFSIZ := 16384
  const LINE_BUFSIZ := 16

  // ----- hexadecimal lengths -----

  function HexDigit(n: nat): char
    requires n < 16
  {
    if n < 10 then ('0' as int + n) as char else ('a' as int + n - 10) as char
  }

  function Hex(n: nat): string {
    if n < 16 then [HexDigit(n)] else Hex(n / 16) + [HexDigit(n % 16)]
  }

  /** Puts the digits in front of each other, lowest first. */
  method FromIToHex(n: nat) returns (ret: string)
    ensures ret == Hex(n)
  {
    ret := [HexDigit(n % 16)];
    var m := n / 16;
    while m > 0
      invariant Hex(n) == (if m > 0 then Hex(m) else "") + ret
    {
      ret := [HexDigit(m % 16)] + ret;
      m := m / 16;
    }
  }

  predicate IsHex(c: char) { HexValue(c) < 16 }

  /** Value of the hexadecimal digits that s starts with, continuing acc. */
  function Digits(s: string, acc: nat): nat {
    if s == "" || !IsHex(s[0]) then acc else Digits(s[1..], acc * 16 + HexValue(s[0]))
  }

  predicate HasHexPrefix(s: string) { |s| > 2 && s[0] == '0' && (s[1] == 'x' || s[1] == 'X') && IsHex(s[2]) }

  /** Conversion in base 16: leading space, a sign, "0x", then digits; saturating; None without a digit. */
  function Strtoul(s: string): (r: Option<nat>)
    ensures r.Some? ==> r.value <= ULONG_MAX
  {
    var t := SkipSpace(s);
    var negative := t != "" && t[0] == '-';
    var u := if t != "" && (t[0] == '-' || t[0] == '+') then t[1..] else t;
    var d := if HasHexPrefix(u) then u[2..] else u;
    if d == "" || !IsHex(d[0]) then None
    else
      var v := Digits(d, 0);
      if v > ULONG_MAX then Some(ULONG_MAX)
      else if negative && v > 0 then Some(ULONG_MAX + 1 - v)
      else Some(v)
  }

  lemma {:induction false} DigitsSnoc(a: string, c: char, acc: nat)
    requires (forall x :: x in a ==> IsHex(x)) && IsHex(c)
    ensures Digits(a + [c], acc) == Digits(a, acc) * 16 + HexValue(c)
  {
    if a == "" {
      assert (a + [c])[1..] == "";
    } else {
      assert (a + [c])[1..] == a[1..] + [c];
      DigitsSnoc(a[1..], c, acc * 16 + HexValue(a[0]));
    }
  }

  lemma {:induction false} DigitsStop(a: string, t: string, acc: nat)
    requires (forall x :: x in a ==> IsHex(x)) && (t == "" || !IsHex(t[0]))
    ensures Digits(a + t, acc) == Digits(a, acc)
  {
    if a == "" {
      assert a + t == t;
    } else {
      assert (a + t)[1..] == a[1..] + t;
      DigitsStop(a[1..], t, acc * 16 + HexValue(a[0]));
    }
  }

  lemma {:induction false} DigitsOf(n: nat)
    ensures Digits(Hex(n), 0) == n && Hex(n) != ""
    ensures forall c :: c in Hex(n) ==> IsHex(c)
  {
    if n < 16 {
      assert Hex(n)[1..] == "";
    } else {
      DigitsOf(n / 16);
      DigitsSnoc(Hex(n / 16), HexDigit(n % 16), 0);
    }
  }

  /** Printing and parsing a chunk length are inverse below the value that stands for overflow. */
  lemma LengthRoundTrip(n: nat)
    requires n < ULONG_MAX
    ensures Strtoul(Hex(n) + CRLF) == Some(n)
  {
    DigitsOf(n);
    DigitsParsed(Hex(n));
  }

  lemma DigitsParsed(h: string)
    requires h != "" && (forall c :: c in h ==> IsHex(c)) && Digits(h, 0) < ULONG_MAX
    ensures Strtoul(h + CRLF) == Some(Digits(h, 0))
  {
    var s := h + CRLF;
    DigitsStop(h, CRLF, 0);
    assert s[0] == h[0] && h[0] in h;
    assert |h| > 1 ==> s[1] == h[1] && h[1] in h;
    assert |h| == 1 ==> s[1] == '\r';
  }

  // ----- lines -----

  /** Reads a line into a small fixed buffer that spills over into a growing one. */
  class LineReader {
    const fixed: array<char>
    var used: nat
    var glowable: string

    ghost predicate Valid()
      reads this, fixed
    {
      fixed.Length >= 2 && used < fixed.Length &&
      (used > 0 ==> fixed[used] == '\0') &&
      (glowable != "" ==> used == fixed.Length - 1 && |glowable| > used)
    }

    function Line(): string
      reads this, fixed
      requires Valid()
    {
      if glowable == "" then fixed[..used] else glowable
    }

    constructor (size: nat)
      requires size >= 2
      ensures Valid() && Line() == "" && fresh(fixed)
    {
      fixed := new char[size];
      used, glowable := 0, "";
    }

    method Append(c: char)
      requires Valid()
      modifies this, fixed
      ensures Valid() && Line() == old(Line()) + [c]
    {
      if used < fixed.Length - 1 {
        fixed[used] := c;
        used := used + 1;
        fixed[used] := '\0';
      } else {
        if glowable == "" {
          assert fixed[used] == '\0';
          glowable := fixed[..used];
        }
        glowable := glowable + [c];
      }
    }

    /** Byte by byte up to the newline or the end. */
    method Getline(strm: Stream) returns (ok: bool)
      requires Valid()
      modifies this, fixed, strm
      ensures Valid()
      ensures ok ==> strm.broken == old(strm.broken) && old(strm.rest) != "" &&
                     Line() == LineOf(old(strm.rest)) && strm.rest == AfterLine(old(strm.rest))
      ensures !ok ==> strm.broken || old(strm.rest) == ""
    {
      used, glowable := 0, "";
      ghost var before := strm.rest;
      ghost var i := 0;
      assert before[0..] == before;
      while true
        invariant Valid() && strm.broken == old(strm.broken)
        invariant i <= |before| && Line() == before[..i] && strm.rest == before[i..]
        invariant '\n' !in before[..i]
        decreases |before| - i
      {
        var n, data := strm.Read(1);
        if n < 0 {
          return false;
        } else if n == 0 {
          assert before[..i] == before;
          LineIsAll(before);
          if used == 0 { return false; } else { break; }
        }
        assert before[i..] == data + strm.rest;
        assert before[i] == data[0] && strm.rest == before[i + 1..];
        Append(data[0]);
        assert before[..i + 1] == before[..i] + [before[i]];
        if data[0] == '\n' {
          assert before == before[..i] + "\n" + before[i + 1..];
          LineEnds(before[..i], before[i + 1..]);
          break;
        }
        i := i + 1;
      }
      return true;
    }
  }

  // ----- what a chunked stream means -----

  /** Whether it is complete, the payload handed on, and what follows it. */
  datatype Decoded = Decoded(ok: bool, out: string, rest: string)

  function Bad(out: string): Decoded { Decoded(false, out, "") }

  /** What follows the trailer section, if it is complete and its lines are not too long. */
  function SkipTrailer(s: string): Option<string>
    decreases |s|
  {
    LineIsPrefix(s);
    var line := LineOf(s);
    if s == "" then None
    else if line == CRLF then Some(AfterLine(s))
    else if |line| > HEADER_MAX_LENGTH then None
    else SkipTrailer(AfterLine(s))
  }

  function Prepend(d: string, r: Decoded): Decoded { r.(out := d + r.out) }

  /** The frame that starts with this length line, and those after it. */
  function DecodeFrame(line: string, s: string): Decoded
    decreases |s|
  {
    match Strtoul(line)
    case None => Bad("")
    case Some(n) =>
      if n == ULONG_MAX then Bad("")
      else if n == 0 then
        match SkipTrailer(s) { case None => Bad("") case Some(rest) => Decoded(true, "", rest) }
      else if |s| < n then Bad(s)
      else
        var t := s[n..];
        LineIsPrefix(t);
        if t == "" || LineOf(t) != CRLF || AfterLine(t) == "" then Bad(s[..n])
        else
          LineIsPrefix(AfterLine(t));
          Prepend(s[..n], DecodeFrame(LineOf(AfterLine(t)), AfterLine(AfterLine(t))))
  }

  function Decode(s: string): Decoded {
    if s == "" then Bad("") else DecodeFrame(LineOf(s), AfterLine(s))
  }

  method ReadContentWithLength(strm: Stream, len: nat) returns (ok: bool, out: string)
    modifies strm
    ensures ok ==> strm.broken == old(strm.broken) && |out| == len && old(strm.rest) == out + strm.rest
    ensures !ok ==> strm.broken || (|old(strm.rest)| < len && out == old(strm.rest))
    ensures out <= old(strm.rest)
  {
    out := "";
    var r := 0;
    while r < len
      invariant r == |out| <= len && strm.broken == old(strm.broken) && old(strm.rest) == out + strm.rest
    {
      var want := if len - r < RECV_BUFSIZ then len - r else RECV_BUFSIZ;
      var n, data := strm.Read(want);
      if n <= 0 { return false, out; }
      out := out + data;
      r := r + n;
    }
    return true, out;
  }

  /** Skips header lines of the trailer up to the empty one; reader holds the first. */
  method ReadTrailer(strm: Stream, reader: LineReader) returns (ok: bool)
    requires reader.Valid()
    modifies strm, reader, reader.fixed
    ensures reader.Valid()
    ensures ok ==> strm.broken == old(strm.broken) && SkipTrailer(old(strm.rest)) == Some(strm.rest)
    ensures !ok ==> strm.broken || SkipTrailer(old(strm.rest)).None?
  {
    ghost var at := strm.rest;
    ok := reader.Getline(strm);
    if !ok { return false; }
    while reader.Line() != CRLF
      invariant reader.Valid() && strm.broken == old(strm.broken)
      invariant at != "" && reader.Line() == LineOf(at) && strm.rest == AfterLine(at)
      invariant SkipTrailer(at) == SkipTrailer(old(strm.rest))
      decreases |at|
    {
      LineIsPrefix(at);
      if |reader.Line()| > HEADER_MAX_LENGTH { return false; }
      at := strm.rest;
      ok := reader.Getline(strm);
      if !ok { return false; }
    }
    return true;
  }

  /** The reader: on an unbroken connection, fragmentation does not matter. */
  method ReadContentChunked(strm: Stream) returns (ok: bool, out: string)
    modifies strm
    ensures ok ==> strm.broken == old(strm.broken) && Decode(old(strm.rest)) == Decoded(true, out, strm.rest)
    ensures !ok && !strm.broken ==> !Decode(old(strm.rest)).ok && Decode(old(strm.rest)).out == out
  {
    var reader := new LineReader(LINE_BUFSIZ);
    out := "";
    ok := reader.Getline(strm);
    if !ok { return false, out; }
    ghost var goal := Decode(old(strm.rest));
    while true
      invariant fresh(reader) && fresh(reader.fixed) && reader.Valid() && strm.broken == old(strm.broken)
      invariant goal == Prepend(out, DecodeFrame(reader.Line(), strm.rest))
      decreases |strm.rest|
    {
      ghost var s := strm.rest;
      var len := Strtoul(reader.Line());
      if len.None? || len.value == ULONG_MAX { return false, out; }
      if len.value == 0 { break; }
      var data: string;
      ok, data := ReadContentWithLength(strm, len.value);
      ghost var done := out;
      out := out + data;
      if !ok { return false, out; }
      assert s[..len.value] == data && s[len.value..] == strm.rest;
      ghost var t := strm.rest;
      ok := reader.Getline(strm);
      if !ok { return false, out; }
      if reader.Line() != CRLF { return false, out; }
      LineIsPrefix(t);
      ok := reader.Getline(strm);
      if !ok { return false, out; }
      LineIsPrefix(AfterLine(t));
      PrependTwice(done, data, DecodeFrame(reader.Line(), strm.rest));
    }
    ok := ReadTrailer(strm, reader);
  }

  lemma PrependTwice(a: string, b: string, r: Decoded)
    ensures Prepend(a, Prepend(b, r)) == Prepend(a + b, r)
  {
    assert a + (b + r.out) == (a + b) + r.out;
  }

  // ----- the writer -----

  /** What one write of the provider puts on the connection. */
  function ChunkOf(d: string): string { if d == "" then "" else Hex(|d|) + CRLF + d + CRLF }

  function Chunks(ds: seq<string>): string {
    if ds == [] then "" else ChunkOf(ds[0]) + Chunks(ds[1..])
  }

  const END := "0\r\n\r\n"

  /** One call of the provider: some writes, and whether it then says it is done. */
  datatype Call = Call(writes: seq<string>, done: bool)

  /** An empty last write also ends the loop, but without the end marker. */
  predicate StopsShort(c: Call) { !c.done && c.writes != [] && c.writes[|c.writes| - 1] == "" }

  /** What the loop over provider calls puts on the connection. */
  function Written(calls: seq<Call>): string {
    if calls == [] then ""
    else if calls[0].done then Chunks(calls[0].writes) + END
    else if StopsShort(calls[0]) then Chunks(calls[0].writes)
    else Chunks(calls[0].writes) + Written(calls[1..])
  }

  function Payload(calls: seq<Call>): string {
    if calls == [] then ""
    else if calls[0].done || StopsShort(calls[0]) then Concat(calls[0].writes)
    else Concat(calls[0].writes) + Payload(calls[1..])
  }

  /** The provider says it is done before any of its calls ends with an empty write. */
  predicate Finishes(calls: seq<Call>) {
    calls != [] && (calls[0].done || (!StopsShort(calls[0]) && Finishes(calls[1..])))
  }

  /** sent and what calls k and after will write make up goal. */
  ghost predicate StillDue(calls: seq<Call>, k: nat, sent: string, goal: string) {
    k <= |calls| && sent + Written(calls[k..]) == goal
  }

  lemma WrittenStep(calls: seq<Call>, k: nat, sent: string, goal: string)
    requires k < |calls| && StillDue(calls, k, sent, goal)
    ensures var c := calls[k];
            var now := sent + Chunks(c.writes) + (if c.done then END else "");
            if c.done || StopsShort(c) then now == goal else StillDue(calls, k + 1, now, goal)
  {
    WrittenCons(calls, k);
    SentMore(sent, Chunks(calls[k].writes), Written(calls[k + 1..]));
  }

  lemma WrittenCons(calls: seq<Call>, k: nat)
    requires k < |calls|
    ensures var c := calls[k];
            Written(calls[k..]) ==
            Chunks(c.writes) + if c.done then END else if StopsShort(c) then "" else Written(calls[k + 1..])
  {
    assert calls[k..][1..] == calls[k + 1..];
    assert Chunks(calls[k].writes) + "" == Chunks(calls[k].writes);
  }

  lemma SentMore(sent: string, x: string, more: string)
    ensures sent + (x + more) == (sent + x) + more && sent + (x + END) == (sent + x) + END &&
            sent + (x + "") == sent + x + ""
    ensures (sent + x + "") + more == (sent + x) + more
  {
  }

  lemma WrittenEnds(calls: seq<Call>, sent: string, goal: string)
    ensures StillDue(calls, 0, "", Written(calls))
    ensures StillDue(calls, |calls|, sent, goal) ==> sent == goal
  {
    assert calls[0..] == calls && calls[|calls|..] == [];
  }

  /** The sink writes of one provider call; an empty write clears the flag and a later one sets it again. */
  method WriteAll(writes: seq<string>) returns (sent: string, available: bool)
    ensures sent == Chunks(writes)
    ensures available == (writes == [] || writes[|writes| - 1] != "")
  {
    sent, available := "", true;
    var i := 0;
    ghost var goal := Chunks(writes);
    assert writes[0..] == writes;
    while i < |writes|
      invariant 0 <= i <= |writes| && sent + Chunks(writes[i..]) == goal
      invariant available == (i == 0 || writes[i - 1] != "")
    {
      available := |writes[i]| > 0;
      ChunksStep(writes, i, sent);
      sent := WriteOne(writes[i], sent);
      i := i + 1;
    }
    assert writes[i..] == [];
  }

  method WriteOne(d: string, before: string) returns (sent: string)
    ensures sent == before + ChunkOf(d)
  {
    sent := before;
    if d != "" {
      var h := FromIToHex(|d|);
      sent := sent + (h + CRLF + d + CRLF);
    }
  }

  lemma ChunksStep(writes: seq<string>, i: nat, sent: string)
    requires i < |writes|
    ensures sent + Chunks(writes[i..]) == (sent + ChunkOf(writes[i])) + Chunks(writes[i + 1..])
  {
    assert writes[i..][1..] == writes[i + 1..];
  }

  /** The loop over provider calls. */
  method WriteContentChunked(calls: seq<Call>) returns (sent: string)
    ensures sent == Written(calls)
  {
    sent := "";
    var available := true;
    var k := 0;
    ghost var goal := Written(calls);
    WrittenEnds(calls, sent, goal);
    while available && k < |calls|
      invariant 0 <= k <= |calls|
      invariant if available then StillDue(calls, k, sent, goal) else sent == goal
    {
      WrittenStep(calls, k, sent, goal);
      sent, available := WriteCall(calls[k], sent);
      k := k + 1;
    }
    WrittenEnds(calls, sent, goal);
  }

  /** One call of the provider: its writes, and the end marker if it says it is done. */
  method WriteCall(c: Call, before: string) returns (sent: string, available: bool)
    ensures sent == before + Chunks(c.writes) + (if c.done then END else "")
    ensures available <==> !c.done && !StopsShort(c)
  {
    var out: string;
    out, available := WriteAll(c.writes);
    sent := before + out;
    if c.done {
      available := false;
      sent := sent + ("0\r\n" + CRLF);
    }
  }

  lemma DecodeSplit(h: string, body: string)
    requires '\n' !in h
    ensures Decode(h + "\n" + body) == DecodeFrame(h + "\n", body)
  {
    LineEnds(h, body);
    assert AfterLine(h + "\n" + body) == body;
  }

  lemma CrlfLine(t: string)
    ensures LineOf(CRLF + t) == CRLF && AfterLine(CRLF + t) == t
  {
    LineEnds("\r", t);
    assert "\r" + "\n" == CRLF;
  }

  lemma FrameBody(line: string, d: string, t: string)
    requires d != "" && |d| < ULONG_MAX && Strtoul(line) == Some(|d|)
    ensures DecodeFrame(line, d + (CRLF + t)) == Prepend(d, Decode(t))
  {
    var s := d + (CRLF + t);
    assert s[..|d|] == d && s[|d|..] == CRLF + t;
    CrlfLine(t);
    assert d + "" == d;
  }

  /** Reading one written frame gives its payload and then the rest of the stream. */
  lemma FrameRead(d: string, t: string)
    requires d != "" && |d| < ULONG_MAX
    ensures Decode(ChunkOf(d) + t) == Prepend(d, Decode(t))
  {
    var h := Hex(|d|);
    DigitsOf(|d|);
    LengthRoundTrip(|d|);
    assert ChunkOf(d) + t == (h + "\r") + "\n" + (d + (CRLF + t));
    assert '\n' !in h + "\r" && (h + "\r") + "\n" == h + CRLF;
    DecodeSplit(h + "\r", d + (CRLF + t));
    FrameBody(h + CRLF, d, t);
  }

  lemma EndRead(t: string)
    ensures Decode(END + t) == Decoded(true, "", t)
  {
    assert END + t == "0\r" + "\n" + (CRLF + t);
    DecodeSplit("0\r", CRLF + t);
    assert "0\r" + "\n" == Hex(0) + CRLF;
    LengthRoundTrip(0);
    CrlfLine(t);
  }

  predicate Sized(ds: seq<string>) { forall i :: 0 <= i < |ds| ==> |ds[i]| < ULONG_MAX }

  lemma {:induction false} ChunksRead(ds: seq<string>, t: string)
    requires Sized(ds)
    ensures Decode(Chunks(ds) + t) == Prepend(Concat(ds), Decode(t))
  {
    if ds == [] {
      assert "" + t == t;
    } else {
      ChunksRead(ds[1..], t);
      var more := Chunks(ds[1..]) + t;
      FirstChunk(ds, t);
      AnyRead(ds[0], more);
      PrependTwice(ds[0], Concat(ds[1..]), Decode(t));
    }
  }

  lemma FirstChunk(ds: seq<string>, t: string)
    requires ds != []
    ensures Chunks(ds) + t == ChunkOf(ds[0]) + (Chunks(ds[1..]) + t)
  {
  }

  lemma AnyRead(d: string, more: string)
    requires |d| < ULONG_MAX
    ensures Decode(ChunkOf(d) + more) == Prepend(d, Decode(more))
  {
    if d == "" {
      assert "" + more == more && "" + Decode(more).out == Decode(more).out;
    } else {
      FrameRead(d, more);
    }
  }

  /**
    Chunked round trip: what a provider wrote is read back whole exactly when it says
    it is done before a call of its ends with an empty write; bytes after the end
    marker are left alone.  Otherwise the reader sees a truncated stream.
   */
  lemma {:induction false} ChunkedRoundTrip(calls: seq<Call>, next: string)
    requires forall i :: 0 <= i < |calls| ==> Sized(calls[i].writes)
    ensures Finishes(calls) ==> Decode(Written(calls) + next) == Decoded(true, Payload(calls), next)
    ensures !Finishes(calls) ==> !Decode(Written(calls)).ok && Decode(Written(calls)).out == Payload(calls)
  {
    if calls != [] {
      var c := calls[0];
      if c.done {
        assert Written(calls) + next == Chunks(c.writes) + (END + next);
        ChunksRead(c.writes, END + next);
        EndRead(next);
      } else if StopsShort(c) {
        assert Chunks(c.writes) + "" == Chunks(c.writes);
        ChunksRead(c.writes, "");
      } else {
        ChunkedRoundTrip(calls[1..], next);
        ChunksThen(c.writes, Written(calls[1..]), next);
      }
    }
  }

  lemma ChunksThen(ds: seq<string>, more: string, next: string)
    requires Sized(ds)
    ensures Decode((Chunks(ds) + more) + next) == Prepend(Concat(ds), Decode(more + next))
    ensures Decode(Chunks(ds) + more) == Prepend(Concat(ds), Decode(more))
  {
    Assoc(Chunks(ds), more, next);
    ChunksRead(ds, more + next);
    ChunksRead(ds, more);
  }

  // ----- what any sender may write -----

  /** A chunk length as some sender writes it: space, digits in either case with zeros before them, an extension. */
  datatype LengthLine = LengthLine(space: string, digits: seq<(nat, bool)>, ext: string)

  /** An extension starts with a semicolon or a blank (section 7.1.1 of RFC 9112). */
  predicate ValidLength(l: LengthLine) {
    && (forall c :: c in l.space ==> IsSpace(c) && c != '\n')
    && l.digits != [] && (forall d :: d in l.digits ==> d.0 < 16)
    && (l.ext == "" || ((l.ext[0] == ';' || IsBlank(l.ext[0])) && '\n' !in l.ext))
  }

  function DigitText(ds: seq<(nat, bool)>): string
    requires forall d :: d in ds ==> d.0 < 16
  {
    if ds == [] then "" else [Url.HexDigit(ds[0].0, ds[0].1)] + DigitText(ds[1..])
  }

  /** The number that the digits stand for, continuing acc. */
  function Number(ds: seq<(nat, bool)>, acc: nat): nat {
    if ds == [] then acc else Number(ds[1..], acc * 16 + ds[0].0)
  }

  function LengthText(l: LengthLine): string
    requires ValidLength(l)
  {
    l.space + (DigitText(l.digits) + (l.ext + "\r"))
  }

  lemma {:induction false} DigitTextIs(ds: seq<(nat, bool)>, t: string, acc: nat)
    requires (forall d :: d in ds ==> d.0 < 16) && t != "" && !IsHex(t[0])
    ensures Digits(DigitText(ds) + t, acc) == Number(ds, acc)
    decreases |ds|
  {
    if ds == [] {
      assert "" + t == t;
    } else {
      var d, more := ds[0], DigitText(ds[1..]);
      assert d in ds && forall x :: x in ds[1..] ==> x in ds;
      DigitTextIs(ds[1..], t, acc * 16 + d.0);
      HexDigitValue(d.0, d.1);
      FirstDigit(Url.HexDigit(d.0, d.1), more + t, acc);
      Assoc([Url.HexDigit(d.0, d.1)], more, t);
    }
  }

  lemma FirstDigit(c: char, u: string, acc: nat)
    requires IsHex(c)
    ensures Digits([c] + u, acc) == Digits(u, acc * 16 + HexValue(c))
  {
    assert ([c] + u)[1..] == u;
  }

  lemma HexDigitShape(v: nat, low: bool)
    requires v < 16
    ensures var c := Url.HexDigit(v, low); IsHex(c) && !IsSpace(c) && c != '-' && c != '+' && c != 'x' && c != 'X'
  {
    HexDigitValue(v, low);
  }

  lemma FirstDigits(ds: seq<(nat, bool)>, t: string)
    requires ds != [] && (forall d :: d in ds ==> d.0 < 16) && t != "" && t[0] != 'x' && t[0] != 'X'
    ensures NumberStarts(DigitText(ds) + t)
  {
    assert ds[0] in ds;
    HexDigitShape(ds[0].0, ds[0].1);
    var more := DigitText(ds[1..]) + t;
    assert DigitText(ds) + t == [Url.HexDigit(ds[0].0, ds[0].1)] + more;
    if |ds| > 1 {
      SecondDigit(ds[1..], t);
    } else {
      assert ds[1..] == [] && more == t;
    }
  }

  lemma SecondDigit(ds: seq<(nat, bool)>, t: string)
    requires ds != [] && forall d :: d in ds ==> d.0 < 16
    ensures var s := DigitText(ds) + t; s != "" && s[0] != 'x' && s[0] != 'X'
  {
    assert ds[0] in ds;
    HexDigitShape(ds[0].0, ds[0].1);
  }

  /** A number without sign or prefix. */
  predicate NumberStarts(s: string) {
    s != "" && IsHex(s[0]) && !HasHexPrefix(s) && !IsSpace(s[0]) && s[0] != '-' && s[0] != '+'
  }

  lemma {:induction false} SkipsSpace(w: string, s: string)
    requires (forall c :: c in w ==> IsSpace(c)) && s != "" && !IsSpace(s[0])
    ensures SkipSpace(w + s) == s
  {
    if w == "" {
      assert w + s == s;
    } else {
      assert w[0] in w && (w + s)[1..] == w[1..] + s;
      SkipsSpace(w[1..], s);
    }
  }

  /** Such a line is read as the number its digits stand for. */
  lemma LengthRead(l: LengthLine)
    requires ValidLength(l) && Number(l.digits, 0) < ULONG_MAX
    ensures Strtoul(LengthText(l) + "\n") == Some(Number(l.digits, 0))
  {
    var t := l.ext + "\r" + "\n";
    assert t[0] == (if l.ext == "" then '\r' else l.ext[0]);
    var s := DigitText(l.digits) + t;
    assert LengthText(l) + "\n" == l.space + s;
    FirstDigits(l.digits, t);
    SkipsSpace(l.space, s);
    DigitTextIs(l.digits, t, 0);
  }

  lemma LengthOneLine(l: LengthLine)
    requires ValidLength(l)
    ensures '\n' !in LengthText(l)
  {
    DigitsNoBreak(l.digits);
  }

  lemma {:induction false} DigitsNoBreak(ds: seq<(nat, bool)>)
    requires forall d :: d in ds ==> d.0 < 16
    ensures '\n' !in DigitText(ds)
  {
    if ds != [] {
      assert ds[0] in ds;
      HexDigitValue(ds[0].0, ds[0].1);
      DigitsNoBreak(ds[1..]);
    }
  }

  datatype Frame = Frame(length: LengthLine, data: string)

  predicate ValidFrame(f: Frame) {
    ValidLength(f.length) && Number(f.length.digits, 0) == |f.data| < ULONG_MAX && f.data != ""
  }

  predicate AllFrames(fs: seq<Frame>) { forall i :: 0 <= i < |fs| ==> ValidFrame(fs[i]) }

  function FramesText(fs: seq<Frame>): string
    requires AllFrames(fs)
  {
    if fs == [] then "" else LengthText(fs[0].length) + "\n" + (fs[0].data + CRLF) + FramesText(fs[1..])
  }

  function FramesData(fs: seq<Frame>): string {
    if fs == [] then "" else fs[0].data + FramesData(fs[1..])
  }

  lemma AnyFrameRead(f: Frame, t: string)
    requires ValidFrame(f)
    ensures Decode(LengthText(f.length) + "\n" + (f.data + (CRLF + t))) == Prepend(f.data, Decode(t))
  {
    LengthRead(f.length);
    LengthOneLine(f.length);
    DecodeSplit(LengthText(f.length), f.data + (CRLF + t));
    FrameBody(LengthText(f.length) + "\n", f.data, t);
  }

  lemma FrameRegroup(h: string, d: string, more: string, t: string)
    ensures h + (d + CRLF) + more + t == h + (d + (CRLF + (more + t)))
  {
  }

  lemma {:induction false} FramesRead(fs: seq<Frame>, t: string)
    requires AllFrames(fs)
    ensures Decode(FramesText(fs) + t) == Prepend(FramesData(fs), Decode(t))
    decreases |fs|
  {
    if fs == [] {
      assert "" + t == t && "" + Decode(t).out == Decode(t).out;
    } else {
      FramesRead(fs[1..], t);
      FrameRegroup(LengthText(fs[0].length) + "\n", fs[0].data, FramesText(fs[1..]), t);
      AnyFrameRead(fs[0], FramesText(fs[1..]) + t);
      PrependTwice(fs[0].data, FramesData(fs[1..]), Decode(t));
    }
  }

  /** Fields of the trailer section, each on a line of its own. */
  function TrailerText(fields: seq<string>): string {
    if fields == [] then "" else fields[0] + "\r" + "\n" + TrailerText(fields[1..])
  }

  predicate IsField(f: string) { f != "" && '\n' !in f }

  /** The trailer section is skipped exactly if none of its lines is too long. */
  lemma {:induction false} TrailerSkippedIff(fields: seq<string>, rest: string)
    requires forall f :: f in fields ==> IsField(f)
    ensures SkipTrailer(TrailerText(fields) + (CRLF + rest)) ==
            if forall f :: f in fields ==> |f| + 2 <= HEADER_MAX_LENGTH then Some(rest) else None
    decreases |fields|
  {
    var end := CRLF + rest;
    if fields == [] {
      assert "" + end == end;
      CrlfLine(rest);
    } else {
      var f, more := fields[0], TrailerText(fields[1..]) + end;
      assert f in fields && fields == [f] + fields[1..];
      assert TrailerText(fields) + end == f + "\r" + "\n" + more;
      FieldSkipped(f, more);
      TrailerSkippedIff(fields[1..], rest);
    }
  }

  lemma FieldSkipped(f: string, more: string)
    requires IsField(f)
    ensures SkipTrailer(f + "\r" + "\n" + more) == if |f| + 2 <= HEADER_MAX_LENGTH then SkipTrailer(more) else None
  {
    var l := f + "\r";
    assert '\n' !in l;
    LineEnds(l, more);
    assert |l + "\n"| == |f| + 2 && (l + "\n") != CRLF;
    assert AfterLine(l + "\n" + more) == more;
  }

  /**
    Whatever the sender: lengths with extensions, in either case and with zeros before them,
    any frames, and a trailer with any fields.  The payload is read whole and the rest is
    left alone exactly if no field is too long.
   */
  lemma AnySenderRead(fs: seq<Frame>, last: LengthLine, fields: seq<string>, rest: string)
    requires AllFrames(fs) && ValidLength(last) && Number(last.digits, 0) == 0
    requires forall f :: f in fields ==> IsField(f)
    ensures Decode(FramesText(fs) + (LengthText(last) + "\n" + (TrailerText(fields) + (CRLF + rest)))) ==
            if forall f :: f in fields ==> |f| + 2 <= HEADER_MAX_LENGTH then Decoded(true, FramesData(fs), rest)
            else Bad(FramesData(fs))
  {
    var tail := TrailerText(fields) + (CRLF + rest);
    FramesRead(fs, LengthText(last) + "\n" + tail);
    LengthRead(last);
    LengthOneLine(last);
    DecodeSplit(LengthText(last), tail);
    TrailerSkippedIff(fields, rest);
    assert FramesData(fs) + "" == FramesData(fs);
  }
}
