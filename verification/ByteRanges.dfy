/**
  Several ranges in one response, as multipart/byteranges (section 14.6 of RFC 9110).
  The same walk over the ranges is made twice: before the header is sent, to count the
  bytes for Content-Length, and then to write them.
 */
module ByteRanges {
  import opened Text
  import opened Streams
  import opened RangeHeader
  import opened MultipartSpec
  import opened MultipartParser
  import opened MultipartRoundTrip
  import opened MultipartHeaders
  import Transfer

  /** What is the same for all parts of a response; n is the content length. */
  datatype Plan = Plan(boundary: string, contentType: string, n: nat)

  predicate ValidPlan(p: Plan) { p.n < SSIZE }

  function TypeLine(p: Plan): string {
    if p.contentType == "" then "" else "Content-Type: " + p.contentType + CRLF
  }

  function Head(p: Plan, r: Range): string
    requires ValidPlan(p) && ValidRange(r)
  {
    "--" + p.boundary + CRLF + TypeLine(p) + "Content-Range: " + ContentRange(r, p.n) + CRLF + CRLF
  }

  /** One part: the head and the slice of the content that the range means. */
  ghost function PartText(p: Plan, content: string, r: Range): string
    requires ValidPlan(p) && ValidRange(r)
  {
    var (off, len) := OffsetAndLength(r, p.n);
    Head(p, r) + Transfer.Slice(content, off, len) + CRLF
  }

  ghost function Parts(p: Plan, content: string, rs: seq<Range>): string
    requires ValidPlan(p) && AllValid(rs)
  {
    if rs == [] then "" else Parts(p, content, rs[..|rs| - 1]) + PartText(p, content, rs[|rs| - 1])
  }

  function Closing(p: Plan): string { "--" + p.boundary + "--" }

  ghost function Body(p: Plan, content: string, rs: seq<Range>): string
    requires ValidPlan(p) && AllValid(rs)
  {
    Parts(p, content, rs) + Closing(p)
  }

  lemma PartsStep(p: Plan, content: string, rs: seq<Range>, i: nat)
    requires ValidPlan(p) && AllValid(rs) && i < |rs|
    ensures AllValid(rs[..i]) && AllValid(rs[..i + 1]) && ValidRange(rs[i])
    ensures Parts(p, content, rs[..i + 1]) == Parts(p, content, rs[..i]) + PartText(p, content, rs[i])
  {
    assert rs[..i + 1][..i] == rs[..i];
  }

  /** Every range of the list stays within the content. */
  predicate AllWithin(rs: seq<Range>, n: nat) { forall r :: r in rs ==> Within(r, n) }

  // ----- counting -----

  function Length(p: Plan, r: Range): nat
    requires ValidPlan(p) && ValidRange(r)
  {
    |Head(p, r)| + OffsetAndLength(r, p.n).1 + |CRLF|
  }

  function Total(p: Plan, rs: seq<Range>): nat
    requires ValidPlan(p) && AllValid(rs)
  {
    if rs == [] then 0 else Total(p, rs[..|rs| - 1]) + Length(p, rs[|rs| - 1])
  }

  lemma TotalStep(p: Plan, rs: seq<Range>, i: nat)
    requires ValidPlan(p) && AllValid(rs) && i < |rs|
    ensures Total(p, rs[..i + 1]) == Total(p, rs[..i]) + Length(p, rs[i])
  {
    assert rs[..i + 1][..i] == rs[..i];
  }

  /** Token by token, without the content. */
  method PartLength(p: Plan, r: Range) returns (n: nat)
    requires ValidPlan(p) && ValidRange(r)
    ensures n == Length(p, r)
  {
    n := |"--"| + |p.boundary| + |CRLF|;
    if p.contentType != "" { n := n + |"Content-Type: "| + |p.contentType| + |CRLF|; }
    n := n + |"Content-Range: "| + |ContentRange(r, p.n)| + |CRLF| + |CRLF|;
    n := n + OffsetAndLength(r, p.n).1 + |CRLF|;
  }

  /** In unsigned 64-bit arithmetic. */
  method DataLength(p: Plan, rs: seq<Range>) returns (n: nat)
    requires ValidPlan(p) && AllValid(rs)
    ensures n == (Total(p, rs) + |Closing(p)|) % SIZE
  {
    n := 0;
    var i := 0;
    assert rs[..0] == [];
    while i < |rs|
      invariant i <= |rs| && Counted(p, rs, i, n)
    {
      n := CountPart(p, rs, i, n);
      i := i + 1;
    }
    assert rs[..i] == rs;
    n := Plus(n, |Closing(p)|, Total(p, rs));
  }

  method CountPart(p: Plan, rs: seq<Range>, i: nat, n: nat) returns (n': nat)
    requires ValidPlan(p) && AllValid(rs) && i < |rs| && Counted(p, rs, i, n)
    ensures Counted(p, rs, i + 1, n')
  {
    ghost var all, next := Total(p, rs[..i]), Total(p, rs[..i + 1]);
    var k := NextLength(p, rs, i, all, next);
    n' := Plus(n, k, all);
    CountedAt(p, rs, i + 1, n', next);
  }

  method NextLength(p: Plan, rs: seq<Range>, i: nat, ghost all: nat, ghost next: nat) returns (k: nat)
    requires ValidPlan(p) && AllValid(rs) && i < |rs| && all == Total(p, rs[..i]) && next == Total(p, rs[..i + 1])
    ensures next == all + k
  {
    k := PartLength(p, rs[i]);
    TotalStep(p, rs, i);
  }

  lemma CountedAt(p: Plan, rs: seq<Range>, i: nat, n: nat, all: nat)
    requires ValidPlan(p) && AllValid(rs) && i <= |rs| && all == Total(p, rs[..i]) && Wraps(n, all)
    ensures Counted(p, rs, i, n)
  {
  }

  ghost predicate Counted(p: Plan, rs: seq<Range>, i: nat, n: nat)
    requires ValidPlan(p) && AllValid(rs)
  {
    i <= |rs| && Wraps(n, Total(p, rs[..i]))
  }

  ghost predicate Wraps(n: nat, all: nat) { n == all % SIZE }

  method Plus(n: nat, k: nat, ghost all: nat) returns (r: nat)
    requires Wraps(n, all)
    ensures Wraps(r, all + k)
  {
    AddWraps(all, k);
    return (n + k) % SIZE;
  }

  lemma AddWraps(a: nat, k: nat)
    ensures (a % SIZE + k) % SIZE == (a + k) % SIZE
  {
    var q := a / SIZE;
    assert a == q * SIZE + a % SIZE;
    ModPlus(a % SIZE + k, q);
  }

  lemma ModPlus(x: nat, q: nat)
    ensures (x + q * SIZE) % SIZE == x % SIZE
  {
    if q > 0 {
      ModPlus(x, q - 1);
      assert x + q * SIZE == (x + (q - 1) * SIZE) + SIZE;
      OnePlus(x + (q - 1) * SIZE);
    }
  }

  lemma OnePlus(y: nat)
    ensures (y + SIZE) % SIZE == y % SIZE
  {
  }

  /** Bytes counted for a range that the content does not have; 64-bit when it starts beyond the end and has no last. */
  function Missing(r: Range, n: nat): nat
    requires ValidRange(r) && n < SSIZE
  {
    if Within(r, n) then 0 else if r.last != -1 then r.last + 1 - Max(r.first, n) else SIZE - (r.first - n)
  }

  function AllMissing(rs: seq<Range>, n: nat): nat
    requires AllValid(rs) && n < SSIZE
  {
    if rs == [] then 0 else AllMissing(rs[..|rs| - 1], n) + Missing(rs[|rs| - 1], n)
  }

  lemma PartMissing(p: Plan, content: string, r: Range)
    requires ValidPlan(p) && ValidRange(r) && p.n == |content|
    ensures Length(p, r) == |PartText(p, content, r)| + Missing(r, p.n)
    ensures Missing(r, p.n) == 0 <==> Within(r, p.n)
  {
    SliceIsSelection(r, p.n);
    LengthOf(r, p.n);
  }

  /** What is counted is what goes out and what is missing. */
  lemma {:induction false} TotalIs(p: Plan, content: string, rs: seq<Range>)
    requires ValidPlan(p) && AllValid(rs) && p.n == |content|
    ensures Total(p, rs) == |Parts(p, content, rs)| + AllMissing(rs, p.n)
    ensures AllMissing(rs, p.n) == 0 <==> AllWithin(rs, p.n)
  {
    if rs != [] {
      var init, r := rs[..|rs| - 1], rs[|rs| - 1];
      assert rs == init + [r];
      TotalIs(p, content, init);
      PartMissing(p, content, r);
      assert AllWithin(rs, p.n) <==> AllWithin(init, p.n) && Within(r, p.n);
    }
  }

  /** The length counted is the length of the body, just when every range stays within the content. */
  lemma LengthAgreesIff(p: Plan, content: string, rs: seq<Range>)
    requires ValidPlan(p) && AllValid(rs) && p.n == |content|
    ensures |Body(p, content, rs)| == Total(p, rs) + |Closing(p)| <==> AllWithin(rs, p.n)
  {
    TotalIs(p, content, rs);
  }

  /** An unsigned 64-bit length. */
  ghost predicate Announces(n: nat, body: string) { n == |body| % SIZE }

  /** In 64-bit arithmetic what is missing may add up to nothing; otherwise the length announced is wrong. */
  lemma AnnouncedIff(p: Plan, content: string, rs: seq<Range>)
    requires ValidPlan(p) && AllValid(rs) && p.n == |content|
    ensures Announces((Total(p, rs) + |Closing(p)|) % SIZE, Body(p, content, rs)) <==> AllMissing(rs, p.n) % SIZE == 0
  {
    TotalIs(p, content, rs);
    AnnouncedNumbers(|Parts(p, content, rs)|, |Closing(p)|, AllMissing(rs, p.n), Total(p, rs), Body(p, content, rs));
  }

  lemma AnnouncedNumbers(parts: nat, closing: nat, missing: nat, total: nat, body: string)
    requires total == parts + missing && |body| == parts + closing
    ensures Announces((total + closing) % SIZE, body) <==> missing % SIZE == 0
  {
    SameModIff(parts + closing, missing);
    assert total + closing == parts + closing + missing;
  }

  lemma SameModIff(a: nat, m: nat)
    ensures (a + m) % SIZE == a % SIZE <==> m % SIZE == 0
  {
    var q, r := m / SIZE, m % SIZE;
    assert a + m == (a + r) + q * SIZE;
    ModPlus(a + r, q);
    AddWraps(a, r);
    var b := a % SIZE;
    if b + r < SIZE {
      SmallMod(b + r);
    } else {
      SmallMod(b + r - SIZE);
    }
  }

  // ----- writing -----

  method WriteDelimiter(wire: Wire, boundary: string, last: string)
    modifies wire
    ensures wire.failures == old(wire.failures) && wire.spoilt >= old(wire.spoilt)
    ensures wire.spoilt == old(wire.spoilt) ==> wire.sent == old(wire.sent) + ("--" + boundary + last)
  {
    wire.WriteBlindly("--");
    wire.WriteBlindly(boundary);
    wire.WriteBlindly(last);
  }

  method WriteField(wire: Wire, name: string, value: string)
    modifies wire
    ensures wire.failures == old(wire.failures) && wire.spoilt >= old(wire.spoilt)
    ensures wire.spoilt == old(wire.spoilt) ==> wire.sent == old(wire.sent) + (name + value + CRLF)
  {
    wire.WriteBlindly(name);
    wire.WriteBlindly(value);
    wire.WriteBlindly(CRLF);
  }

  method WriteHead(wire: Wire, p: Plan, r: Range)
    requires ValidPlan(p) && ValidRange(r)
    modifies wire
    ensures wire.failures == old(wire.failures) && wire.spoilt >= old(wire.spoilt)
    ensures wire.spoilt == old(wire.spoilt) ==> wire.sent == old(wire.sent) + Head(p, r)
  {
    ghost var before, spoilt := wire.sent, wire.spoilt;
    WriteDelimiter(wire, p.boundary, CRLF);
    if p.contentType != "" { WriteField(wire, "Content-Type: ", p.contentType); }
    ghost var mid := wire.sent;
    assert wire.spoilt == spoilt ==> mid == before + ("--" + p.boundary + CRLF) + TypeLine(p);
    WriteField(wire, "Content-Range: ", ContentRange(r, p.n));
    wire.WriteBlindly(CRLF);
    HeadIs(p, r, before);
  }

  lemma HeadIs(p: Plan, r: Range, before: string)
    requires ValidPlan(p) && ValidRange(r)
    ensures before + ("--" + p.boundary + CRLF) + TypeLine(p) + ("Content-Range: " + ContentRange(r,
            p.n) + CRLF) + CRLF ==
            before + Head(p, r)
  {
    HeadGroups(before, "--" + p.boundary + CRLF, TypeLine(p), "Content-Range: ", ContentRange(r, p.n));
  }

  lemma HeadGroups(a: string, b: string, c: string, d: string, e: string)
    ensures a + b + c + (d + e + CRLF) + CRLF == a + (b + c + d + e + CRLF + CRLF)
  {
  }

  /** What the writer can get from the content: a range with a last position must end within it. */
  predicate Servable(r: Range, n: nat) { r.first == -1 || r.last == -1 || r.last < n }

  predicate AllServable(rs: seq<Range>, n: nat) { forall r :: r in rs ==> Servable(r, n) }

  /** The slice of a part is what the content loop sends, and there is all of it just when the range is servable. */
  lemma ServedIs(content: string, r: Range)
    requires ValidRange(r) && |content| < SSIZE
    ensures var (off, len) := OffsetAndLength(r, |content|);
            off < SIZE && len < SIZE &&
            Transfer.Slice(content, off, Transfer.Served(off, len)) == Transfer.Slice(content, off, len) &&
            (Transfer.InFile(content, off, Transfer.Served(off, len)) <==> Servable(r, |content|))
  {
    LengthOf(r, |content|);
  }

  /**
    One part; a failure of the content stops the walk, a failure of a token does not.
    While the server is up it succeeds exactly if the content did not fail and the range
    is servable.
   */
  method WritePart(wire: Wire, file: Transfer.RemoteFile, p: Plan, r: Range, maxRead: nat, negotiated: nat,
                   svr: Shutdown)
    returns (ok: bool)
    requires ValidPlan(p) && ValidRange(r) && p.n == |file.content| && maxRead > 0
    modifies wire, file, svr
    ensures wire.spoilt >= old(wire.spoilt) && svr.seen >= old(svr.seen)
    ensures ok <==> wire.failures == old(wire.failures) && file.failures == old(file.failures) &&
                    (Servable(r, p.n) || svr.seen > old(svr.seen))
    ensures ok && svr.seen == old(svr.seen) && wire.spoilt == old(wire.spoilt) ==>
              wire.sent == old(wire.sent) + PartText(p, file.content, r)
  {
    ghost var before, content := wire.sent, file.content;
    WriteHead(wire, p, r);
    var off, len := OffsetAndLength(r, p.n).0, OffsetAndLength(r, p.n).1;
    ServedIs(content, r);
    var error, calls;
    ok, error, calls := Transfer.WriteContent(wire, file, off, len, maxRead, negotiated, svr);
    if !ok { return; }
    wire.WriteBlindly(CRLF);
    AssocFour(before, Head(p, r), Transfer.Slice(content, off, len), CRLF);
  }

  method WriteParts(wire: Wire, file: Transfer.RemoteFile, p: Plan, rs: seq<Range>, maxRead: nat, negotiated: nat,
                    svr: Shutdown)
    returns (ok: bool)
    requires ValidPlan(p) && AllValid(rs) && p.n == |file.content| && maxRead > 0
    modifies wire, file, svr
    ensures wire.spoilt >= old(wire.spoilt) && svr.seen >= old(svr.seen)
    ensures ok ==> wire.failures == old(wire.failures) && file.failures == old(file.failures)
    ensures svr.seen == old(svr.seen) ==>
              (ok <==> wire.failures == old(wire.failures) && file.failures == old(file.failures) &&
                       AllServable(rs, p.n))
    ensures ok && svr.seen == old(svr.seen) && wire.spoilt == old(wire.spoilt) ==>
              wire.sent == old(wire.sent) + Parts(p, file.content, rs)
  {
    ghost var before, content := wire.sent, file.content;
    ghost var spoilt, seen := wire.spoilt, svr.seen;
    assert rs[..0] == [];
    var i := 0;
    while i < |rs|
      invariant i <= |rs| && wire.spoilt >= spoilt && svr.seen >= seen
      invariant wire.failures == old(wire.failures) && file.failures == old(file.failures)
      invariant svr.seen == seen ==> AllServable(rs[..i], p.n)
      invariant svr.seen == seen && wire.spoilt == spoilt ==> Written(before, wire.sent, p, content, rs, i)
    {
      ghost var mid := wire.sent;
      ok := WritePart(wire, file, p, rs[i], maxRead, negotiated, svr);
      if !ok { return; }
      if svr.seen == seen && wire.spoilt == spoilt {
        WrittenStep(before, mid, wire.sent, p, content, rs, i);
      }
      assert rs[..i + 1] == rs[..i] + [rs[i]];
      i := i + 1;
    }
    assert rs[..i] == rs;
    return true;
  }

  /** The first i parts went out. */
  ghost predicate Written(before: string, now: string, p: Plan, content: string, rs: seq<Range>, i: nat)
    requires ValidPlan(p) && AllValid(rs)
  {
    i <= |rs| && now == before + Parts(p, content, rs[..i])
  }

  lemma WrittenStep(before: string, mid: string, now: string, p: Plan, content: string, rs: seq<Range>, i: nat)
    requires ValidPlan(p) && AllValid(rs) && i < |rs| && Written(before, mid, p, content, rs, i)
    requires now == mid + PartText(p, content, rs[i])
    ensures Written(before, now, p, content, rs, i + 1)
  {
    PartsStep(p, content, rs, i);
    Assoc(before, Parts(p, content, rs[..i]), PartText(p, content, rs[i]));
  }

  /**
    While the server is up it succeeds exactly if the content did not fail and every range
    is servable; if moreover no token was spoilt, the body went out, and the length
    announced before is its length exactly if what the ranges miss adds up to nothing.
   */
  method WriteRanges(wire: Wire, file: Transfer.RemoteFile, p: Plan, rs: seq<Range>, maxRead: nat, negotiated: nat,
                     svr: Shutdown)
    returns (announced: nat, ok: bool)
    requires ValidPlan(p) && AllValid(rs) && p.n == |file.content| && maxRead > 0
    modifies wire, file, svr
    ensures Announces(announced, Body(p, file.content, rs)) <==> AllMissing(rs, p.n) % SIZE == 0
    ensures svr.seen == old(svr.seen) ==>
              (ok <==> wire.failures == old(wire.failures) && file.failures == old(file.failures) &&
                       AllServable(rs, p.n))
    ensures ok && svr.seen == old(svr.seen) && wire.spoilt == old(wire.spoilt) ==>
              wire.sent == old(wire.sent) + Body(p, file.content, rs)
  {
    ghost var before, content := wire.sent, file.content;
    announced := DataLength(p, rs);
    AnnouncedIff(p, content, rs);
    ok := WriteParts(wire, file, p, rs, maxRead, negotiated, svr);
    if !ok { return; }
    WriteDelimiter(wire, p.boundary, "--");
    Assoc(before, Parts(p, content, rs), Closing(p));
  }

  /** A last range that starts beyond the end and names no last position is served, under a length that is wrong. */
  lemma OpenBeyondEnd(rs: seq<Range>, r: Range, n: nat)
    requires AllValid(rs) && ValidRange(r) && n < SSIZE && AllWithin(rs, n) && r.last == -1 && r.first > n
    ensures AllServable(rs + [r], n) && AllMissing(rs + [r], n) % SIZE != 0
  {
    var all := rs + [r];
    assert all[..|all| - 1] == rs && all[|all| - 1] == r;
    NoneMissing(rs, n);
    SmallMod(SIZE - (r.first - n));
  }

  lemma {:induction false} NoneMissing(rs: seq<Range>, n: nat)
    requires AllValid(rs) && n < SSIZE && AllWithin(rs, n)
    ensures AllMissing(rs, n) == 0
  {
    if rs != [] {
      NoneMissing(rs[..|rs| - 1], n);
    }
  }

  // ----- reading the body -----

  /** The header lines of a part. */
  function HeadLines(p: Plan, r: Range): seq<string>
    requires ValidPlan(p) && ValidRange(r)
  {
    (if p.contentType == "" then [] else ["Content-Type: " + p.contentType]) +
    ["Content-Range: " + ContentRange(r, p.n)]
  }

  ghost function SliceOf(p: Plan, content: string, r: Range): string
    requires ValidPlan(p) && ValidRange(r)
  {
    var (off, len) := OffsetAndLength(r, p.n);
    Transfer.Slice(content, off, len)
  }

  ghost function EntryOf(p: Plan, content: string, r: Range): Entry
    requires ValidPlan(p) && ValidRange(r)
  {
    Entry.Entry(HeadLines(p, r), SliceOf(p, content, r))
  }

  ghost function EntriesOf(p: Plan, content: string, rs: seq<Range>): (es: seq<Entry>)
    requires ValidPlan(p) && AllValid(rs)
    ensures |es| == |rs| && forall i :: 0 <= i < |rs| ==> es[i] == EntryOf(p, content, rs[i])
  {
    if rs == [] then [] else [EntryOf(p, content, rs[0])] + EntriesOf(p, content, rs[1..])
  }

  lemma HeadText(p: Plan, r: Range)
    requires ValidPlan(p) && ValidRange(r)
    ensures Head(p, r) == "--" + p.boundary + (CRLF + (LinesText(HeadLines(p, r)) + CRLF))
  {
    HeadLinesText(p, r);
    HeadRegroup("--" + p.boundary, TypeLine(p), "Content-Range: ", ContentRange(r, p.n));
  }

  lemma HeadLinesText(p: Plan, r: Range)
    requires ValidPlan(p) && ValidRange(r)
    ensures LinesText(HeadLines(p, r)) == TypeLine(p) + ("Content-Range: " + ContentRange(r, p.n) + CRLF)
  {
    var t, c := "Content-Type: " + p.contentType, "Content-Range: " + ContentRange(r, p.n);
    if p.contentType == "" {
      var none: seq<string> := [];
      assert none + [c] == [c] && "" + (c + CRLF) == c + CRLF;
      OneLine(c);
    } else {
      assert [t] + [c] == [t, c];
      TwoLines(t, c);
    }
  }

  lemma OneLine(c: string)
    ensures LinesText([c]) == c + CRLF
  {
    assert [c][1..] == [];
  }

  lemma TwoLines(t: string, c: string)
    ensures LinesText([t, c]) == t + CRLF + (c + CRLF)
  {
    assert [t, c][1..] == [c];
    OneLine(c);
  }

  lemma HeadRegroup(dash: string, t: string, a: string, b: string)
    ensures dash + CRLF + t + a + b + CRLF + CRLF == dash + (CRLF + ((t + (a + b + CRLF)) + CRLF))
  {
  }

  lemma PartRegroup(dash: string, lines: string, slice: string, more: string)
    ensures (dash + (CRLF + (lines + CRLF))) + slice + CRLF + (dash + more) ==
            dash + (CRLF + (lines + (CRLF + (slice + ((CRLF + dash) + more)))))
  {
  }

  lemma PartsSnoc(p: Plan, content: string, init: seq<Range>, r: Range)
    requires ValidPlan(p) && AllValid(init) && ValidRange(r)
    ensures Parts(p, content, init + [r]) == Parts(p, content, init) + PartText(p, content, r)
  {
    assert (init + [r])[..|init|] == init;
  }

  lemma {:induction false} PartsCons(p: Plan, content: string, r: Range, rs: seq<Range>)
    requires ValidPlan(p) && AllValid(rs) && ValidRange(r)
    ensures Parts(p, content, [r] + rs) == PartText(p, content, r) + Parts(p, content, rs)
    decreases |rs|
  {
    var none: seq<Range> := [];
    if rs == [] {
      PartsSnoc(p, content, none, r);
      assert none + [r] == [r] + rs;
      Unit(PartText(p, content, r));
    } else {
      var init, last := rs[..|rs| - 1], rs[|rs| - 1];
      assert rs == init + [last];
      PartsCons(p, content, r, init);
      Assoc([r], init, [last]);
      PartsSnoc(p, content, [r] + init, last);
      PartsSnoc(p, content, init, last);
      Assoc(PartText(p, content, r), Parts(p, content, init), PartText(p, content, last));
    }
  }

  lemma Unit(s: string)
    ensures "" + s == s && s + "" == s
  {
  }

  /** The body has the form that the multipart reader expects, with nothing behind the closing delimiter. */
  lemma {:induction false} BodyIsMultipart(p: Plan, content: string, rs: seq<Range>)
    requires ValidPlan(p) && AllValid(rs)
    ensures Body(p, content, rs) == BodyOf(p.boundary, EntriesOf(p, content, rs), "")
    decreases |rs|
  {
    if rs == [] {
      Ending(p.boundary);
    } else {
      BodyIsMultipart(p, content, rs[1..]);
      assert rs == [rs[0]] + rs[1..];
      MultipartCons(p, content, rs[0], rs[1..]);
    }
  }

  lemma Ending(b: string)
    ensures "" + ("--" + b + "--") == "--" + b + ("--" + "")
  {
  }

  lemma EntriesOfCons(p: Plan, content: string, r: Range, rs: seq<Range>)
    requires ValidPlan(p) && AllValid(rs) && ValidRange(r)
    ensures AllValid([r] + rs)
    ensures EntriesOf(p, content, [r] + rs) == [EntryOf(p, content, r)] + EntriesOf(p, content, rs)
  {
    var all := [r] + rs;
    assert all[0] == r && all[1..] == rs;
  }

  lemma MultipartCons(p: Plan, content: string, r: Range, rs: seq<Range>)
    requires ValidPlan(p) && AllValid(rs) && ValidRange(r)
    requires Body(p, content, rs) == BodyOf(p.boundary, EntriesOf(p, content, rs), "")
    ensures AllValid([r] + rs)
    ensures Body(p, content, [r] + rs) == BodyOf(p.boundary, EntriesOf(p, content, [r] + rs), "")
  {
    EntriesOfCons(p, content, r, rs);
    var es := EntriesOf(p, content, rs);
    BodyCons(p, content, r, rs);
    PartIsEntry(p, content, r, EntriesText(p.boundary, es, ""));
    EntriesCons(p.boundary, EntryOf(p, content, r), es, "");
  }

  lemma EntriesCons(b: string, e: Entry, es: seq<Entry>, epilogue: string)
    ensures BodyOf(b, [e] + es, epilogue) == "--" + b + (CRLF + EntryText(b, e, EntriesText(b, es, epilogue)))
  {
    assert ([e] + es)[1..] == es;
  }

  lemma BodyCons(p: Plan, content: string, r: Range, rs: seq<Range>)
    requires ValidPlan(p) && AllValid(rs) && ValidRange(r)
    ensures AllValid([r] + rs) && Body(p, content, [r] + rs) == PartText(p, content, r) + Body(p, content, rs)
  {
    PartsCons(p, content, r, rs);
    Assoc(PartText(p, content, r), Parts(p, content, rs), Closing(p));
  }

  lemma PartIsEntry(p: Plan, content: string, r: Range, more: string)
    requires ValidPlan(p) && ValidRange(r)
    ensures PartText(p, content, r) + ("--" + p.boundary + more) ==
            "--" + p.boundary + (CRLF + EntryText(p.boundary, EntryOf(p, content, r), more))
  {
    HeadText(p, r);
    PartRegroup("--" + p.boundary, LinesText(HeadLines(p, r)), SliceOf(p, content, r), more);
    assert Delimiter(p.boundary) == CRLF + ("--" + p.boundary);
  }

  /** Nothing in what is sent looks like a line end or a delimiter too early. */
  ghost predicate Plain(p: Plan, content: string, rs: seq<Range>)
    requires ValidPlan(p) && AllValid(rs)
  {
    && Trimmed(p.contentType) && '\r' !in p.contentType && |p.contentType| < HEADER_MAX_LENGTH - 14
    && forall i :: 0 <= i < |rs| ==>
         Find(SliceOf(p, content, rs[i]) + Delimiter(p.boundary), Delimiter(p.boundary)) == |SliceOf(p, content, rs[i])|
  }

  lemma RangeLine(file: File, r: Range, n: nat)
    requires ValidRange(r) && n < SSIZE
    ensures var l := "Content-Range: " + ContentRange(r, n); HeaderLine(file, l) == Some(file) && LineOk(l)
  {
    var lo, hi := FieldPositions(r, n);
    FieldLine(file, lo, hi, n);
  }

  lemma FieldLine(file: File, lo: nat, hi: nat, n: nat)
    requires lo < SIZE && hi < SIZE && n < SIZE
    ensures var l := "Content-Range: " + RangeField(lo, hi, n); HeaderLine(file, l) == Some(file) && LineOk(l)
  {
    DecimalShape(lo);
    DecimalShape(hi);
    DecimalShape(n);
    RangeFieldLine(file, Decimal(lo), Decimal(hi), Decimal(n));
  }

  lemma RangeFieldLine(file: File, a: string, b: string, c: string)
    requires AllDigits(a) && AllDigits(b) && AllDigits(c) && c != "" && |a| <= 20 && |b| <= 20 && |c| <= 20
    ensures var l := "Content-Range: " + ("bytes " + a + "-" + b + "/" + c);
            HeaderLine(file, l) == Some(file) && LineOk(l)
  {
    var v := "bytes " + a + "-" + b + "/" + c;
    FieldValue(a, b, c);
    PlainField(file, v);
  }

  lemma FieldValue(a: string, b: string, c: string)
    requires AllDigits(a) && AllDigits(b) && AllDigits(c) && c != "" && |a| <= 20 && |b| <= 20 && |c| <= 20
    ensures var v := "bytes " + a + "-" + b + "/" + c; 0 < |v| < 100 && '\r' !in v && !IsBlank(v[|v| - 1])
  {
    var v := "bytes " + a + "-" + b + "/" + c;
    assert v[|v| - 1] == c[|c| - 1] && c[|c| - 1] in c;
    assert '\r' !in a && '\r' !in b && '\r' !in c;
    assert '\r' !in "bytes " && '\r' !in "-" && '\r' !in "/";
  }

  lemma PlainField(file: File, v: string)
    requires 0 < |v| < 100 && '\r' !in v && !IsBlank(v[|v| - 1])
    ensures var l := "Content-Range: " + v; HeaderLine(file, l) == Some(file) && LineOk(l)
  {
    var name, l := "Content-Range", "Content-Range: " + v;
    assert l == name + ":" + (" " + v);
    OtherName();
    FieldIsHeader(name, " " + v);
    OtherLine(file, name, " " + v);
    assert '\r' !in "Content-Range: ";
    NoLineEnd(l);
  }

  lemma OtherName()
    ensures ':' !in "Content-Range" && !Recased("Content-Range", DISPOSITION) && !Recased("Content-Range", TYPE)
  {
    assert |"Content-Range"| == 13 && |DISPOSITION| == 19 && |TYPE| == 12;
  }

  /** A 64-bit number has at most twenty digits. */
  lemma DecimalShape(n: nat)
    requires n < SIZE
    ensures AllDigits(Decimal(n)) && 1 <= |Decimal(n)| <= 20
  {
    DecimalRoundTrip(n);
    TwentyTens();
    DecimalLength(n, 20);
  }

  lemma {:induction false} DecimalLength(n: nat, k: nat)
    requires n < Tens(k) && k > 0
    ensures 1 <= |Decimal(n)| <= k
  {
    if n >= 10 {
      DecimalLength(n / 10, k - 1);
    }
  }

  lemma TwentyTens()
    ensures SIZE < Tens(20)
  {
    assert Tens(4) == 10_000;
    assert Tens(8) == 10_000 * Tens(4);
    assert Tens(12) == 10_000 * Tens(8);
    assert Tens(16) == 10_000 * Tens(12);
    assert Tens(20) == 10_000 * Tens(16);
  }

  function Tens(k: nat): nat { if k == 0 then 1 else 10 * Tens(k - 1) }

  lemma HeadDescribes(p: Plan, r: Range)
    requires ValidPlan(p) && ValidRange(r)
    requires Trimmed(p.contentType) && '\r' !in p.contentType && |p.contentType| < HEADER_MAX_LENGTH - 14
    ensures Described(NO_FILE, HeadLines(p, r)) == Some(File("", "", p.contentType))
    ensures forall l :: l in HeadLines(p, r) ==> LineOk(l)
  {
    var t, c := "Content-Type: " + p.contentType, "Content-Range: " + ContentRange(r, p.n);
    var f := File("", "", p.contentType);
    RangeLine(f, r, p.n);
    DescribedOne(f, c);
    if p.contentType != "" {
      TypeRead(NO_FILE, p.contentType);
      assert '\r' !in t;
      NoLineEnd(t);
      assert [t, c][1..] == [c];
    }
  }

  lemma DescribedOne(f: File, c: string)
    requires HeaderLine(f, c) == Some(f)
    ensures Described(f, [c]) == Some(f)
  {
    assert [c][1..] == [];
  }

  ghost function PartsOf(p: Plan, content: string, rs: seq<Range>): (ps: seq<Part>)
    requires ValidPlan(p) && AllValid(rs)
    ensures |ps| == |rs| && forall i :: 0 <= i < |rs| ==>
              ps[i] == Part(File("", "", p.contentType), SliceOf(p, content, rs[i]))
  {
    seq(|rs|, i requires 0 <= i < |rs| => Part(File("", "", p.contentType), SliceOf(p, content, rs[i])))
  }

  /** Read as a multipart body, it has one part a range, in order, each with the type of the content and its slice. */
  lemma BodyReads(p: Plan, content: string, rs: seq<Range>)
    requires ValidPlan(p) && AllValid(rs) && rs != [] && Plain(p, content, rs)
    ensures ReadsTo(ReadBody(p.boundary, Body(p, content, rs)), PartsOf(p, content, rs), "")
  {
    var es := EntriesOf(p, content, rs);
    forall i | 0 <= i < |es|
      ensures Legible(p.boundary, es[i]) && PartOf(p.boundary, es[i]) == PartsOf(p, content, rs)[i]
    {
      HeadDescribes(p, rs[i]);
    }
    assert AllParts(p.boundary, es) == PartsOf(p, content, rs);
    BodyIsMultipart(p, content, rs);
    ReadAnyBody(p.boundary, es, "");
  }
}
