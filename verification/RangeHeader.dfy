/**
  The Range header (section 14.1.2 of RFC 9110): printed by the client, taken apart by
  the server, and turned into an offset and a length.  -1 stands for a missing position.
 */
module RangeHeader {
  import opened Text

  const SSIZE := 0x8000_0000_0000_0000
  const SIZE := 0x1_0000_0000_0000_0000

  // ----- decimal numbers -----

  predicate IsDigit(c: char) { '0' <= c <= '9' }
  predicate AllDigits(s: string) { forall c :: c in s ==> IsDigit(c) }

  function Digit(n: nat): (c: char)
    requires n < 10
    ensures IsDigit(c)
  {
    ('0' as int + n) as char
  }

  function Decimal(n: nat): string {
    if n < 10 then [Digit(n)] else Decimal(n / 10) + [Digit(n % 10)]
  }

  function Value(s: string): nat
    requires AllDigits(s)
  {
    if s == "" then 0 else assert s[|s| - 1] in s; Value(s[..|s| - 1]) * 10 + (s[|s| - 1] as int - '0' as int)
  }

  lemma ValueSnoc(s: string, c: char)
    requires AllDigits(s) && IsDigit(c)
    ensures AllDigits(s + [c]) && Value(s + [c]) == Value(s) * 10 + (c as int - '0' as int)
  {
    assert (s + [c])[..|s|] == s;
  }

  lemma {:induction false} DecimalRoundTrip(n: nat)
    ensures Decimal(n) != "" && AllDigits(Decimal(n)) && Value(Decimal(n)) == n
  {
    ValueSnoc("", Digit(n % 10));
    assert "" + [Digit(n % 10)] == [Digit(n % 10)];
    if n >= 10 {
      DecimalRoundTrip(n / 10);
      ValueSnoc(Decimal(n / 10), Digit(n % 10));
    }
  }

  function ToString(n: int): string { if n < 0 then "-" + Decimal(-n) else Decimal(n) }

  // ----- printing -----

  datatype Range = Range(first: int, last: int)

  function Position(n: int): string { if n == -1 then "" else ToString(n) }

  function Part(r: Range): string { Position(r.first) + "-" + Position(r.last) }

  function Join(rs: seq<Range>): string {
    if rs == [] then ""
    else
      var init := rs[..|rs| - 1];
      (if init == [] then "" else Join(init) + ", ") + Part(rs[|rs| - 1])
  }

  function MakeField(rs: seq<Range>): string { "bytes=" + Join(rs) }

  method MakeRangeHeader(rs: seq<Range>) returns (field: string)
    ensures field == MakeField(rs)
  {
    field := "bytes=";
    var i := 0;
    while i < |rs|
      invariant i <= |rs| && field == MakeField(rs[..i])
    {
      FieldStep(rs, i);
      if i != 0 { field := field + ", "; }
      var part := PrintPart(rs[i]);
      field := field + part;
      i := i + 1;
    }
    assert rs[..i] == rs;
  }

  method PrintPart(r: Range) returns (part: string)
    ensures part == Part(r)
  {
    part := "";
    if r.first != -1 { part := part + ToString(r.first); }
    part := part + "-";
    if r.last != -1 { part := part + ToString(r.last); }
  }

  lemma FieldStep(rs: seq<Range>, i: nat)
    requires i < |rs|
    ensures MakeField(rs[..i + 1]) == MakeField(rs[..i]) + (if i == 0 then "" else ", ") + Part(rs[i])
  {
    assert rs[..i + 1][..i] == rs[..i];
    AssocFour("bytes=", Join(rs[..i]), ", ", Part(rs[i]));
  }

  // ----- parsing -----

  /** Number of digits s starts with. */
  function Lead(s: string): (k: nat)
    ensures k <= |s| && AllDigits(s[..k]) && (k < |s| ==> !IsDigit(s[k]))
  {
    if s == "" || !IsDigit(s[0]) then 0
    else
      var k := Lead(s[1..]);
      assert s[..k + 1] == [s[0]] + s[1..][..k];
      k + 1
  }

  /** Space, digits, a hyphen, digits. */
  function Positions(p: string): (r: Option<(string, string)>)
    ensures r.Some? ==> AllDigits(r.value.0) && AllDigits(r.value.1)
  {
    var t := SkipSpace(p);
    var k := Lead(t);
    if k < |t| && t[k] == '-' && AllDigits(t[k + 1..]) then Some((t[..k], t[k + 1..])) else None
  }

  /** The whole header field has the expected shape; no space before the first range. */
  predicate WellShaped(ps: seq<string>) {
    ps != [] && (forall p :: p in ps ==> Positions(p).Some?) && (ps[0] == "" || !IsSpace(ps[0][0]))
  }

  /** A position, or -1 if it is missing; none at all if it does not fit. */
  function Number(d: string): Option<int>
    requires AllDigits(d)
  {
    var v: int := if d == "" then -1 else Value(d);
    if v < SSIZE then Some(v) else None
  }

  predicate ValidRange(r: Range) {
    -1 <= r.first < SSIZE && -1 <= r.last < SSIZE && (r.first != -1 && r.last != -1 ==> r.first <= r.last)
  }

  function RangeOf(pos: (string, string)): Option<Range>
    requires AllDigits(pos.0) && AllDigits(pos.1)
  {
    var first, last := Number(pos.0), Number(pos.1);
    if first.None? || last.None? then None
    else if first.value != -1 && last.value != -1 && first.value > last.value then None
    else Some(Range(first.value, last.value))
  }

  /** Adds the range of one piece; a piece of another shape would be passed over. */
  function Add(acc: Option<seq<Range>>, p: string): Option<seq<Range>> {
    var pos := Positions(p);
    if acc.None? || pos.None? then acc
    else
      var r := RangeOf(pos.value);
      if r.None? then None else Some(acc.value + [r.value])
  }

  function Collect(ps: seq<string>): Option<seq<Range>> {
    if ps == [] then Some([]) else Add(Collect(ps[..|ps| - 1]), ps[|ps| - 1])
  }

  function ParseField(s: string): Option<seq<Range>> {
    if "bytes=" <= s && WellShaped(Pieces(s[6..], ',')) then Collect(Split(s[6..], ',')) else None
  }

  method ParseRangeHeader(s: string) returns (ok: bool, ranges: seq<Range>)
    ensures (if ok then Some(ranges) else None) == ParseField(s)
  {
    ranges := [];
    if !("bytes=" <= s && WellShaped(Pieces(s[6..], ','))) { return false, []; }
    var ps := SplitScan(s[6..], ',');
    ok := true;
    var i := 0;
    while i < |ps|
      invariant i <= |ps| && (if ok then Some(ranges) else None) == Collect(ps[..i])
    {
      assert ps[..i + 1][..i] == ps[..i];
      var pos := Positions(ps[i]);
      if ok && pos.Some? {
        var r := RangeOf(pos.value);
        if r.None? { ok := false; } else { ranges := ranges + [r.value]; }
      }
      i := i + 1;
    }
    assert ps[..i] == ps;
  }

  // ----- round trip -----

  predicate AllValid(rs: seq<Range>) { forall r :: r in rs ==> ValidRange(r) }

  lemma {:induction false} CollectedValid(ps: seq<string>)
    ensures Collect(ps).Some? ==> AllValid(Collect(ps).value)
  {
    if ps != [] {
      CollectedValid(ps[..|ps| - 1]);
    }
  }

  lemma {:induction false} LeadIs(d: string, t: string)
    requires AllDigits(d) && (t == "" || !IsDigit(t[0]))
    ensures Lead(d + t) == |d|
  {
    if d == "" {
      assert d + t == t;
    } else {
      assert (d + t)[1..] == d[1..] + t;
      LeadIs(d[1..], t);
    }
  }

  lemma PositionParses(n: int)
    requires -1 <= n < SSIZE
    ensures AllDigits(Position(n)) && Number(Position(n)) == Some(n)
  {
    if n >= 0 {
      DecimalRoundTrip(n);
    }
  }

  lemma PositionsOf(a: string, b: string)
    requires AllDigits(a) && AllDigits(b)
    ensures Positions(a + "-" + b) == Some((a, b))
  {
    var t := a + "-" + b;
    NotSpace(a, b);
    assert t == a + ("-" + b);
    LeadIs(a, "-" + b);
    assert t[|a|] == '-';
    assert t[..|a|] == a && t[|a| + 1..] == b;
  }

  lemma NotSpace(a: string, b: string)
    requires AllDigits(a)
    ensures SkipSpace(a + "-" + b) == a + "-" + b
  {
    assert a != "" ==> a[0] in a;
  }

  lemma PartPlain(r: Range)
    requires ValidRange(r)
    ensures Positions(Part(r)) == Some((Position(r.first), Position(r.last)))
    ensures ',' !in Part(r) && Trimmed(Part(r)) && Part(r) != "" && !IsSpace(Part(r)[0])
  {
    var a, b := Position(r.first), Position(r.last);
    PositionParses(r.first);
    PositionParses(r.last);
    PositionsOf(a, b);
    var t := a + "-" + b;
    assert forall c :: c in t ==> IsDigit(c) || c == '-';
    assert t[0] in t && t[|t| - 1] in t;
  }

  /** A part alone, or after the blank that follows a comma. */
  lemma PartParses(r: Range, acc: seq<Range>)
    requires ValidRange(r)
    ensures Add(Some(acc), Part(r)) == Some(acc + [r])
    ensures Positions(Part(r)).Some? && Positions(" " + Part(r)).Some?
    ensures Trim(Part(r)) == Part(r) && Trim(" " + Part(r)) == Part(r) != ""
  {
    PartPlain(r);
    PositionParses(r.first);
    PositionParses(r.last);
    TrimTrimmed(Part(r));
    assert (" " + Part(r))[1..] == Part(r);
  }

  /** What follows "bytes=" is understood as these ranges. */
  ghost predicate Reads(t: string, rs: seq<Range>) {
    WellShaped(Pieces(t, ',')) && Collect(Split(t, ',')) == Some(rs)
  }

  lemma {:induction false} JoinReads(rs: seq<Range>)
    requires rs != [] && AllValid(rs)
    ensures Reads(Join(rs), rs)
  {
    var init, r := rs[..|rs| - 1], rs[|rs| - 1];
    assert rs == init + [r];
    if init == [] {
      JoinOne(r);
      OnePart(r);
    } else {
      JoinReads(init);
      MorePart(Join(init), init, r);
      JoinMore(init, r);
    }
  }

  lemma JoinOne(r: Range)
    ensures Join([r]) == Part(r)
  {
    assert [r][..0] == [];
  }

  lemma JoinMore(init: seq<Range>, r: Range)
    requires init != []
    ensures Join(init + [r]) == Join(init) + [','] + (" " + Part(r))
  {
    assert (init + [r])[..|init|] == init;
  }

  lemma OnePart(r: Range)
    requires ValidRange(r)
    ensures Reads(Part(r), [r])
  {
    PartPlain(r);
    PartParses(r, []);
    OneReads(Part(r), r);
  }

  lemma OneReads(p: string, r: Range)
    requires ',' !in p && p != "" && Trim(p) == p && Positions(p).Some? && !IsSpace(p[0])
    requires Add(Some([]), p) == Some([] + [r])
    ensures Reads(p, [r])
  {
    PiecesOne(p, ',');
    var ps := [p];
    assert ps[1..] == [] && Clean(ps) == [p];
    assert ps[..|ps| - 1] == [];
    var none: seq<Range> := [];
    assert none + [r] == [r];
  }

  lemma CollectSnoc(ps: seq<string>, p: string)
    ensures Collect(ps + [p]) == Add(Collect(ps), p)
  {
    assert (ps + [p])[..|ps|] == ps;
  }

  lemma MorePart(joined: string, init: seq<Range>, r: Range)
    requires ValidRange(r) && Reads(joined, init)
    ensures Reads(joined + [','] + (" " + Part(r)), init + [r])
  {
    PartPlain(r);
    PartParses(r, init);
    MoreReads(joined, init, " " + Part(r), r);
  }

  lemma MoreReads(joined: string, init: seq<Range>, p: string, r: Range)
    requires Reads(joined, init) && ',' !in p && Trim(p) != "" && Positions(p).Some?
    requires Add(Some(init), Trim(p)) == Some(init + [r])
    ensures Reads(joined + [','] + p, init + [r])
  {
    PiecesSnoc(joined, ',', p);
    var ps := Pieces(joined, ',');
    CleanSnoc(ps, p);
    CollectSnoc(Clean(ps), Trim(p));
    assert (ps + [p])[0] == ps[0];
  }

  /** Parsing undoes printing exactly on the non-empty lists of valid ranges. */
  lemma RangeHeaderRoundTripIff(rs: seq<Range>)
    ensures ParseField(MakeField(rs)) == Some(rs) <==> rs != [] && AllValid(rs)
  {
    assert MakeField(rs)[6..] == Join(rs);
    CollectedValid(Split(Join(rs), ','));
    if rs == [] {
      NothingAsked();
    } else if AllValid(rs) {
      JoinReads(rs);
    }
  }

  lemma NothingAsked()
    ensures !WellShaped(Pieces("", ','))
  {
    var ps := Pieces("", ',');
    assert ps == [""] && "" in ps;
    assert Positions("") == None;
  }

  // ----- from a range to an offset and a length -----

  /** In 64-bit arithmetic, signed positions and unsigned results; n is the content length. */
  function OffsetAndLength(r: Range, n: nat): (nat, nat)
    requires ValidRange(r) && n < SSIZE
  {
    if r.first == -1 && r.last == -1 then (0, n)
    else
      var first := if r.first == -1 then Max(0, n - r.last) else r.first;
      var last := if r.first == -1 || r.last == -1 then n - 1 else r.last;
      (first, ((last - first) % SIZE + 1) % SIZE)
  }

  /** The positions of the content a range asks for: all, the last so many, or those between two positions. */
  predicate Selected(r: Range, n: nat, p: nat) {
    p < n &&
    if r.first == -1 then r.last == -1 || p >= n - r.last
    else r.first <= p && (r.last == -1 || p <= r.last)
  }

  /** A condition on what was asked for: what starts at a position must not reach beyond the end. */
  predicate Within(r: Range, n: nat) {
    r.first == -1 || (if r.last == -1 then r.first <= n else r.last < n)
  }

  lemma LengthOf(r: Range, n: nat)
    requires ValidRange(r) && n < SSIZE
    ensures var (off, len) := OffsetAndLength(r, n);
            if r.first == -1 && r.last == -1 then off == 0 && len == n
            else if r.first == -1 then off == Max(0, n - r.last) && len == Min(n, r.last)
            else if r.last != -1 then off == r.first && len == r.last - r.first + 1
            else off == r.first && len == (if r.first <= n then n - r.first else SIZE - (r.first - n))
  {
    var first := if r.first == -1 then Max(0, n - r.last) else r.first;
    var last := if r.first == -1 || r.last == -1 then n - 1 else r.last;
    WrapLength(last - first);
  }

  lemma WrapLength(d: int)
    requires -SSIZE <= d < SSIZE
    ensures (d % SIZE + 1) % SIZE == if d >= -1 then d + 1 else SIZE + d + 1
  {
    if d >= 0 {
      SmallMod(d);
      SmallMod(d + 1);
    } else {
      assert d % SIZE == d + SIZE by { SmallMod(d + SIZE); }
      if d < -1 { SmallMod(d + SIZE + 1); }
    }
  }

  lemma SmallMod(x: int)
    requires 0 <= x < SIZE
    ensures x % SIZE == x && (x - SIZE) % SIZE == x
  {
    assert x - SIZE == -1 * SIZE + x;
  }

  /**
    The slice holds every position asked for and no other position of the content; it
    stays within the content just when the range does.
   */
  lemma SliceIsSelection(r: Range, n: nat)
    requires ValidRange(r) && n < SSIZE
    ensures var (off, len) := OffsetAndLength(r, n);
            (forall p: nat :: p < n ==> (Selected(r, n, p) <==> off <= p < off + len)) &&
            (off + len <= n <==> Within(r, n))
  {
    LengthOf(r, n);
  }

  /** st and ed in 64-bit arithmetic. */
  function ContentRange(r: Range, n: nat): string
    requires ValidRange(r) && n < SSIZE
  {
    var (st, len) := OffsetAndLength(r, n);
    var ed := Min((st + len - 1) % SIZE, (n - 1) % SIZE);
    RangeField(st, ed, n)
  }

  function RangeField(lo: nat, hi: nat, n: nat): string {
    "bytes " + Decimal(lo) + "-" + Decimal(hi) + "/" + Decimal(n)
  }

  /** Positions lo to hi are just those asked for. */
  ghost predicate Covers(r: Range, n: nat, lo: nat, hi: nat) {
    lo <= hi && forall p: nat :: Selected(r, n, p) <==> lo <= p <= hi
  }

  /** The two positions named, in 64-bit arithmetic. */
  lemma FieldPositions(r: Range, n: nat) returns (lo: nat, hi: nat)
    requires ValidRange(r) && n < SSIZE
    ensures lo < SIZE && hi < SIZE && ContentRange(r, n) == RangeField(lo, hi, n)
    ensures var (st, len) := OffsetAndLength(r, n);
            lo == st && (0 < len && 0 < n && st + len <= SIZE ==> hi == Min(st + len - 1, n - 1))
  {
    LengthOf(r, n);
    var (st, len) := OffsetAndLength(r, n);
    lo := st;
    hi := LastPosition(st, len, n);
  }

  lemma LastPosition(st: nat, len: nat, n: nat) returns (hi: nat)
    ensures hi < SIZE && hi == Min((st + len - 1) % SIZE, (n - 1) % SIZE)
    ensures 0 < len && 0 < n < SSIZE && st + len <= SIZE ==> hi == Min(st + len - 1, n - 1)
  {
    Wrapped(st + len - 1);
    Wrapped(n - 1);
    hi := Min((st + len - 1) % SIZE, (n - 1) % SIZE);
  }

  lemma Wrapped(x: int)
    ensures 0 <= x % SIZE < SIZE && (0 <= x < SIZE ==> x % SIZE == x)
  {
    if 0 <= x < SIZE {
      SmallMod(x);
    }
  }

  /** Content-Range names the first and the last position asked for, even of a range that reaches beyond the end. */
  lemma ContentRangeNames(r: Range, n: nat, p: nat)
    requires ValidRange(r) && n < SSIZE && Selected(r, n, p)
    ensures exists lo, hi :: Covers(r, n, lo, hi) && ContentRange(r, n) == RangeField(lo, hi, n)
  {
    LengthOf(r, n);
    var lo, hi := FieldPositions(r, n);
    SelectionCovers(r, n, p);
    assert Covers(r, n, lo, hi);
  }

  lemma SelectionCovers(r: Range, n: nat, p: nat)
    requires ValidRange(r) && n < SSIZE && Selected(r, n, p)
    ensures var (st, len) := OffsetAndLength(r, n);
            len > 0 && st + len <= SIZE && Covers(r, n, st, Min(st + len - 1, n - 1))
  {
    LengthOf(r, n);
    SliceIsSelection(r, n);
  }

  /** The length sent with it is the length it names just when the range stays within the content. */
  lemma LengthAgreesIff(r: Range, n: nat, lo: nat, hi: nat)
    requires ValidRange(r) && n < SSIZE && Covers(r, n, lo, hi)
    ensures OffsetAndLength(r, n) == (lo, hi - lo + 1) <==> Within(r, n)
  {
    LengthOf(r, n);
    SliceIsSelection(r, n);
    assert Selected(r, n, lo) && Selected(r, n, hi);
    assert hi + 1 < n ==> !Selected(r, n, hi + 1);
    assert lo > 0 ==> !Selected(r, n, lo - 1);
  }

  // ----- the client's own headers -----

  function GetRangeField(size: nat, offset: nat): string {
    "bytes=" + Decimal(offset) + "-" + Decimal((offset + size - 1) % SIZE)
  }

  function ResumeField(offset: nat): string { "bytes=" + Decimal(offset) + "-" }

  /** A single range, whatever its positions. */
  lemma OneField(a: string, b: string)
    requires AllDigits(a) && AllDigits(b)
    ensures ParseField("bytes=" + a + "-" + b) ==
            (if RangeOf((a, b)).None? then None else Some([RangeOf((a, b)).value]))
  {
    var p := a + "-" + b;
    assert ("bytes=" + a + "-" + b)[6..] == p;
    PositionsOf(a, b);
    DigitsPlain(a, b);
    TrimTrimmed(p);
    OneCollected(p);
    var none: seq<Range> := [];
    assert RangeOf((a, b)).Some? ==> none + [RangeOf((a, b)).value] == [RangeOf((a, b)).value];
  }

  lemma DigitsPlain(a: string, b: string)
    requires AllDigits(a) && AllDigits(b)
    ensures var p := a + "-" + b; ',' !in p && p != "" && Trimmed(p) && !IsSpace(p[0])
  {
    var p := a + "-" + b;
    assert forall c :: c in p ==> IsDigit(c) || c == '-';
    assert p[0] in p && p[|p| - 1] in p;
  }

  lemma OneCollected(p: string)
    requires ',' !in p && p != "" && Trim(p) == p && Positions(p).Some? && !IsSpace(p[0])
    ensures WellShaped(Pieces(p, ',')) && Collect(Split(p, ',')) == Add(Some([]), p)
  {
    PiecesOne(p, ',');
    var ps := [p];
    assert ps[1..] == [] && Clean(ps) == [p];
    assert ps[..|ps| - 1] == [];
  }

  /** The server answers the header with exactly this slice. */
  ghost predicate Answered(field: string, n: nat, offset: nat, size: nat)
    requires n < SSIZE
  {
    exists r :: ParseField(field) == Some([r]) && ValidRange(r) && OffsetAndLength(r, n) == (offset, size)
  }

  /** A range request of the client gets what it asked for exactly if it asked for something. */
  lemma GetRangeAnsweredIff(size: nat, offset: nat, n: nat)
    requires offset + size <= n < SSIZE
    ensures Answered(GetRangeField(size, offset), n, offset, size) <==> size >= 1
  {
    var last := (offset + size - 1) % SIZE;
    DecimalRoundTrip(offset);
    DecimalRoundTrip(last);
    OneField(Decimal(offset), Decimal(last));
    if offset + size >= 1 {
      SmallMod(offset + size - 1);
    } else {
      SmallMod(SIZE - 1);
    }
    if size >= 1 {
      var r := Range(offset, last);
      LengthOf(r, n);
      assert ParseField(GetRangeField(size, offset)) == Some([r]);
    }
  }

  /** A resumed download gets the rest of the content, nothing if it has it all. */
  lemma ResumeAnswered(offset: nat, n: nat)
    requires offset <= n < SSIZE
    ensures Answered(ResumeField(offset), n, offset, n - offset)
  {
    DecimalRoundTrip(offset);
    OneField(Decimal(offset), "");
    assert "bytes=" + Decimal(offset) + "-" + "" == ResumeField(offset);
    var r := Range(offset, -1);
    LengthOf(r, n);
    assert ParseField(ResumeField(offset)) == Some([r]);
  }
}
