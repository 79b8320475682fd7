/**
  Byte strings as the HTTP code sees them: one char stands for one byte.
  Substring search, blank trimming, splitting on a separator and ASCII case folding.
 */
module Text {

  datatype Option<+T> = None | Some(value: T)

  function Min(a: int, b: int): int { if a < b then a else b }
  function Max(a: int, b: int): int { if a < b then b else a }

  /** No header line may be longer. */
  const HEADER_MAX_LENGTH := 8192

  /** Pieces of a text put together. */
  function Concat(pieces: seq<string>): string {
    if pieces == [] then "" else pieces[0] + Concat(pieces[1..])
  }

  lemma Assoc<T>(a: seq<T>, b: seq<T>, c: seq<T>)
    ensures (a + b) + c == a + (b + c)
  {
  }

  lemma AssocFour(a: string, b: string, c: string, d: string)
    ensures a + ((b + c) + d) == ((a + b) + c) + d
  {
  }

  const CRLF := "\r\n"

  /** p occurs in s at index i. */
  predicate OccursAt(s: string, p: string, i: int) {
    0 <= i && i + |p| <= |s| && s[i..i + |p|] == p
  }

  lemma PrefixOccurs(s: string, p: string)
    ensures OccursAt(s, p, 0) <==> p <= s
  {
    if |p| <= |s| {
      assert s[0..|p|] == s[..|p|];
    }
  }

  /** r is the first occurrence of p in s, or |s| when there is none. */
  predicate IsFirst(s: string, p: string, r: nat) {
    r <= |s| && (r < |s| ==> OccursAt(s, p, r)) && forall j :: 0 <= j < r ==> !OccursAt(s, p, j)
  }

  lemma FirstExists(s: string, p: string, i: nat) returns (r: nat)
    requires p != "" && i <= |s|
    requires forall j :: 0 <= j < i ==> !OccursAt(s, p, j)
    ensures IsFirst(s, p, r)
    decreases |s| - i
  {
    if i == |s| || OccursAt(s, p, i) {
      r := i;
    } else {
      r := FirstExists(s, p, i + 1);
    }
  }

  /** Index of the first occurrence of p in s, or |s|. */
  function Find(s: string, p: string): (r: nat)
    requires p != ""
    ensures r <= |s|
    ensures r < |s| ==> OccursAt(s, p, r)
    ensures forall j :: 0 <= j < r ==> !OccursAt(s, p, j)
  {
    assert exists r :: 0 <= r <= |s| && IsFirst(s, p, r) by {
      var r := FirstExists(s, p, 0);
    }
    var r :| 0 <= r <= |s| && IsFirst(s, p, r);
    r
  }

  lemma OccursInPrefix(a: string, b: string, p: string, i: int)
    requires i + |p| <= |a|
    ensures OccursAt(a + b, p, i) <==> OccursAt(a, p, i)
  {
    if 0 <= i {
      assert (a + b)[i..i + |p|] == a[i..i + |p|];
    }
  }

  lemma OccursInSuffix(s: string, p: string, n: nat, i: nat)
    requires n <= |s|
    ensures OccursAt(s[n..], p, i) <==> OccursAt(s, p, n + i)
  {
    if n + i + |p| <= |s| {
      assert s[n..][i..i + |p|] == s[n + i..n + i + |p|];
    }
  }

  /** A match found in the bytes at hand stays the first match when more bytes arrive. */
  lemma FindStable(a: string, b: string, p: string)
    requires p != "" && Find(a, p) < |a|
    ensures Find(a + b, p) == Find(a, p)
  {
    var k := Find(a, p);
    OccursInPrefix(a, b, p, k);
    if Find(a + b, p) < k {
      OccursInPrefix(a, b, p, Find(a + b, p));
    }
  }

  /** Without a match, the last |p|-1 bytes are the only ones a later match can start in. */
  lemma FindLate(a: string, b: string, p: string)
    requires p != "" && Find(a, p) == |a|
    ensures |a| < Find(a + b, p) + |p| || a + b == ""
  {
    var k := Find(a + b, p);
    if k + |p| <= |a| {
      OccursInPrefix(a, b, p, k);
    }
  }

  lemma FindDrop(s: string, p: string, n: nat)
    requires p != "" && n <= Find(s, p)
    ensures Find(s[n..], p) == Find(s, p) - n
  {
    var k, m := Find(s, p), Find(s[n..], p);
    if k < |s| {
      OccursInSuffix(s, p, n, k - n);
    }
    if m < |s| - n {
      OccursInSuffix(s, p, n, m);
    }
  }

  /** The place where p is known to occur first is what Find returns. */
  lemma FindIs(s: string, p: string, k: nat)
    requires p != "" && OccursAt(s, p, k)
    requires forall j :: 0 <= j < k ==> !OccursAt(s, p, j)
    ensures Find(s, p) == k
  {
  }

  /** A line free of CRLF followed by CRLF ends exactly there, even when it ends with a bare CR. */
  lemma FindLineEnd(line: string, rest: string)
    requires Find(line, CRLF) == |line|
    ensures Find(line + CRLF + rest, CRLF) == |line|
  {
    var s := line + CRLF + rest;
    assert s[|line|..|line| + 2] == CRLF;
    forall j | 0 <= j < |line|
      ensures !OccursAt(s, CRLF, j)
    {
      if j + 2 <= |line| {
        assert s == line + (CRLF + rest);
        OccursInPrefix(line, CRLF + rest, CRLF, j);
      } else {
        assert s[j + 1] == '\r';
        OccursChar(s, CRLF, j, 1);
      }
    }
    FindIs(s, CRLF, |line|);
  }

  /** A beginning that ends before the first match does has no match. */
  lemma NoneBefore(s: string, p: string, n: nat)
    requires p != "" && n <= |s| && n < Find(s, p) + |p|
    ensures Find(s[..n], p) == n
  {
    var k := Find(s[..n], p);
    if k < n {
      assert s == s[..n] + s[n..];
      OccursInPrefix(s[..n], s[n..], p, k);
    }
  }

  /** Cutting a text right after its first match. */
  lemma CutAtFirst(s: string, p: string)
    requires p != "" && Find(s, p) < |s|
    ensures var k := Find(s, p);
            s == (s[..k] + p) + s[k + |p|..] && Find(s[..k], p) == k && Find(s[..k] + p, p) == k
  {
    var k := Find(s, p);
    var t := s[..k] + p;
    assert s == t + s[k + |p|..];
    NoneBefore(s, p, k);
    assert t[k..k + |p|] == p;
    forall j | 0 <= j < k
      ensures !OccursAt(t, p, j)
    {
      OccursInPrefix(t, s[k + |p|..], p, j);
    }
    FindIs(t, p, k);
  }

  // ----- slices -----

  lemma SubSlice(s: string, a: nat, b: nat, x: nat, y: nat)
    requires a <= b <= |s| && x <= y <= b - a
    ensures s[a..b][x..y] == s[a + x..a + y]
  {
    var u, v := s[a..b][x..y], s[a + x..a + y];
    assert |u| == |v|;
    forall i | 0 <= i < |u|
      ensures u[i] == v[i]
    {
      assert u[i] == s[a..b][x + i];
    }
  }

  lemma JoinSlices(s: string, a: nat, b: nat)
    requires a <= b <= |s|
    ensures s[..a] + s[a..b] == s[..b]
  {
    assert s[..b] == s[..b][..a] + s[..b][a..];
  }

  lemma DropDrop(s: string, a: nat, b: nat)
    requires a + b <= |s|
    ensures s[a..][b..] == s[a + b..]
  {
  }

  lemma TakeAcross(s: string, a: nat, b: nat)
    requires a <= b <= |s|
    ensures s[..b] == s[..a] + s[a..][..b - a]
  {
  }

  /** Wherever p occurs, its characters stand. */
  lemma OccursChar(s: string, p: string, i: nat, k: nat)
    requires k < |p| && i + k < |s|
    ensures OccursAt(s, p, i) ==> s[i + k] == p[k]
  {
    if OccursAt(s, p, i) {
      assert s[i..i + |p|][k] == s[i + k];
    }
  }

  // ----- case folding, blanks -----

  function ToLower(c: char): char {
    if 'A' <= c <= 'Z' then (c as int + 32) as char else c
  }

  predicate StartsWithIgnoreCase(a: string, b: string) {
    |b| <= |a| && forall i :: 0 <= i < |b| ==> ToLower(a[i]) == ToLower(b[i])
  }

  /** Space or tab: what trimming removes. */
  predicate IsBlank(c: char) { c == ' ' || c == '\t' }

  /** What the regular-expression class \s accepts. */
  predicate IsSpace(c: char) {
    c == ' ' || c == '\t' || c == '\n' || c == '\r' || c == 11 as char || c == 12 as char
  }

  function SkipSpace(s: string): string {
    if s != "" && IsSpace(s[0]) then SkipSpace(s[1..]) else s
  }

  function TrimLeft(s: string): string {
    if s != "" && IsBlank(s[0]) then TrimLeft(s[1..]) else s
  }

  function TrimRight(s: string): string {
    if s != "" && IsBlank(s[|s| - 1]) then TrimRight(s[..|s| - 1]) else s
  }

  function Trim(s: string): string { TrimRight(TrimLeft(s)) }

  /** Neither end is a blank, so trimming leaves the string alone. */
  predicate Trimmed(s: string) {
    s == "" || (!IsBlank(s[0]) && !IsBlank(s[|s| - 1]))
  }

  lemma TrimTrimmed(s: string)
    requires Trimmed(s)
    ensures Trim(s) == s && Trim(" " + s) == s
  {
    assert (" " + s)[1..] == s;
  }

  function TrimQuotes(s: string): string {
    if |s| >= 2 && s[0] == '"' && s[|s| - 1] == '"' then s[1..|s| - 1] else s
  }

  // ----- splitting -----

  /** All the pieces between separators, as they stand. */
  function Pieces(s: string, d: char): (r: seq<string>)
    ensures r != []
  {
    if s == "" then [""]
    else
      var ps := Pieces(s[..|s| - 1], d);
      var c := s[|s| - 1];
      var last := |ps| - 1;
      if c == d then ps + [""] else ps[..last] + [ps[last] + [c]]
  }

  /** Trim every piece and drop the empty ones. */
  function Clean(ps: seq<string>): seq<string> {
    if ps == [] then []
    else (if Trim(ps[0]) == "" then [] else [Trim(ps[0])]) + Clean(ps[1..])
  }

  function Split(s: string, d: char): seq<string> { Clean(Pieces(s, d)) }

  lemma PiecesStep(s: string, c: char, d: char)
    ensures Pieces(s + [c], d) ==
            if c == d then Pieces(s, d) + [""]
            else Pieces(s, d)[..|Pieces(s, d)| - 1] + [Pieces(s, d)[|Pieces(s, d)| - 1] + [c]]
  {
    assert (s + [c])[..|s|] == s;
  }

  lemma {:induction false} PiecesOne(s: string, d: char)
    requires d !in s
    ensures Pieces(s, d) == [s]
  {
    if s != "" {
      var t := s[..|s| - 1];
      PiecesOne(t, d);
      assert s == t + [s[|s| - 1]];
      PiecesStep(t, s[|s| - 1], d);
    }
  }

  /** A separator followed by a separator-free tail adds that tail as one more piece. */
  lemma {:induction false} PiecesSnoc(a: string, d: char, b: string)
    requires d !in b
    ensures Pieces(a + [d] + b, d) == Pieces(a, d) + [b]
  {
    if b == "" {
      assert a + [d] + b == a + [d];
      PiecesStep(a, d, d);
    } else {
      var c := b[..|b| - 1];
      var x := b[|b| - 1];
      assert b == c + [x];
      assert a + [d] + b == (a + [d] + c) + [x];
      PiecesSnoc(a, d, c);
      PiecesStep(a + [d] + c, x, d);
    }
  }

  lemma PiecesTwo(a: string, d: char, b: string)
    requires d !in a && d !in b
    ensures Pieces(a + [d] + b, d) == [a, b]
  {
    PiecesSnoc(a, d, b);
    PiecesOne(a, d);
  }

  /** Keeps the first copy of every string. */
  function Dedup(ps: seq<string>): seq<string> {
    if ps == [] then []
    else
      var init := ps[..|ps| - 1];
      var last := ps[|ps| - 1];
      if last in init then Dedup(init) else Dedup(init) + [last]
  }

  /** The first piece around '=' is the key; every later piece overwrites the value. */
  function KeyValue(kv: string): Option<(string, string)> {
    var ps := Split(kv, '=');
    if ps == [] then None
    else Some((ps[0], if |ps| == 1 then "" else ps[|ps| - 1]))
  }

  /** A key and value without '=' that need no trimming come back as they are. */
  lemma KeyValuePair(k: string, v: string)
    requires k != "" && '=' !in k && Trimmed(k)
    requires '=' !in v && Trimmed(v)
    ensures KeyValue(k + "=" + v) == Some((k, v))
  {
    PiecesTwo(k, '=', v);
    TrimTrimmed(k);
    TrimTrimmed(v);
    assert Clean([k, v][1..]) == if v == "" then [] else [v];
  }

  /** Only quotes at both ends are taken off, and only one pair of them. */
  lemma QuotesTaken(s: string)
    ensures TrimQuotes("\"" + s + "\"") == s
    ensures s == "" || s[0] != '"' || s[|s| - 1] != '"' ==> TrimQuotes(s) == s
  {
    var q := "\"" + s + "\"";
    assert q[1..|q| - 1] == s;
  }

  /** With more than one sign the last value counts. */
  lemma LastValueCounts(k: string, u: string, v: string)
    requires k != "" && '=' !in k && Trimmed(k)
    requires u != "" && '=' !in u && Trimmed(u) && v != "" && '=' !in v && Trimmed(v)
    ensures KeyValue(k + "=" + u + "=" + v) == Some((k, v))
  {
    PiecesTwo(k, '=', u);
    PiecesSnoc(k + "=" + u, '=', v);
    assert k + "=" + u + "=" + v == (k + "=" + u) + ['='] + v;
    CleanThree(k, u, v);
    assert [k, u] + [v] == [k, u, v];
    assert Split(k + "=" + u + "=" + v, '=') == [k, u, v];
  }

  lemma CleanOne(p: string, ps: seq<string>)
    requires p != "" && Trimmed(p)
    ensures Clean([p] + ps) == [p] + Clean(ps)
  {
    TrimTrimmed(p);
    assert ([p] + ps)[1..] == ps;
  }

  lemma CleanThree(k: string, u: string, v: string)
    requires k != "" && Trimmed(k) && u != "" && Trimmed(u) && v != "" && Trimmed(v)
    ensures Clean([k, u, v]) == [k, u, v]
  {
    var none: seq<string> := [];
    CleanOne(v, none);
    CleanOne(u, [v]);
    CleanOne(k, [u, v]);
    assert [v] + none == [v] && [u] + [v] == [u, v] && [k] + [u, v] == [k, u, v];
  }

  lemma CleanSnoc(ps: seq<string>, p: string)
    ensures Clean(ps + [p]) == Clean(ps) + (if Trim(p) == "" then [] else [Trim(p)])
  {
    if ps != [] {
      assert (ps + [p])[1..] == ps[1..] + [p];
    } else {
      assert Clean([p][1..]) == [];
    }
  }

  /** The first i characters are cut into these pieces and the one that began at beg. */
  ghost predicate CutSoFar(s: string, d: char, beg: nat, i: nat, cuts: seq<string>) {
    beg <= i <= |s| && Pieces(s[..i], d) == cuts + [s[beg..i]]
  }

  lemma ScanStep(s: string, d: char, beg: nat, i: nat, cuts: seq<string>)
    requires i < |s| && CutSoFar(s, d, beg, i, cuts)
    ensures if s[i] == d then CutSoFar(s, d, i + 1, i + 1, cuts + [s[beg..i]]) else CutSoFar(s, d, beg, i + 1, cuts)
  {
    assert s[..i + 1] == s[..i] + [s[i]];
    PiecesStep(s[..i], s[i], d);
    assert (cuts + [s[beg..i]])[..|cuts|] == cuts;
    assert s[beg..i + 1] == s[beg..i] + [s[i]];
    assert s[i + 1..i + 1] == "";
  }

  lemma ScanEnds(s: string, d: char, beg: nat, cuts: seq<string>)
    ensures CutSoFar(s, d, 0, 0, [])
    ensures CutSoFar(s, d, beg, |s|, cuts) ==> Split(s, d) == Clean(cuts + [s[beg..|s|]])
    ensures s == "" ==> Split(s, d) == []
  {
    assert s[..0] == "" && s[..|s|] == s;
    assert [] + [""] == [""] && Clean([""][1..]) == [];
  }

  /**
    The scanning loop that cuts a buffer at every separator, trims each cut and
    hands the non-empty ones on.
   */
  method SplitScan(s: string, d: char) returns (r: seq<string>)
    ensures r == Split(s, d)
  {
    r := [];
    var i, beg := 0, 0;
    ghost var cuts: seq<string> := [];
    ScanEnds(s, d, beg, cuts);
    while i < |s|
      invariant 0 <= beg <= i <= |s| && CutSoFar(s, d, beg, i, cuts) && r == Clean(cuts)
    {
      ScanStep(s, d, beg, i, cuts);
      if s[i] == d {
        r := HandOn(r, s[beg..i], cuts);
        cuts := cuts + [s[beg..i]];
        beg := i + 1;
      }
      i := i + 1;
    }
    ScanEnds(s, d, beg, cuts);
    if i > 0 { r := HandOn(r, s[beg..i], cuts); }
  }

  /** Hands a cut on if there is anything but blanks in it. */
  method HandOn(before: seq<string>, cut: string, ghost cuts: seq<string>) returns (r: seq<string>)
    requires before == Clean(cuts)
    ensures r == Clean(cuts + [cut])
  {
    CleanSnoc(cuts, cut);
    r := before;
    var piece := Trim(cut);
    if piece != "" { r := r + [piece]; }
  }

  // ----- lengths of pieces -----

  function Total(ps: seq<string>): nat { if ps == [] then 0 else |ps[0]| + Total(ps[1..]) }

  lemma {:induction false} TotalConcat(a: seq<string>, b: seq<string>)
    ensures Total(a + b) == Total(a) + Total(b)
  {
    if a == [] {
      assert a + b == b;
    } else {
      assert (a + b)[1..] == a[1..] + b;
      TotalConcat(a[1..], b);
    }
  }

  lemma TotalOne(p: string)
    ensures Total([p]) == |p|
  {
    assert [p][1..] == [];
  }

  /** Pieces and separators make up the text. */
  lemma {:induction false} PiecesTotal(s: string, d: char)
    ensures Total(Pieces(s, d)) + |Pieces(s, d)| == |s| + 1
  {
    if s == "" {
      TotalOne("");
    } else {
      var t, c := s[..|s| - 1], s[|s| - 1];
      PiecesTotal(t, d);
      var ps := Pieces(t, d);
      var init, last := ps[..|ps| - 1], ps[|ps| - 1];
      assert ps == init + [last];
      TotalConcat(init, [last]);
      TotalOne(last);
      if c == d {
        TotalConcat(ps, [""]);
        TotalOne("");
      } else {
        TotalConcat(init, [last + [c]]);
        TotalOne(last + [c]);
      }
    }
  }

  lemma {:induction false} TrimIsShorter(s: string)
    ensures |TrimLeft(s)| <= |s| && |TrimRight(s)| <= |s|
  {
    if s != "" {
      TrimIsShorter(s[1..]);
      TrimIsShorter(s[..|s| - 1]);
    }
  }

  lemma {:induction false} CleanTotal(ps: seq<string>)
    ensures Total(Clean(ps)) + |Clean(ps)| <= Total(ps) + |ps|
  {
    if ps != [] {
      CleanTotal(ps[1..]);
      TrimIsShorter(ps[0]);
      TrimIsShorter(TrimLeft(ps[0]));
      var one := if Trim(ps[0]) == "" then [] else [Trim(ps[0])];
      TotalConcat(one, Clean(ps[1..]));
      TotalOne(Trim(ps[0]));
    }
  }

  lemma {:induction false} MemberTotal(ps: seq<string>, p: string)
    requires p in ps
    ensures |p| <= Total(ps)
  {
    if p != ps[0] {
      MemberTotal(ps[1..], p);
    }
  }

  lemma SplitIsShorter(s: string, d: char)
    ensures forall q :: q in Split(s, d) ==> |q| <= |s|
  {
    PiecesTotal(s, d);
    CleanTotal(Pieces(s, d));
    forall q | q in Split(s, d)
      ensures |q| <= |s|
    {
      MemberTotal(Split(s, d), q);
    }
  }

  lemma {:induction false} DedupWithin(ps: seq<string>)
    ensures forall p :: p in Dedup(ps) ==> p in ps
  {
    if ps != [] {
      DedupWithin(ps[..|ps| - 1]);
    }
  }
}
