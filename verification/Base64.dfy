/**
  Base 64 (section 4 of RFC 4648), three times over: the bit accumulator of the HTTP
  library, the three-byte blocks of the server's own encoder, and its decoder.
  The encoders are written for any 64-character table t.
 */
module Base64 {
  import opened Text

  type Byte = b: int | 0 <= b < 256

  /** How a whole group of three bytes is written, and a last group of one or two. */
  datatype Coder = Coder(
    block: (Byte, Byte, Byte) -> string,
    tail1: Byte -> string,
    tail2: (Byte, Byte) -> string
  )

  ghost predicate Fits(k: Coder) {
    (forall a, b, c :: |k.block(a, b, c)| == 4) && (forall a :: |k.tail1(a)| == 4) &&
    (forall a, b :: |k.tail2(a, b)| == 4)
  }

  /** The encoding as the standard describes it. */
  function Encode(k: Coder, s: seq<Byte>): string {
    if |s| == 0 then ""
    else if |s| == 1 then k.tail1(s[0])
    else if |s| == 2 then k.tail2(s[0], s[1])
    else k.block(s[0], s[1], s[2]) + Encode(k, s[3..])
  }

  lemma {:induction false} EncodedLength(k: Coder, s: seq<Byte>)
    requires Fits(k)
    ensures |Encode(k, s)| == 4 * ((|s| + 2) / 3)
  {
    if |s| >= 3 {
      EncodedLength(k, s[3..]);
    }
  }

  function Four(t: string, a: nat, b: nat, c: nat, d: nat): (r: string)
    requires |t| == 64 && a < 64 && b < 64 && c < 64 && d < 64
    ensures |r| == 4
  {
    [t[a], t[b], t[c], t[d]]
  }

  function Block(t: string, a: Byte, b: Byte, c: Byte): (r: string)
    requires |t| == 64
    ensures |r| == 4
  {
    Four(t, a / 4, a % 4 * 16 + b / 16, b % 16 * 4 + c / 64, c % 64)
  }

  function Tail1(t: string, a: Byte): (r: string)
    requires |t| == 64
    ensures |r| == 4
  {
    [t[a / 4], t[a % 4 * 16], '=', '=']
  }

  function Tail2(t: string, a: Byte, b: Byte): (r: string)
    requires |t| == 64
    ensures |r| == 4
  {
    [t[a / 4], t[a % 4 * 16 + b / 16], t[b % 16 * 4], '=']
  }

  type Alphabet = t: string | |t| == 64 witness seq(64, _ => 'A')

  /** Writing with the characters of table t. */
  function Table(t: Alphabet): Coder {
    Coder(
      (a: Byte, b: Byte, c: Byte) => Block(t, a, b, c),
      (a: Byte) => Tail1(t, a),
      (a: Byte, b: Byte) => Tail2(t, a, b))
  }

  lemma TableFits(t: Alphabet)
    ensures Fits(Table(t))
  {
  }

  // ----- the block encoder -----

  method Store(out: array<char>, p: nat, b: string)
    requires |b| == 4 && p + 4 <= out.Length
    modifies out
    ensures out[..p + 4] == old(out[..p]) + b
  {
    out[p], out[p + 1], out[p + 2], out[p + 3] := b[0], b[1], b[2], b[3];
  }

  lemma EncodeAt(k: Coder, s: seq<Byte>, i: nat)
    requires i + 3 <= |s|
    ensures Encode(k, s[i..]) == k.block(s[i], s[i + 1], s[i + 2]) + Encode(k, s[i + 3..])
  {
    assert s[i..][3..] == s[i + 3..];
  }

  lemma EncodeLast(k: Coder, s: seq<Byte>, i: nat)
    requires |s| - 2 <= i <= |s|
    ensures Encode(k, s[i..]) ==
            if i == |s| then "" else if i == |s| - 1 then k.tail1(s[i]) else k.tail2(s[i], s[i + 1])
  {
  }

  /** For inputs of two bytes or more; with fewer the source's loop bound wraps around. */
  method EncodeBlocks(k: Coder, s: seq<Byte>) returns (r: string)
    requires Fits(k) && |s| >= 2
    ensures r == Encode(k, s)
  {
    EncodedLength(k, s);
    ghost var goal := Encode(k, s);
    var out := new char[4 * ((|s| + 2) / 3)];
    var i, p := 0, 0;
    assert s[0..] == s;
    while i < |s| - 2
      invariant i <= |s| && p <= out.Length == |goal|
      invariant out[..p] + Encode(k, s[i..]) == goal
    {
      EncodeAt(k, s, i);
      ghost var before, rest := out[..p], Encode(k, s[i + 3..]);
      var b := k.block(s[i], s[i + 1], s[i + 2]);
      assert |before + (b + rest)| == |goal|;
      Store(out, p, b);
      Assoc(before, b, rest);
      p := p + 4;
      i := i + 3;
    }
    EncodeLast(k, s, i);
    if i < |s| {
      var b := if i == |s| - 1 then k.tail1(s[i]) else k.tail2(s[i], s[i + 1]);
      assert |out[..p] + b| == |goal|;
      Store(out, p, b);
      p := p + 4;
    }
    assert p == out.Length && out[..p] == out[..];
    return out[..];
  }

  // ----- the bit accumulator -----

  const WORD := 0x1_0000_0000

  /** Two's complement in 32 bits. */
  function Wrap(x: int): (r: int)
    ensures -0x8000_0000 <= r < 0x8000_0000 && r % 65536 == x % 65536
  {
    var q := (x + 0x8000_0000) / WORD;
    assert x == (x - q * WORD) + 65536 * (q * 65536);
    x - q * WORD
  }

  /** The shifts that occur: by 0, 2, 4 and 6 bits. */
  function Shifted(v: int, k: nat): int {
    if k == 0 then v else if k == 2 then v / 4 else if k == 4 then v / 16 else v / 64
  }

  /** Arithmetic shift right by k, low six bits. */
  function Sextet(v: int, k: nat): (r: nat)
    ensures r < 64
  {
    Shifted(v, k) % 64
  }

  lemma Bits(w: int, l: nat, c: nat)
    requires l < 256 && c < 256 && w % 65536 == l * 256 + c
    ensures Sextet(w, 0) == c % 64 && Sextet(w, 2) == c / 4
    ensures Sextet(w, 4) == l % 4 * 16 + c / 16
    ensures Sextet(w, 6) == l % 16 * 4 + c / 64
  {
    var m := w / 65536;
    assert w == 65536 * m + l * 256 + c;
    Bits0(m, l, c);
    Bits2(m, l, c);
    Bits4(m, l, c);
    Bits6(m, l, c);
  }

  lemma Bits2(m: int, l: nat, c: nat)
    requires l < 256 && c < 256
    ensures (65536 * m + l * 256 + c) / 4 % 64 == c / 4
  {
    assert (65536 * m + l * 256 + c) / 4 == 64 * (256 * m + l) + c / 4;
  }

  lemma Bits0(m: int, l: nat, c: nat)
    ensures (65536 * m + l * 256 + c) % 64 == c % 64
  {
    assert 65536 * m + l * 256 + c == 64 * (1024 * m + 4 * l) + c;
  }

  lemma Bits4(m: int, l: nat, c: nat)
    requires l < 256 && c < 256
    ensures (65536 * m + l * 256 + c) / 16 % 64 == l % 4 * 16 + c / 16
  {
    assert l == l / 4 * 4 + l % 4;
    assert (65536 * m + l * 256 + c) / 16 == 64 * (64 * m + l / 4) + (l % 4 * 16 + c / 16);
  }

  lemma Bits6(m: int, l: nat, c: nat)
    requires l < 256 && c < 256
    ensures (65536 * m + l * 256 + c) / 64 % 64 == l % 16 * 4 + c / 64
  {
    assert l == l / 16 * 16 + l % 16;
    assert (65536 * m + l * 256 + c) / 64 == 64 * (16 * m + l / 16) + (l % 16 * 4 + c / 64);
  }

  /** Appending a byte to the accumulator keeps its low sixteen bits right, wrap or no wrap. */
  lemma Pushed(v: int, c: nat)
    requires c < 256
    ensures Wrap(v * 256 + c) % 65536 == v % 256 * 256 + c && Wrap(v * 256 + c) % 256 == c
  {
    var l, m := v % 256, v / 256;
    assert v * 256 + c == 65536 * m + (l * 256 + c);
    LowBits(Wrap(v * 256 + c), m, l, c);
  }

  lemma LowBits(w: int, m: int, l: nat, c: nat)
    requires l < 256 && c < 256 && w % 65536 == (65536 * m + (l * 256 + c)) % 65536
    ensures w % 65536 == l * 256 + c && w % 256 == c
  {
    var n := w / 65536;
    assert w == 65536 * n + (l * 256 + c);
    assert w == 256 * (256 * n + l) + c;
  }

  /** The four symbols of the q-th group of three bytes, the last one perhaps short. */
  function Quartet(k: Coder, s: seq<Byte>, q: nat): (r: string)
    requires 3 * q < |s|
  {
    var i := 3 * q;
    if i + 1 == |s| then k.tail1(s[i])
    else if i + 2 == |s| then k.tail2(s[i], s[i + 1])
    else k.block(s[i], s[i + 1], s[i + 2])
  }

  ghost predicate HasAt(e: string, k: nat, z: string) { k + 4 <= |e| && e[k..k + 4] == z }

  lemma HasAtCons(b: string, e: string, k: nat, z: string)
    requires |b| == 4 && HasAt(e, k, z)
    ensures HasAt(b + e, k + 4, z)
  {
    assert (b + e)[k + 4..k + 8] == e[k..k + 4];
  }

  lemma {:induction false} QuartetAt(k: Coder, s: seq<Byte>, q: nat)
    requires Fits(k) && 3 * q < |s|
    ensures HasAt(Encode(k, s), 4 * q, Quartet(k, s, q))
    decreases q
  {
    if q == 0 {
      var e := Encode(k, s);
      assert |s| >= 3 ==> e[0..4] == k.block(s[0], s[1], s[2]);
    } else {
      var u := s[3..];
      QuartetAt(k, u, q - 1);
      assert Quartet(k, u, q - 1) == Quartet(k, s, q);
      HasAtCons(k.block(s[0], s[1], s[2]), Encode(k, u), 4 * (q - 1), Quartet(k, s, q));
    }
  }

  /** Number of bits waiting when r bytes of a group have been taken. */
  function Pending(r: nat): int { 2 * r - 6 }

  /** What the inner loop puts out for the bits at hand. */
  function Emit(t: Alphabet, v: int, valb: int): string
    decreases valb + 6
  {
    if valb < 0 then "" else [t[Sextet(v, valb)]] + Emit(t, v, valb - 6)
  }

  lemma EmitOne(t: Alphabet, v: int, valb: int)
    requires 0 <= valb < 6
    ensures Emit(t, v, valb) == [t[Sextet(v, valb)]]
  {
    assert Emit(t, v, valb - 6) == "";
  }

  lemma EmitTwo(t: Alphabet, v: int)
    ensures Emit(t, v, 6) == [t[Sextet(v, 6)], t[Sextet(v, 0)]]
  {
    EmitOne(t, v, 0);
  }

  lemma QuartetSymbols(t: Alphabet, s: seq<Byte>, q: nat)
    requires 3 * q < |s|
    ensures var i, z := 3 * q, Quartet(Table(t), s, q);
            z[0] == t[s[i] / 4] &&
            (i + 1 < |s| ==> z[1] == t[s[i] % 4 * 16 + s[i + 1] / 16]) &&
            (i + 2 < |s| ==> z[2] == t[s[i + 1] % 16 * 4 + s[i + 2] / 64] && z[3] == t[s[i + 2] % 64])
  {
  }

  /** The r-th byte of group q makes the accumulator put out the next one or two symbols of that group. */
  lemma EmitNext(t: Alphabet, s: seq<Byte>, q: nat, r: nat, v: int)
    requires r < 3 && 3 * q + r < |s| && (r > 0 ==> v % 256 == s[3 * q + r - 1])
    ensures Emit(t, Wrap(v * 256 + s[3 * q + r]), Pending(r) + 8) ==
            if r < 2 then [Quartet(Table(t), s, q)[r]] else [Quartet(Table(t), s, q)[2], Quartet(Table(t), s, q)[3]]
  {
    QuartetSymbols(t, s, q);
    EmitSymbols(t, if r > 0 then s[3 * q + r - 1] else 0, s[3 * q + r], v, r);
  }

  lemma EmitSymbols(t: Alphabet, l: Byte, c: Byte, v: int, r: nat)
    requires r < 3 && (r > 0 ==> v % 256 == l)
    ensures Emit(t, Wrap(v * 256 + c), Pending(r) + 8) ==
            if r == 0 then [t[c / 4]]
            else if r == 1 then [t[l % 4 * 16 + c / 16]]
            else [t[l % 16 * 4 + c / 64], t[c % 64]]
  {
    var w := Wrap(v * 256 + c);
    Pushed(v, c);
    Bits(w, v % 256, c);
    if r == 2 {
      EmitTwo(t, w);
    } else {
      EmitOne(t, w, Pending(r) + 8);
    }
  }

  lemma FinalSextet(t: Alphabet, s: seq<Byte>, q: nat, r: nat, v: int)
    requires 0 < r < 3 && 3 * q + r == |s| && v % 256 == s[|s| - 1]
    ensures t[Sextet(Wrap(v * 256), Pending(r) + 8)] == Quartet(Table(t), s, q)[r]
    ensures forall j :: r < j < 4 ==> Quartet(Table(t), s, q)[j] == '='
  {
    Pushed(v, 0);
    Bits(Wrap(v * 256), v % 256, 0);
  }

  /** The inner loop: put out six bits at a time while there are six. */
  method Shift(t: Alphabet, before: string, val: int, bits: int) returns (out: string, valb: int)
    requires 0 <= bits < 7
    ensures out == before + Emit(t, val, bits)
    ensures valb == if bits == 6 then -6 else bits - 6
  {
    out, valb := before, bits;
    while valb >= 0
      invariant valb == bits || valb == bits - 6 || (bits == 6 && valb == -6)
      invariant out + Emit(t, val, valb) == before + Emit(t, val, bits)
    {
      out := out + [t[Sextet(val, valb)]];
      valb := valb - 6;
    }
  }

  /** The last loop: fill up with '=' to a multiple of four. */
  method PadTo(start: string, ghost goal: string) returns (out: string)
    requires start <= goal && |goal| - |start| < 4 && |goal| % 4 == 0
    requires forall j :: |start| <= j < |goal| ==> goal[j] == '='
    ensures out == goal
  {
    out := start;
    while |out| % 4 != 0
      invariant out <= goal && |goal| - |out| < 4
      invariant forall j :: |out| <= j < |goal| ==> goal[j] == '='
      decreases |goal| - |out|
    {
      assert |out| < |goal|;
      assert goal[|out|] == '=';
      out := out + ['='];
    }
    assert |out| == |goal|;
  }

  lemma PrefixMore(goal: string, q: nat, r: nat, z: string, more: string)
    requires HasAt(goal, 4 * q, z) && r + |more| <= 4 == |z| && z[r..r + |more|] == more
    ensures goal[..4 * q + r] + more == goal[..4 * q + r + |more|]
  {
    var k := 4 * q;
    SliceOfSlice(goal, k, r, |more|);
    Rejoin(goal, k + r, k + r + |more|);
  }

  lemma SliceOfSlice(g: string, k: nat, r: nat, n: nat)
    requires k + 4 <= |g| && r + n <= 4
    ensures g[k..k + 4][r..r + n] == g[k + r..k + r + n]
  {
    var a, b := g[k..k + 4][r..r + n], g[k + r..k + r + n];
    assert |a| == |b|;
    forall i | 0 <= i < |a|
      ensures a[i] == b[i]
    {
      assert a[i] == g[k..k + 4][r + i];
    }
  }

  lemma Rejoin(goal: string, a: nat, b: nat)
    requires a <= b <= |goal|
    ensures goal[..a] + goal[a..b] == goal[..b]
  {
    assert goal[..b] == goal[..b][..a] + goal[..b][a..];
  }

  lemma PrefixOne(goal: string, q: nat, r: nat, z: string)
    requires HasAt(goal, 4 * q, z) && r < 4 == |z|
    ensures goal[..4 * q + r] + [z[r]] == goal[..4 * q + r + 1]
  {
    assert z[r..r + 1] == [z[r]];
    PrefixMore(goal, q, r, z, [z[r]]);
  }

  lemma PrefixTwo(goal: string, q: nat, z: string)
    requires HasAt(goal, 4 * q, z) && |z| == 4
    ensures goal[..4 * q + 2] + [z[2], z[3]] == goal[..4 * q + 4]
  {
    assert z[2..4] == [z[2], z[3]];
    PrefixMore(goal, q, 2, z, [z[2], z[3]]);
  }

  /** How many symbols are out when r bytes of group q have been taken. */
  function Out(q: nat, r: nat): nat { if r == 3 then 4 * q + 4 else 4 * q + r }

  lemma StepPrefix(t: Alphabet, s: seq<Byte>, q: nat, r: nat, v: int)
    requires r < 3 && 3 * q + r < |s| && (r > 0 ==> v % 256 == s[3 * q + r - 1])
    ensures Out(q, r) <= |Encode(Table(t), s)| && Out(q, r + 1) <= |Encode(Table(t), s)|
    ensures Encode(Table(t), s)[..Out(q, r)] + Emit(t, Wrap(v * 256 + s[3 * q + r]), Pending(r) + 8) ==
            Encode(Table(t), s)[..Out(q, r + 1)]
  {
    EmitNext(t, s, q, r, v);
    TableFits(t);
    QuartetAt(Table(t), s, q);
    if r < 2 {
      PrefixOne(Encode(Table(t), s), q, r, Quartet(Table(t), s, q));
    } else {
      PrefixTwo(Encode(Table(t), s), q, Quartet(Table(t), s, q));
    }
  }

  lemma FinalPrefix(t: Alphabet, s: seq<Byte>, q: nat, r: nat, v: int)
    requires 0 < r < 3 && 3 * q + r == |s| && v % 256 == s[|s| - 1]
    ensures |Encode(Table(t), s)| == 4 * q + 4
    ensures Encode(Table(t), s)[..4 * q + r] + [t[Sextet(Wrap(v * 256), Pending(r) + 8)]] ==
            Encode(Table(t), s)[..4 * q + r + 1]
    ensures forall j :: 4 * q + r + 1 <= j < 4 * q + 4 ==> Encode(Table(t), s)[j] == '='
  {
    FinalSextet(t, s, q, r, v);
    TableFits(t);
    QuartetAt(Table(t), s, q);
    EncodedLength(Table(t), s);
    var z, e := Quartet(Table(t), s, q), Encode(Table(t), s);
    PrefixOne(e, q, r, z);
    forall j | 4 * q + r + 1 <= j < 4 * q + 4
      ensures e[j] == '='
    {
      assert e[4 * q..4 * q + 4][j - 4 * q] == e[j];
    }
  }

  /** After the last byte: the bits still waiting, and the padding. */
  method FinishBits(t: Alphabet, s: seq<Byte>, start: string, val: int, valb: int, ghost q: nat, ghost r: nat)
    returns (out: string)
    requires |s| == 3 * q + r && r < 3 && valb == Pending(r) && (r > 0 ==> val % 256 == s[|s| - 1])
    requires Out(q, r) <= |Encode(Table(t), s)| && start == Encode(Table(t), s)[..Out(q, r)]
    ensures out == Encode(Table(t), s)
  {
    out := start;
    if valb > -6 {
      FinalPrefix(t, s, q, r, val);
      out := out + [t[Sextet(Wrap(val * 256), valb + 8)]];
    } else {
      WholeGroups(t, s, q);
    }
    out := PadTo(out, Encode(Table(t), s));
  }

  /** The accumulator is a 32-bit word that overflows, and wraps, from the fourth byte on. */
  method EncodeBits(t: Alphabet, s: seq<Byte>) returns (out: string)
    ensures out == Encode(Table(t), s)
  {
    out := "";
    var val, valb := 0, -6;
    var i := 0;
    ghost var q, r := 0, 0;
    ghost var goal := Encode(Table(t), s);
    while i < |s|
      invariant i == 3 * q + r <= |s| && r < 3
      invariant valb == Pending(r) && (r > 0 ==> val % 256 == s[i - 1])
      invariant Out(q, r) <= |goal| && out == goal[..Out(q, r)]
    {
      StepPrefix(t, s, q, r, val);
      Pushed(val, s[i]);
      val := Wrap(val * 256 + s[i]);
      out, valb := Shift(t, out, val, valb + 8);
      i := i + 1;
      if r < 2 { r := r + 1; } else { q, r := q + 1, 0; }
    }
    out := FinishBits(t, s, out, val, valb, q, r);
  }

  lemma WholeGroups(t: Alphabet, s: seq<Byte>, q: nat)
    requires |s| == 3 * q
    ensures |Encode(Table(t), s)| == 4 * q
  {
    EncodedLength(Table(t), s);
  }

  // ----- the decoder -----

  function Symbol(n: nat): char
    requires n < 64
  {
    if n < 26 then ('A' as int + n) as char
    else if n < 52 then ('a' as int + (n - 26)) as char
    else if n < 62 then ('0' as int + (n - 52)) as char
    else if n == 62 then '+' else '/'
  }

  /** The alphabet of the standard. */
  function Standard(): (t: string)
    ensures |t| == 64
  {
    seq(64, n requires 0 <= n < 64 => Symbol(n))
  }

  /** The decoding table, 64 for a character outside the alphabet; '=' counts as zero bits. */
  function Value(c: char): (v: nat)
    ensures v <= 64
  {
    if 'A' <= c <= 'Z' then c as int - 'A' as int
    else if 'a' <= c <= 'z' then c as int - 'a' as int + 26
    else if '0' <= c <= '9' then c as int - '0' as int + 52
    else if c == '+' then 62 else if c == '/' then 63
    else if c == '=' then 0 else 64
  }

  /** The decoder knows every symbol of t. */
  predicate Known(t: string) {
    |t| == 64 && forall n :: 0 <= n < 64 ==> Value(t[n]) == n && t[n] != '='
  }

  lemma StandardKnown()
    ensures Known(Standard())
  {
    forall n | 0 <= n < 64
      ensures Value(Symbol(n)) == n && Symbol(n) != '='
    {
    }
  }

  /** And the table has an entry for nothing else but the padding. */
  lemma StandardOnly(c: char)
    ensures Value(c) < 64 <==> c == '=' || c in Standard()
  {
    if Value(c) < 64 && c != '=' {
      assert Standard()[Value(c)] == c;
    }
    if c in Standard() {
      var n :| 0 <= n < 64 && Standard()[n] == c;
      StandardKnown();
    }
  }

  function Bytes(triple: nat): (r: seq<Byte>)
    ensures |r| == 3
  {
    [triple / 65536 % 256, triple / 256 % 256, triple % 256]
  }

  function Triple(z: string): nat
    requires |z| == 4
  {
    Value(z[0]) * 262144 + Value(z[1]) * 4096 + Value(z[2]) * 64 + Value(z[3])
  }

  function DecodeAll(e: string): seq<Byte> {
    if |e| < 4 then [] else Bytes(Triple(e[..4])) + DecodeAll(e[4..])
  }

  function PadCount(e: string): nat
    requires |e| >= 4
  {
    (if e[|e| - 1] == '=' then 1 else 0) + (if e[|e| - 2] == '=' then 1 else 0)
  }

  lemma {:induction false} GroupAt(e: string, k: nat)
    requires 4 * k + 4 <= |e|
    ensures 3 * k + 3 <= |DecodeAll(e)| && DecodeAll(e)[3 * k..3 * k + 3] == Bytes(Triple(e[4 * k..4 * k + 4]))
    decreases k
  {
    var h, d := Bytes(Triple(e[..4])), DecodeAll(e[4..]);
    if k == 0 {
      assert e[0..4] == e[..4];
      assert (h + d)[0..3] == h;
    } else {
      GroupAt(e[4..], k - 1);
      assert e[4..][4 * (k - 1)..4 * (k - 1) + 4] == e[4 * k..4 * k + 4];
      SkipGroup(h, d, k - 1);
    }
  }

  lemma SkipGroup(h: seq<Byte>, d: seq<Byte>, k: nat)
    requires |h| == 3 && 3 * k + 3 <= |d|
    ensures (h + d)[3 * k + 3..3 * k + 6] == d[3 * k..3 * k + 3]
  {
  }

  lemma {:induction false} DecodedLength(e: string)
    ensures |DecodeAll(e)| == |e| / 4 * 3
  {
    if |e| >= 4 {
      DecodedLength(e[4..]);
    }
  }

  method StoreGroup(out: array<Byte>, j: nat, b: seq<Byte>) returns (j': nat)
    requires j <= out.Length && |b| == 3
    modifies out
    ensures j' == if j + 3 <= out.Length then j + 3 else out.Length
    ensures forall x :: 0 <= x < j ==> out[x] == old(out[x])
    ensures forall x :: j <= x < j' ==> out[x] == b[x - j]
  {
    j' := j;
    if j' < out.Length { out[j'] := b[0]; j' := j' + 1; }
    if j' < out.Length { out[j'] := b[1]; j' := j' + 1; }
    if j' < out.Length { out[j'] := b[2]; j' := j' + 1; }
  }

  /** Writes the bytes of each group while there is room in the preallocated output. */
  method DecodeGroups(e: string, out: array<Byte>, ghost groups: nat)
    requires |e| == 4 * groups && out.Length <= 3 * groups == |DecodeAll(e)|
    modifies out
    ensures out[..] == DecodeAll(e)[..out.Length]
  {
    ghost var goal := DecodeAll(e);
    var i, j := 0, 0;
    ghost var k := 0;
    while i < |e|
      invariant i == 4 * k && k <= groups
      invariant j == (if 3 * k <= out.Length then 3 * k else out.Length)
      invariant forall x :: 0 <= x < j ==> out[x] == goal[x]
    {
      GroupAt(e, k);
      var b := Bytes(Triple(e[i..i + 4]));
      GroupBytes(goal, k, b);
      j := StoreGroup(out, j, b);
      i := i + 4;
      k := k + 1;
    }
  }

  method DecodeText(e: string) returns (ok: bool, r: seq<Byte>)
    requires e != ""
    ensures ok <==> |e| % 4 == 0
    ensures ok ==> |e| >= 4 && PadCount(e) <= |DecodeAll(e)| && r == DecodeAll(e)[..|DecodeAll(e)| - PadCount(e)]
  {
    if |e| % 4 != 0 { return false, []; }
    DecodedLength(e);
    var out := new Byte[|e| / 4 * 3 - PadCount(e)];
    DecodeGroups(e, out, |e| / 4);
    return true, out[..];
  }

  lemma GroupBytes(goal: seq<Byte>, k: nat, b: seq<Byte>)
    requires 3 * k + 3 <= |goal| && |b| == 3 && goal[3 * k..3 * k + 3] == b
    ensures goal[3 * k] == b[0] && goal[3 * k + 1] == b[1] && goal[3 * k + 2] == b[2]
  {
    assert goal[3 * k..3 * k + 3][0] == goal[3 * k];
  }

  // ----- both encoders and the decoder together -----

  lemma TripleOf(t: Alphabet, a: nat, b: nat, c: nat, d: nat)
    requires Known(t) && a < 64 && b < 64 && c < 64 && d < 64
    ensures Triple(Four(t, a, b, c, d)) == a * 262144 + b * 4096 + c * 64 + d
  {
  }

  lemma SumOf(a: Byte, b: Byte, c: Byte)
    ensures a / 4 * 262144 + (a % 4 * 16 + b / 16) * 4096 + (b % 16 * 4 + c / 64) * 64 + c % 64 ==
            a * 65536 + b * 256 + c
  {
    assert a == a / 4 * 4 + a % 4;
    assert b == b / 16 * 16 + b % 16;
    assert c == c / 64 * 64 + c % 64;
  }

  lemma BytesOf(a: Byte, b: Byte, c: Byte)
    ensures Bytes(a * 65536 + b * 256 + c) == [a, b, c]
  {
    var x := a * 65536 + b * 256 + c;
    assert x / 65536 == a;
    assert x / 256 == a * 256 + b;
    assert x % 256 == c;
  }

  lemma BlockDecodes(t: Alphabet, a: Byte, b: Byte, c: Byte)
    requires Known(t)
    ensures Bytes(Triple(Block(t, a, b, c))) == [a, b, c]
  {
    TripleOf(t, a / 4, a % 4 * 16 + b / 16, b % 16 * 4 + c / 64, c % 64);
    SumOf(a, b, c);
    BytesOf(a, b, c);
  }

  lemma Tail1Decodes(t: Alphabet, a: Byte)
    requires Known(t)
    ensures Bytes(Triple(Tail1(t, a))) == [a, 0, 0] && PadCount(Tail1(t, a)) == 2
  {
    assert Triple(Tail1(t, a)) == a / 4 * 262144 + a % 4 * 16 * 4096;
    SumOf(a, 0, 0);
    BytesOf(a, 0, 0);
  }

  lemma Tail2Decodes(t: Alphabet, a: Byte, b: Byte)
    requires Known(t)
    ensures Bytes(Triple(Tail2(t, a, b))) == [a, b, 0] && PadCount(Tail2(t, a, b)) == 1
  {
    assert Triple(Tail2(t, a, b)) == a / 4 * 262144 + (a % 4 * 16 + b / 16) * 4096 + b % 16 * 4 * 64;
    SumOf(a, b, 0);
    BytesOf(a, b, 0);
  }

  lemma DecodeOne(z: string)
    requires |z| == 4
    ensures DecodeAll(z) == Bytes(Triple(z))
  {
    assert z[..4] == z && z[4..] == "";
  }

  lemma DecodeCons(z: string, e: string)
    requires |z| == 4 && |e| >= 4
    ensures DecodeAll(z + e) == Bytes(Triple(z)) + DecodeAll(e) && PadCount(z + e) == PadCount(e)
  {
    assert (z + e)[..4] == z && (z + e)[4..] == e;
  }

  /** What decoding keeps of an encoding: the input, without the filler. */
  ghost predicate Decodes(e: string, s: seq<Byte>) {
    |e| >= 4 && PadCount(e) <= |DecodeAll(e)| &&
    DecodeAll(e)[..|DecodeAll(e)| - PadCount(e)] == s
  }

  lemma DecodesCons(z: string, x: seq<Byte>, e: string, s: seq<Byte>)
    requires |z| == 4 && Bytes(Triple(z)) == x && Decodes(e, s)
    ensures Decodes(z + e, x + s)
  {
    DecodeCons(z, e);
    DropEnd(x, DecodeAll(e), PadCount(e));
  }

  lemma DropEnd(x: seq<Byte>, d: seq<Byte>, n: nat)
    requires n <= |d|
    ensures (x + d)[..|x + d| - n] == x + d[..|d| - n]
  {
  }

  lemma DecodesShort(t: Alphabet, s: seq<Byte>)
    requires Known(t) && 0 < |s| <= 3
    ensures Decodes(Encode(Table(t), s), s)
  {
    EncodeShort(Table(t), s);
    if |s| == 1 {
      Tail1Decodes(t, s[0]);
      ShortOne(Tail1(t, s[0]), s);
    } else if |s| == 2 {
      Tail2Decodes(t, s[0], s[1]);
      ShortTwo(Tail2(t, s[0], s[1]), s);
    } else {
      BlockDecodes(t, s[0], s[1], s[2]);
      BlockEnds(t, s[0], s[1], s[2]);
      ShortThree(Block(t, s[0], s[1], s[2]), s);
    }
  }

  lemma EncodeShort(k: Coder, s: seq<Byte>)
    requires 0 < |s| <= 3
    ensures Encode(k, s) ==
            if |s| == 1 then k.tail1(s[0]) else if |s| == 2 then k.tail2(s[0], s[1]) else k.block(s[0], s[1], s[2])
  {
    if |s| == 3 {
      assert Encode(k, s[3..]) == "";
      assert k.block(s[0], s[1], s[2]) + "" == k.block(s[0], s[1], s[2]);
    }
  }

  lemma BlockEnds(t: Alphabet, a: Byte, b: Byte, c: Byte)
    requires Known(t)
    ensures PadCount(Block(t, a, b, c)) == 0
  {
    SymbolEnds(t, b % 16 * 4 + c / 64);
    SymbolEnds(t, c % 64);
  }

  lemma SymbolEnds(t: Alphabet, n: nat)
    requires Known(t) && n < 64
    ensures t[n] != '='
  {
  }

  lemma ShortOne(z: string, s: seq<Byte>)
    requires |z| == 4 && |s| == 1 && Bytes(Triple(z)) == [s[0], 0, 0] && PadCount(z) == 2
    ensures Decodes(z, s)
  {
    DecodeOne(z);
    assert [s[0], 0, 0][..1] == s;
  }

  lemma ShortTwo(z: string, s: seq<Byte>)
    requires |z| == 4 && |s| == 2 && Bytes(Triple(z)) == [s[0], s[1], 0] && PadCount(z) == 1
    ensures Decodes(z, s)
  {
    DecodeOne(z);
    assert [s[0], s[1], 0][..2] == s;
  }

  lemma ShortThree(z: string, s: seq<Byte>)
    requires |z| == 4 && |s| == 3 && Bytes(Triple(z)) == [s[0], s[1], s[2]] && PadCount(z) == 0
    ensures Decodes(z, s)
  {
    DecodeOne(z);
    assert [s[0], s[1], s[2]][..3] == s;
  }

  /** Decoding inverts the encoding on every non-empty input. */
  lemma {:induction false} DecodeEncode(t: Alphabet, s: seq<Byte>)
    requires Known(t) && s != []
    ensures Decodes(Encode(Table(t), s), s)
  {
    if |s| <= 3 {
      DecodesShort(t, s);
    } else {
      DecodeEncode(t, s[3..]);
      BlockDecodes(t, s[0], s[1], s[2]);
      DecodesCons(Block(t, s[0], s[1], s[2]), [s[0], s[1], s[2]], Encode(Table(t), s[3..]), s[3..]);
      assert [s[0], s[1], s[2]] + s[3..] == s;
    }
  }

  /**
    On two bytes or more the two encoders give the same text, of four characters for
    every started group of three bytes, and the decoder gives the input back.
   */
  method EncodersAgree(t: Alphabet, s: seq<Byte>) returns (bits: string, blocks: string, ok: bool, back: seq<Byte>)
    requires Known(t) && |s| >= 2
    ensures bits == blocks == Encode(Table(t), s) && |bits| == 4 * ((|s| + 2) / 3)
    ensures ok && back == s
  {
    TableFits(t);
    EncodedLength(Table(t), s);
    bits := EncodeBits(t, s);
    blocks := EncodeBlocks(Table(t), s);
    ok, back := DecodeEncoded(t, s, blocks);
  }

  method DecodeEncoded(t: Alphabet, ghost s: seq<Byte>, e: string) returns (ok: bool, back: seq<Byte>)
    requires Known(t) && s != [] && e == Encode(Table(t), s)
    ensures ok && back == s
  {
    TableFits(t);
    EncodedLength(Table(t), s);
    DecodeEncode(t, s);
    ok, back := DecodeText(e);
  }

  /** With the alphabet of the standard. */
  method StandardEncodersAgree(s: seq<Byte>) returns (bits: string, blocks: string, ok: bool, back: seq<Byte>)
    requires |s| >= 2
    ensures bits == blocks == Encode(Table(Standard()), s) && |bits| == 4 * ((|s| + 2) / 3)
    ensures ok && back == s
  {
    StandardKnown();
    bits, blocks, ok, back := EncodersAgree(Standard(), s);
  }
}
