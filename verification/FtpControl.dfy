/**
  The FTP client's control connection: a receive buffer with put and get cursors, lines
  taken out of it with CR LF turned into LF, and whole replies (section 4.2 of RFC 959).
  Also the opposite conversion, made when a text file is sent.
 */
module FtpControl {
  import opened Text
  import opened Streams

  const BUFSIZ := 1048576
  const RESPONSE := 512

  // ----- lines -----

  /** A line as the caller gets it: CR LF becomes LF. */
  function Chomped(line: string): (r: string)
    ensures |line| - 1 <= |r| <= |line|
  {
    if |line| >= 2 && line[|line| - 2..] == CRLF then line[..|line| - 2] + "\n" else line
  }

  /** With the terminator, the next line fits in size characters. */
  predicate Fits(p: string, size: int) {
    var line := LineOf(p);
    if line != "" && line[|line| - 1] == '\n' then |line| < size else |line| + 1 < size
  }

  lemma FirstNewline(p: string, k: nat)
    requires k < |p| && '\n' !in p[..k] && p[k] == '\n'
    ensures LineOf(p) == p[..k + 1] && AfterLine(p) == p[k + 1..]
  {
    assert p == p[..k] + "\n" + p[k + 1..];
    LineEnds(p[..k], p[k + 1..]);
  }

  /** Characters without a newline never fill up the caller's buffer. */
  lemma NoNewlineFits(p: string, k: nat, size: int)
    requires k <= |p| && '\n' !in p[..k] && Fits(p, size)
    ensures k + 1 < size
  {
    var line := LineOf(p);
    LineIsPrefix(p);
    LineLast(p);
    assert |line| <= k ==> line == p[..k][..|line|];
  }

  lemma NewlineFits(p: string, k: nat, size: int)
    requires k < |p| && '\n' !in p[..k] && p[k] == '\n'
    ensures Fits(p, size) <==> k + 1 < size
  {
    FirstNewline(p, k);
  }

  lemma {:induction false} LineLast(p: string)
    ensures var line := LineOf(p); '\n' in line ==> line[|line| - 1] == '\n'
    ensures LineOf(p) == p || '\n' in LineOf(p)
  {
    if p != "" && p[0] != '\n' {
      LineLast(p[1..]);
    }
  }

  lemma Advance(p: string, k: nat, piece: string, rest: string)
    requires k <= |p| && p[k..] == piece + rest
    ensures k + |piece| <= |p| && p[..k + |piece|] == p[..k] + piece && p[k + |piece|..] == rest
  {
    assert p == p[..k] + (piece + rest);
  }

  // ----- the handle -----

  class FtpHandle {
    const handle: Stream
    const buf: array<char>
    const response: array<char>
    var cput: nat
    var cget: nat
    var cavail: nat
    var cleft: nat

    ghost predicate Valid()
      reads this
    {
      buf.Length == BUFSIZ && response.Length == RESPONSE && buf != response && cput == cget + cavail <= BUFSIZ
    }

    /** Received and not yet read, then what is still to arrive. */
    ghost function Pending(): string
      reads this, buf, handle
      requires Valid()
    {
      buf[cget..cput] + handle.rest
    }

    constructor (handle: Stream)
      ensures Valid() && Pending() == handle.rest && this.handle == handle && fresh(buf) && fresh(response)
      ensures response[3] != '-'
    {
      this.handle := handle;
      buf, response := new char[BUFSIZ], new char[RESPONSE](_ => '\0');
      cput, cget, cavail, cleft := 0, 0, 0, 0;
    }

    /** Copies up to n unread characters, the newline the last of them. */
    method CopyToNewline(out: array<char>, bp: nat, n: nat) returns (x: nat, found: bool)
      requires Valid() && out != buf && n <= cavail && bp + n <= out.Length
      modifies out
      ensures x <= n && out[..bp + x] == old(out[..bp]) + buf[cget..cget + x]
      ensures forall i :: bp + x <= i < out.Length ==> out[i] == old(out[i])
      ensures !found ==> x == n && '\n' !in buf[cget..cget + x]
      ensures found ==> x > 0 && buf[cget + x - 1] == '\n' && '\n' !in buf[cget..cget + x - 1]
    {
      x, found := 0, false;
      while x < n
        invariant x <= n && out[..bp + x] == old(out[..bp]) + buf[cget..cget + x]
        invariant forall i :: bp + x <= i < out.Length ==> out[i] == old(out[i])
        invariant '\n' !in buf[cget..cget + x]
      {
        out[bp + x] := buf[cget + x];
        assert buf[cget..cget + x + 1] == buf[cget..cget + x] + [buf[cget + x]];
        assert out[..bp + x + 1] == out[..bp + x] + [out[bp + x]];
        x := x + 1;
        if buf[cget + x - 1] == '\n' { return x, true; }
      }
    }

    /** Called with an empty buffer at its full capacity only. */
    method Receive() returns (x: int)
      requires Valid() && cput == cget == 0 && cavail == 0 && cleft == BUFSIZ
      modifies this, buf, handle
      ensures Valid() && cleft + cput == BUFSIZ
      ensures -1 <= x && (x == -1 ==> handle.broken && handle.rest == old(handle.rest))
      ensures x >= 0 ==> handle.broken == old(handle.broken) && Pending() == old(Pending())
      ensures x == 0 ==> Pending() == ""
      ensures x > 0 ==> |handle.rest| < |old(handle.rest)|
    {
      var data;
      x, data := handle.Read(cleft);
      if x > 0 {
        forall i | 0 <= i < x { buf[i] := data[i]; }
        assert buf[0..x] == data;
        cleft, cavail, cput := cleft - x, cavail + x, cput + x;
      }
    }

    /**
      One step of the reading loop: takes the unread characters up to the newline, as many
      as the caller's buffer has room for.  over tells that the terminator found no room.
     */
    method Take(out: array<char>, size: nat, bp: nat, ghost pending: string) returns (x: nat, found: bool, over: bool)
      requires Valid() && out != buf && size <= out.Length && bp + 1 < size && bp <= |pending|
      requires out[..bp] == pending[..bp] && '\n' !in pending[..bp] && Pending() == pending[bp..]
      modifies out, this
      ensures Valid() && bp + x <= |pending| && bp + x <= size && out[..bp + x] == pending[..bp + x]
      ensures forall i :: bp + x <= i < out.Length ==> out[i] == old(out[i])
      ensures Pending() == pending[bp + x..]
      ensures over <==> bp + x == size
      ensures over ==> !Fits(pending, size)
      ensures !found ==> '\n' !in pending[..bp + x] && (bp + x + 1 < size ==> cavail == 0)
      ensures over ==> cavail == 0
      ensures !found && !over ==> cavail != 1
      ensures found ==> pending[..bp + x] == LineOf(pending) && Pending() == AfterLine(pending) && bp + x > 0
      ensures found && !over ==> Fits(pending, size)
    {
      var max := size - bp;
      var n := if max >= cavail then cavail else max - 1;
      x, found := CopyToNewline(out, bp, n);
      assert buf[cget..cput] == buf[cget..cget + x] + buf[cget + x..cput];
      TakeKeeps(pending, bp, buf[cget..cget + x], buf[cget + x..cput], handle.rest, size, found);
      cget, cavail := cget + x, cavail - x;
      over := x == max;
    }

    /**
      Turns the CR LF at the end of a copied line into LF.  For a lone LF the source looks
      at the byte before its buffer, which is part of a counter and no CR.
     */
    method Chomp(out: array<char>, n: nat, ghost line: string) returns (retval: nat)
      requires 1 <= n == |line| < out.Length && out[..n] == line && out[n] == '\0'
      modifies out
      ensures Holds(out, Chomped(line)) && retval == |Chomped(line)|
      ensures out[n] == '\0' && forall i :: n < i < out.Length ==> out[i] == old(out[i])
    {
      retval := n;
      if n >= 2 {
        assert line[n - 2..] == [out[n - 2], out[n - 1]];
        if out[n - 2] == '\r' && out[n - 1] == '\n' {
          out[n - 2], out[n - 1] := '\n', '\0';
          retval := retval - 1;
        }
      }
    }

    /**
      Whatever the fragmentation, if the next line fits: that line, or what is left at the
      end, or -1 when nothing is left or the connection breaks.  Of a line that does not
      fit, as many characters as fit are dropped and an empty text is given, unless the
      terminator is put beyond the buffer: that happens exactly if, with the last piece
      received, as many bytes have arrived as the buffer holds.
     */
    method Readline(out: array<char>, size: nat) returns (retval: int, over: bool)
      requires Valid() && out != buf && 2 <= size <= out.Length
      modifies this, buf, handle, out
      ensures Valid()
      ensures over <==> !Fits(old(Pending()), size) && |old(Pending())| - |handle.rest| == size
      ensures retval == -1 ==> handle.broken || old(Pending()) == Pending() == ""
      ensures !over && retval != -1 ==>
                handle.broken == old(handle.broken) &&
                if Fits(old(Pending()), size) then LineTaken(out, old(out[..]), retval, old(Pending()), Pending())
                else retval == size - 1 <= |old(Pending())| && out[0] == '\0' && Pending() == old(Pending())[size - 1..]
    {
      ghost var pending, was := Pending(), out[..];
      var bp: nat, eof, found := 0, false, false;
      over := false;
      assert pending[0..] == pending;
      while true
        invariant Valid() && handle.broken == old(handle.broken)
        invariant Begun(out, was, size, bp, pending) && bp + 1 < size && Pending() == pending[bp..]
        invariant eof ==> Pending() == ""
        decreases |handle.rest|, if eof then 0 else 1
      {
        if cavail > 0 {
          bp, found, over := TakeMore(out, was, size, bp, pending);
          if over { return 0, true; }
          if found {
            retval := Chomp(out, bp, LineOf(pending));
            return;
          }
        }
        if size - bp == 1 {
          DoesNotFit(pending, bp, size);
          out[0] := '\0';
          return bp, false;
        }
        if cput == cget { Rewind(); }
        if eof {
          AtEnd(out, was, size, bp, pending);
          return if bp == 0 then -1 else bp, false;
        }
        var x := Receive();
        if x == -1 { return -1, false; }
        if x == 0 { eof := true; }
      }
    }

    method TakeMore(out: array<char>, ghost was: seq<char>, size: nat, bp: nat, ghost pending: string)
      returns (bp': nat, found: bool, over: bool)
      requires Valid() && out != buf && size <= out.Length && bp + 1 < size
      requires Begun(out, was, size, bp, pending) && Pending() == pending[bp..]
      modifies out, this
      ensures Valid() && bp' <= |pending| && Pending() == pending[bp'..]
      ensures over ==> !Fits(pending, size) && bp' == size && cavail == 0
      ensures !over && !found ==> Begun(out, was, size, bp', pending) && (bp' + 1 < size ==> cavail == 0) && cavail != 1
      ensures !over && found ==> Fits(pending, size) && Holds(out, LineOf(pending)) && Untouched(out, was, bp') &&
                                 Pending() == AfterLine(pending) && bp' == |LineOf(pending)| > 0
    {
      var x;
      x, found, over := Take(out, size, bp, pending);
      bp' := bp + x;
      if !over {
        out[bp'] := '\0';
      }
    }

    method Rewind()
      requires Valid() && cput == cget
      modifies this
      ensures Valid() && Pending() == old(Pending()) && cput == cget == 0 && cavail == 0 && cleft == BUFSIZ
    {
      cput, cget, cavail, cleft := 0, 0, 0, BUFSIZ;
    }

    /** One line of a reply into the response buffer. */
    method NextLine(ghost line: string, ghost tail: string) returns (ok: bool)
      requires Valid() && FitLine(line) && Pending() == line + "\n" + tail
      modifies this, buf, handle, response
      ensures Valid() && (!ok ==> handle.broken)
      ensures ok ==> handle.broken == old(handle.broken) && Pending() == tail && Holds(response, Got(line))
      ensures ok ==> response[3] == if |line| >= 2 then CharAt(Got(line), 3) else old(response[3])
    {
      LineEnds(line, tail);
      assert AfterLine(line + "\n" + tail) == tail;
      assert Fits(line + "\n" + tail, RESPONSE);
      var n, over := Readline(response, RESPONSE);
      return n != -1;
    }

    /**
      Whatever the fragmentation: takes exactly one reply, and answers for the first
      character of its last line.  After a first line too short to overwrite it, the source
      looks at what the reply before left there, which every complete reply leaves harmless.
     */
    method ReadResponse(c: string, ghost r: Reply, ghost tail: string) returns (ok: bool)
      requires Valid() && WellFormed(r) && Pending() == Print(r) + tail
      requires |FirstLine(r)| < 2 ==> response[3] != '-'
      modifies this, buf, handle, response
      ensures Valid()
      ensures ok ==> handle.broken == old(handle.broken)
      ensures handle.broken ||
              (Pending() == tail && Holds(response, Last(r)) && ok == (Last(r)[0] in c) && response[3] != '-')
    {
      PrintFirst(r, tail);
      ok := NextLine(FirstLine(r), Rest(r) + tail);
      if !ok { return; }
      if response[3] == '-' {
        ok := FinishReply(r, tail);
        if !ok { return; }
      }
      return response[0] in c;
    }

    /** The rest of a multi-line reply. */
    method FinishReply(ghost r: Reply, ghost tail: string) returns (ok: bool)
      requires Valid() && WellFormed(r) && r.Multi? && Pending() == Rest(r) + tail && Holds(response, Got(r.first))
      modifies this, buf, handle, response
      ensures Valid() && (!ok ==> handle.broken)
      ensures ok ==> handle.broken == old(handle.broken) && Pending() == tail && Holds(response, Last(r))
      ensures ok ==> response[3] == ' '
    {
      PrintFirst(r, tail);
      assert response[..3] == Got(r.first)[..3];
      ok := SkipTo(response[..3] + " ", r.middle, r.last, tail);
    }

    /** The lines of a reply after the first, up to the one that starts with the code and a blank. */
    method SkipTo(match': string, ghost middle: seq<string>, ghost last: string, ghost tail: string) returns (ok: bool)
      requires Valid() && |match'| == 4 && '\0' !in match' && MultiLines(match', middle, last)
      requires Pending() == Lines(middle) + last + "\n" + tail
      modifies this, buf, handle, response
      ensures Valid() && (!ok ==> handle.broken)
      ensures ok ==> handle.broken == old(handle.broken) && Pending() == tail && Holds(response, Got(last))
      ensures ok ==> response[3] == match'[3]
    {
      ghost var i := 0;
      while true
        invariant Valid() && handle.broken == old(handle.broken)
        invariant i <= |middle| && Pending() == Lines(middle[i..]) + last + "\n" + tail
        decreases |middle| - i
      {
        ghost var line := if i < |middle| then middle[i] else last;
        LinesStep(middle, i, last, tail);
        ok := NextLine(line, if i < |middle| then Lines(middle[i + 1..]) + last + "\n" + tail else tail);
        if !ok { return; }
        StartsLike(response[..], Got(line), match');
        if SameStart(response[..], match', 4) {
          assert response[3] == Got(line)[3];
          return;
        }
        i := i + 1;
      }
    }
  }

  // ----- replies -----

  /** Lines without their LF, the CR before it included. */
  datatype Reply = Single(line: string) | Multi(first: string, middle: seq<string>, last: string)

  predicate FitLine(line: string) { '\n' !in line && |line| <= RESPONSE - 2 }

  function Got(line: string): string { Chomped(line + "\n") }

  /** As C sees it, with the terminator. */
  function CharAt(text: string, i: nat): char { if i < |text| then text[i] else '\0' }

  predicate MultiLines(start: string, middle: seq<string>, last: string) {
    (forall l :: l in middle ==> FitLine(l) && !(start <= Got(l))) && FitLine(last) && start <= Got(last)
  }

  predicate WellFormed(r: Reply) {
    FitLine(FirstLine(r)) &&
    match r
    case Single(line) => CharAt(Got(line), 3) != '-'
    case Multi(first, middle, last) =>
      CharAt(Got(first), 3) == '-' && '\0' !in Got(first)[..3] && MultiLines(Got(first)[..3] + " ", middle, last)
  }

  function FirstLine(r: Reply): string { if r.Single? then r.line else r.first }

  function Last(r: Reply): (l: string)
    ensures l != ""
  {
    Got(if r.Single? then r.line else r.last)
  }

  function Lines(ls: seq<string>): string {
    if ls == [] then "" else ls[0] + "\n" + Lines(ls[1..])
  }

  function Rest(r: Reply): string {
    if r.Single? then "" else Lines(r.middle) + r.last + "\n"
  }

  function Print(r: Reply): string { FirstLine(r) + "\n" + Rest(r) }

  lemma PrintFirst(r: Reply, tail: string)
    ensures Print(r) + tail == FirstLine(r) + "\n" + (Rest(r) + tail)
    ensures r.Multi? ==> Rest(r) + tail == Lines(r.middle) + r.last + "\n" + tail
  {
  }

  lemma LinesStep(ls: seq<string>, i: nat, last: string, tail: string)
    requires i <= |ls|
    ensures i == |ls| ==> Lines(ls[i..]) + last + "\n" + tail == last + "\n" + tail
    ensures i < |ls| ==> Lines(ls[i..]) + last + "\n" + tail == ls[i] + "\n" + (Lines(ls[i + 1..]) + last + "\n" + tail)
  {
    if i < |ls| {
      assert ls[i..][1..] == ls[i + 1..];
    } else {
      assert ls[i..] == [];
    }
  }

  /** The first n characters agree, up to a terminator. */
  predicate SameStart(a: string, b: string, n: nat)
    requires |a| >= n && |b| >= n
  {
    n == 0 || (a[0] == b[0] && (a[0] == '\0' || SameStart(a[1..], b[1..], n - 1)))
  }

  /** What is left in the buffer behind the terminator does not matter. */
  lemma {:induction false} StartsLike(a: string, text: string, b: string)
    requires |text| < |a| && a[..|text|] == text && a[|text|] == '\0' && |b| <= |a| && '\0' !in b
    ensures SameStart(a, b, |b|) <==> b <= text
    decreases |b|
  {
    if b != "" {
      if text == "" {
        assert a[0] == '\0' && b[0] != '\0';
      } else if a[0] == b[0] {
        assert b[0] in b;
        StartsLike(a[1..], text[1..], b[1..]);
        assert b == [b[0]] + b[1..] && text == [text[0]] + text[1..];
      }
    }
  }

  /** What stands in the buffer behind position n was there before. */
  ghost predicate Untouched(out: array<char>, was: seq<char>, n: nat)
    reads out
  {
    |was| == out.Length && forall i :: n < i < out.Length ==> out[i] == was[i]
  }

  /** The first bp characters of a line have been copied, its newline not yet. */
  ghost predicate Begun(out: array<char>, was: seq<char>, size: nat, bp: nat, pending: string)
    reads out
  {
    bp < size <= out.Length && bp <= |pending| && out[..bp] == pending[..bp] &&
    '\n' !in pending[..bp] && (bp > 0 ==> out[bp] == '\0') && Untouched(out, was, bp)
  }

  lemma DoesNotFit(p: string, k: nat, size: nat)
    requires k <= |p| && '\n' !in p[..k] && k + 1 == size
    ensures !Fits(p, size)
  {
    if Fits(p, size) {
      NoNewlineFits(p, k, size);
    }
  }

  lemma AtEnd(out: array<char>, was: seq<char>, size: nat, bp: nat, pending: string)
    requires Begun(out, was, size, bp, pending) && bp + 1 < size && pending[bp..] == ""
    ensures if bp == 0 then pending == "" else Fits(pending, size) && LineTaken(out, was, bp, pending, "")
  {
    assert pending[..bp] == pending;
    LastLine(pending);
  }

  lemma LastLine(p: string)
    ensures '\n' !in p ==> LineOf(p) == p && AfterLine(p) == "" && Chomped(p) == p
  {
    if '\n' !in p {
      LineIsAll(p);
      assert |p| >= 2 ==> p[|p| - 2..][1] in p;
    }
  }

  /** The text up to the terminator. */
  ghost predicate Holds(out: array<char>, text: string)
    reads out
  {
    |text| < out.Length && out[..|text|] == text && out[|text|] == '\0'
  }

  /** The line was taken and stands in the buffer; what stood behind it is still there. */
  ghost predicate LineTaken(out: array<char>, was: seq<char>, n: int, before: string, after: string)
    reads out
  {
    var line := LineOf(before);
    before != "" && after == AfterLine(before) && n == |Chomped(line)| && Holds(out, Chomped(line)) &&
    |line| < out.Length && out[|line|] == '\0' && Untouched(out, was, |line|)
  }

  lemma TakeKeeps(p: string, k: nat, piece: string, unread: string, rest: string, size: nat, found: bool)
    requires k <= |p| && '\n' !in p[..k] && p[k..] == (piece + unread) + rest
    requires !found ==> '\n' !in piece
    requires found ==> piece != "" && piece[|piece| - 1] == '\n' && '\n' !in piece[..|piece| - 1]
    ensures k + |piece| <= |p| && p[..k + |piece|] == p[..k] + piece && p[k + |piece|..] == unread + rest
    ensures !found ==> '\n' !in p[..k + |piece|]
    ensures found ==> LineOf(p) == p[..k + |piece|] && AfterLine(p) == p[k + |piece|..]
    ensures found ==> (Fits(p, size) <==> k + |piece| < size)
    ensures k + |piece| == size ==> !Fits(p, size)
  {
    Assoc(piece, unread, rest);
    Advance(p, k, piece, unread + rest);
    if found {
      Ended(p, k, piece);
      NewlineFits(p, k + |piece| - 1, size);
    } else {
      assert forall c :: c in p[..k] + piece ==> c in p[..k] || c in piece;
      if Fits(p, size) {
        NoNewlineFits(p, k + |piece|, size);
      }
    }
  }

  lemma Ended(p: string, k: nat, piece: string)
    requires k + |piece| <= |p| && p[..k + |piece|] == p[..k] + piece && '\n' !in p[..k]
    requires piece != "" && piece[|piece| - 1] == '\n' && '\n' !in piece[..|piece| - 1]
    ensures LineOf(p) == p[..k + |piece|] && AfterLine(p) == p[k + |piece|..]
    ensures '\n' !in p[..k + |piece| - 1]
  {
    var n := k + |piece| - 1;
    EndedAt(p, k, piece, n);
    FirstNewline(p, n);
  }

  lemma EndedAt(p: string, k: nat, piece: string, n: nat)
    requires piece != "" && n == k + |piece| - 1 < |p| && p[..n + 1] == p[..k] + piece
    requires '\n' !in p[..k] && '\n' !in piece[..|piece| - 1]
    ensures '\n' !in p[..n] && p[n] == piece[|piece| - 1]
  {
    var q := p[..n + 1];
    assert p[n] == q[n];
    assert p[..n] == q[..n];
    assert (p[..k] + piece)[..n] == p[..k] + piece[..|piece| - 1];
  }

  // ----- sending text -----

  /** What one character becomes after prev. */
  function Piece(prev: char, c: char): string { if c == '\n' && prev != '\r' then CRLF else [c] }

  /** CR put before every LF that has none; prev is the character before s. */
  function WithCr(prev: char, s: string): string
    decreases |s|
  {
    if s == "" then ""
    else Piece(prev, s[0]) + WithCr(s[0], s[1..])
  }

  function LastOr(prev: char, s: string): char { if s == "" then prev else s[|s| - 1] }

  lemma {:induction false} WithCrConcat(prev: char, a: string, b: string)
    ensures WithCr(prev, a + b) == WithCr(prev, a) + WithCr(LastOr(prev, a), b)
    decreases |a|
  {
    if a == "" {
      assert a + b == b;
    } else {
      assert (a + b)[1..] == a[1..] + b;
      WithCrConcat(a[0], a[1..], b);
    }
  }

  lemma WithCrOne(prev: char, c: char)
    ensures WithCr(prev, [c]) == Piece(prev, c)
  {
    assert [c][1..] == "";
  }

  /** A buffer with the sending end behind it. */
  class DataHandle {
    const handle: Wire
    const buf: array<char>
    var nb: nat

    ghost predicate Valid()
      reads this
    {
      buf.Length == BUFSIZ && nb <= BUFSIZ
    }

    ghost function Out(): string
      reads this, handle, buf
      requires Valid()
    {
      handle.sent + buf[..nb]
    }

    /** Writes so far that failed or took a part only. */
    ghost function Trouble(): nat
      reads this, handle
    {
      handle.failures + handle.shorts
    }

    constructor (handle: Wire)
      ensures Valid() && this.handle == handle && nb == 0 && fresh(buf)
    {
      this.handle := handle;
      buf := new char[BUFSIZ];
      nb := 0;
    }

    /** Sends what is buffered in one go; a partial send is a failure. */
    method Flush() returns (ok: bool)
      requires Valid() && nb > 0
      modifies this, handle
      ensures Valid() && handle.sent <= old(Out())
      ensures ok ==> nb == 0 && Out() == old(Out())
      ensures Trouble() == old(Trouble()) + if ok then 0 else 1
    {
      var w := handle.Write(buf[..nb]);
      if w != nb { return false; }
      nb := 0;
      return true;
    }

    method Put(c: char) returns (ok: bool)
      requires Valid()
      modifies this, handle, buf
      ensures Valid() && (ok ==> Out() == old(Out()) + [c])
      ensures Trouble() == old(Trouble()) + if ok then 0 else 1
      ensures handle.sent <= old(Out()) + [c]
    {
      if nb == BUFSIZ {
        ok := Flush();
        if !ok { return; }
      }
      buf[nb] := c;
      nb := nb + 1;
      return true;
    }

    /** One character of text, with a CR before it if it is a bare LF. */
    method PutText(c: char, lc: char) returns (ok: bool)
      requires Valid()
      modifies this, handle, buf
      ensures Valid()
      ensures ok ==> Out() == old(Out()) + Piece(lc, c)
      ensures Trouble() == old(Trouble()) + if ok then 0 else 1
      ensures handle.sent <= old(Out()) + Piece(lc, c)
    {
      if c == '\n' && lc != '\r' {
        ok := Put('\r');
        if !ok { return; }
      }
      ok := Put(c);
    }

    /**
      The size of the buffer shows nowhere: all of the converted text is sent, or a beginning
      of it; and it fails exactly if a write failed or took a part only.
     */
    method Writeline(data: string) returns (n: int)
      requires Valid()
      modifies this, handle, buf
      ensures Valid()
      ensures n == if Trouble() == old(Trouble()) then |data| else -1
      ensures n != -1 ==> handle.sent == old(handle.sent) + WithCr('\0', data)
      ensures handle.sent <= old(handle.sent) + WithCr('\0', data)
    {
      nb := 0;
      var lc := '\0';
      var x := 0;
      assert data[..0] == "";
      while x < |data|
        invariant Valid() && x <= |data| && lc == LastOr('\0', data[..x])
        invariant Out() == old(handle.sent) + WithCr('\0', data[..x]) && Trouble() == old(Trouble())
      {
        WithCrStep(data, x);
        WithCrRest(data, x + 1);
        Later(old(handle.sent), WithCr('\0', data[..x]), Piece(lc, data[x]),
        WithCr(LastOr('\0', data[..x + 1]), data[x + 1..]));
        var ok := PutText(data[x], lc);
        if !ok { return -1; }
        lc := data[x];
        x := x + 1;
      }
      assert data[..x] == data;
      if nb > 0 {
        var ok := Flush();
        if !ok { return -1; }
      }
      return |data|;
    }
  }

  lemma WithCrSnoc(prev: char, a: string, c: char)
    ensures WithCr(prev, a + [c]) == WithCr(prev, a) + Piece(LastOr(prev, a), c)
  {
    WithCrConcat(prev, a, [c]);
    WithCrOne(LastOr(prev, a), c);
  }

  lemma WithCrStep(data: string, x: nat)
    requires x < |data|
    ensures WithCr('\0', data[..x + 1]) == WithCr('\0', data[..x]) + Piece(LastOr('\0', data[..x]), data[x])
  {
    Snoc(data, x);
    WithCrSnoc('\0', data[..x], data[x]);
  }

  lemma WithCrRest(data: string, x: nat)
    requires x <= |data|
    ensures WithCr('\0', data) == WithCr('\0', data[..x]) + WithCr(LastOr('\0', data[..x]), data[x..])
  {
    Halves(data, x);
    WithCrConcat('\0', data[..x], data[x..]);
  }

  lemma Snoc(s: string, x: nat)
    requires x < |s|
    ensures s[..x + 1] == s[..x] + [s[x]]
  {
  }

  lemma Halves(s: string, x: nat)
    requires x <= |s|
    ensures s == s[..x] + s[x..]
  {
  }

  lemma Later(sent: string, done: string, piece: string, more: string)
    ensures (sent + done) + piece <= sent + ((done + piece) + more)
    ensures (sent + done) + piece == sent + (done + piece)
  {
  }

  /** Two writes send the same as one, except when they part a CR from its LF. */
  lemma WritesJoinIffNotSplit(a: string, b: string)
    ensures WithCr('\0', a) + WithCr('\0', b) == WithCr('\0', a + b) <==>
            !(a != "" && a[|a| - 1] == '\r' && b != "" && b[0] == '\n')
  {
    WithCrConcat('\0', a, b);
    var last := LastOr('\0', a);
    if b != "" && b[0] == '\n' && last == '\r' {
      assert |WithCr('\0', b)| == |WithCr(last, b)| + 1;
    } else {
      assert WithCr('\0', b) == WithCr(last, b);
    }
  }

  /** What reading line by line makes of a text. */
  function ReadLines(p: string): string
    decreases |p|
  {
    if p == "" then "" else LineIsPrefix(p); Chomped(LineOf(p)) + ReadLines(AfterLine(p))
  }

  /** Every CR LF replaced by LF. */
  function Strip(p: string): string {
    if p == "" then "" else if CRLF <= p then "\n" + Strip(p[2..]) else [p[0]] + Strip(p[1..])
  }

  lemma {:induction false} StripLine(line: string, rest: string)
    requires '\n' !in line
    ensures Strip(line + "\n" + rest) == Chomped(line + "\n") + Strip(rest)
    decreases |line|
  {
    var p := line + "\n" + rest;
    if line == "" {
      assert p[1..] == rest;
    } else if line == "\r" {
      assert p[..2] == CRLF && p[2..] == rest;
      assert Chomped(line + "\n") == "\n";
    } else {
      assert p[1..] == line[1..] + "\n" + rest;
      StripLine(line[1..], rest);
      assert p[1] == if |line| > 1 then line[1] else '\n';
      ChompedCons(line);
    }
  }

  lemma ChompedCons(line: string)
    requires line != "" && line != "\r"
    ensures Chomped(line + "\n") == [line[0]] + Chomped(line[1..] + "\n")
  {
    var l := line + "\n";
    var m := line[1..] + "\n";
    assert l == [line[0]] + m;
    if |line| >= 2 {
      assert l[|l| - 2..] == m[|m| - 2..];
      assert l[..|l| - 2] == [line[0]] + m[..|m| - 2];
    } else {
      assert l == [line[0], '\n'] && m == "\n";
    }
  }

  lemma {:induction false} StripNoNewline(p: string)
    requires '\n' !in p
    ensures Strip(p) == p
  {
    if p != "" {
      assert |p| >= 2 ==> p[1] in p;
      StripNoNewline(p[1..]);
    }
  }

  lemma {:induction false} ReadLinesStrip(p: string)
    ensures ReadLines(p) == Strip(p)
    decreases |p|
  {
    if '\n' !in p {
      LastLine(p);
      StripNoNewline(p);
      assert p != "" ==> ReadLines("") == "";
    } else {
      assert p[0..] == p;
      var k := NewlineIn(p, 0);
      FirstNewline(p, k);
      assert p == p[..k] + "\n" + p[k + 1..] && p[..k + 1] == p[..k] + "\n";
      StripLine(p[..k], p[k + 1..]);
      ReadLinesStrip(p[k + 1..]);
    }
  }

  lemma {:induction false} NewlineIn(p: string, i: nat) returns (k: nat)
    requires i <= |p| && '\n' !in p[..i] && '\n' in p[i..]
    ensures k < |p| && p[k] == '\n' && '\n' !in p[..k]
    decreases |p| - i
  {
    assert p[i..] == [p[i]] + p[i + 1..];
    if p[i] == '\n' {
      k := i;
    } else {
      assert p[..i + 1] == p[..i] + [p[i]];
      k := NewlineIn(p, i + 1);
    }
  }

  lemma {:induction false} StripWithCr(prev: char, s: string)
    requires prev != '\r' || s == "" || s[0] != '\n'
    ensures Strip(WithCr(prev, s)) == Strip(s)
    decreases |s|
  {
    if s == "" {
    } else if s[0] == '\n' {
      StripWithCr('\n', s[1..]);
      assert (CRLF + WithCr('\n', s[1..]))[2..] == WithCr('\n', s[1..]);
    } else if CRLF <= s {
      StripWithCr('\n', s[2..]);
      CrLfKept(prev, s);
      assert (CRLF + WithCr('\n', s[2..]))[2..] == WithCr('\n', s[2..]);
    } else {
      StripWithCr(s[0], s[1..]);
      assert (WithCr(prev, s))[1..] == WithCr(s[0], s[1..]);
    }
  }

  lemma CrLfKept(prev: char, s: string)
    requires CRLF <= s
    ensures WithCr(prev, s) == CRLF + WithCr('\n', s[2..])
  {
    assert s[1..][1..] == s[2..];
    assert WithCr('\r', s[1..]) == "\n" + WithCr('\n', s[2..]);
  }

  ghost predicate HasCrLf(s: string) { exists i :: OccursAt(s, CRLF, i) }

  lemma {:induction false} StripShorter(s: string)
    ensures |Strip(s)| <= |s|
    ensures HasCrLf(s) ==> |Strip(s)| < |s|
    ensures !HasCrLf(s) ==> Strip(s) == s
  {
    if s == "" {
    } else if CRLF <= s {
      StripShorter(s[2..]);
      PrefixOccurs(s, CRLF);
    } else {
      StripShorter(s[1..]);
      HasCrLfTail(s);
    }
  }

  lemma HasCrLfTail(s: string)
    requires s != "" && !(CRLF <= s)
    ensures HasCrLf(s) <==> HasCrLf(s[1..])
  {
    PrefixOccurs(s, CRLF);
    if HasCrLf(s) {
      var i :| OccursAt(s, CRLF, i);
      assert OccursAt(s[1..], CRLF, i - 1);
    }
    if HasCrLf(s[1..]) {
      var i :| OccursAt(s[1..], CRLF, i);
      assert OccursAt(s, CRLF, i + 1);
    }
  }

  /** A text sent and read back line by line is the same text just when it had no CR LF in it. */
  lemma TextRoundTripIff(s: string)
    ensures ReadLines(WithCr('\0', s)) == s <==> !HasCrLf(s)
  {
    ReadLinesStrip(WithCr('\0', s));
    StripWithCr('\0', s);
    StripShorter(s);
  }
}
