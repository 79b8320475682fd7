/**
  The two ends of a connection, and the lines of the text that arrives on it.
 */
module Streams {

  /** The next line with its newline, or what is left of the stream. */
  function LineOf(s: string): string
  {
    if s == "" then "" else if s[0] == '\n' then "\n" else [s[0]] + LineOf(s[1..])
  }

  lemma {:induction false} LineIsPrefix(s: string)
    ensures LineOf(s) <= s && (s != "" ==> LineOf(s) != "")
  {
    if s != "" && s[0] != '\n' {
      LineIsPrefix(s[1..]);
    }
  }

  lemma {:induction false} LineEnds(a: string, t: string)
    requires '\n' !in a
    ensures LineOf(a + "\n" + t) == a + "\n"
  {
    var s := a + "\n" + t;
    if a != "" {
      assert s[1..] == a[1..] + "\n" + t;
      LineEnds(a[1..], t);
    }
  }

  lemma {:induction false} LineIsAll(s: string)
    requires '\n' !in s
    ensures LineOf(s) == s
  {
    if s != "" {
      LineIsAll(s[1..]);
    }
  }

  function AfterLine(s: string): string {
    LineIsPrefix(s);
    s[|LineOf(s)|..]
  }

  /** A connection: any fragmentation, and it may break at any time. */
  class Stream {
    var rest: string
    ghost var broken: bool

    method Read(max: nat) returns (n: int, data: string)
      requires max > 0
      modifies this
      ensures -1 <= n && (n == -1 ==> broken && rest == old(rest))
      ensures n >= 0 ==> broken == old(broken) && n == |data| <= max && old(rest) == data + rest
      ensures n == 0 ==> old(rest) == ""
    {
      var fails: bool := *;
      if fails {
        broken := true;
        return -1, "";
      }
      if rest == "" { return 0, ""; }
      var k :| 1 <= k <= max && k <= |rest|;
      n, data := k, rest[..k];
      rest := rest[k..];
    }
  }

  /**
    The sending end.  failures counts the writes that failed and the times it was not
    ready, shorts the writes that took a part only, spoilt the writes nobody looked at
    that did not take all.
   */
  class Wire {
    var sent: string
    ghost var failures: nat
    ghost var shorts: nat
    ghost var spoilt: nat

    /** Accepts at least one byte, or fails. */
    method Write(d: string) returns (n: int)
      requires d != ""
      modifies this
      ensures n < 0 ==> sent == old(sent) && failures == old(failures) + 1 && shorts == old(shorts)
      ensures n >= 0 ==> 1 <= n <= |d| && sent == old(sent) + d[..n] && failures == old(failures)
      ensures n >= 0 ==> shorts == old(shorts) + if n < |d| then 1 else 0
      ensures spoilt == old(spoilt)
    {
      var fails: bool := *;
      if fails {
        failures := failures + 1;
        return -1;
      }
      n :| 1 <= n <= |d|;
      sent := sent + d[..n];
      if n < |d| { shorts := shorts + 1; }
    }

    /** The same, by a caller that does not look at the result. */
    method WriteBlindly(d: string)
      modifies this
      ensures failures == old(failures) && shorts == old(shorts)
      ensures sent == old(sent) + d <==> spoilt == old(spoilt)
      ensures spoilt >= old(spoilt)
    {
      if d == "" { return; }
      var n := Write(d);
      failures, shorts := old(failures), old(shorts);
      assert d[..|d|] == d;
      if n != |d| { spoilt := spoilt + 1; }
    }

    method IsWritable() returns (ready: bool)
      modifies this
      ensures sent == old(sent) && shorts == old(shorts) && spoilt == old(spoilt)
      ensures failures == old(failures) + if ready then 0 else 1
    {
      ready := *;
      if !ready { failures := failures + 1; }
    }
  }

  /** The server's flag that it is going down, as often as it was seen set. */
  class Shutdown {
    ghost var seen: nat

    method Asked() returns (down: bool)
      modifies this
      ensures seen == old(seen) + if down then 1 else 0
    {
      down := *;
      if down { seen := seen + 1; }
    }
  }
}
