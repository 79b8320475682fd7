/**
  One call of the HTTP client's send may send again from within: once more when a TLS
  peer had closed the connection, to another place after a redirect, and with credentials
  after a challenge. What the servers answer is a script of outcomes, one taken by every
  request put on the wire.
 */
module Redirect {
  import opened Text

  const MAX_REDIRECTS := 20
  const MAX_AUTHORIZATIONS := 5

  datatype Request = Request(redirects: nat, auths: nat)

  function NewRequest(): Request { Request(MAX_REDIRECTS, 0) }

  /** Settings, copied to the client of another host. */
  datatype Config = Config(follow: bool, credentials: bool, proxyCredentials: bool)

  /** Why no response came: the peer had closed, another error was recorded, or none. */
  datatype Failure = PeerClosed | OtherError | Unrecorded

  /**
    Whether a location can be followed and whether a challenge can be answered is up to
    the server; reused tells that the request went out on a connection still open.  The
    answer of a proxy that sets up no tunnel is given back as it is.
   */
  datatype Outcome =
    | Lost(reused: bool, why: Failure)
    | Answer(reused: bool, response: Response)
    | ProxyAnswer(reused: bool, response: Response)
  datatype Response = Response(status: int, followable: bool, challenge: bool)

  /**
    What a call gives back: the request as it is left, the response, whether the recorded
    error is that the peer had closed, the rest of the script, how deep sends were nested,
    and whether the assertion in send held every time.
   */
  datatype Run = Run(
    ok: bool, req: Request, res: Response, closed: bool, rest: seq<Outcome>, depth: nat, asserted: bool)

  /** Redirects and authorizations still possible. */
  function Measure(q: Request): nat {
    q.redirects + if q.auths < MAX_AUTHORIZATIONS then MAX_AUTHORIZATIONS - q.auths else 0
  }

  function Redirects(cfg: Config, res: Response): bool { 300 < res.status < 400 && cfg.follow }

  function Challenged(cfg: Config, q: Request, res: Response): bool {
    q.auths < MAX_AUTHORIZATIONS && res.challenge &&
    ((res.status == 401 && cfg.credentials) || (res.status == 407 && cfg.proxyCredentials))
  }

  const NoResponse := Response(-1, false, false)

  /** The request left behind has lost no authorizations and gained no redirects. */
  predicate Left(q: Request, r: Run) { r.req.auths == q.auths && r.req.redirects <= q.redirects }

  /** Sends again, once, when the error says that the peer had closed. */
  function Send(cfg: Config, q: Request, closed: bool, script: seq<Outcome>): (r: Run)
    ensures Left(q, r)
    decreases Measure(q), 2
  {
    var a := SendOnce(cfg, q, closed, false, script);
    if !a.closed then a else Again(a, SendOnce(cfg, a.req, true, true, a.rest))
  }

  function Again(a: Run, b: Run): Run {
    b.(depth := Max(a.depth, b.depth), asserted := a.asserted && !a.ok && b.asserted)
  }

  /**
    A connection that is made clears the error; a failed send has closed its socket, so
    the one after it always makes one.  An attempt to connect that fails may leave the
    error of an earlier one: that is an outcome lost because the peer had closed.  When
    the script is at its end no connection can be made.
   */
  function SendOnce(cfg: Config, q: Request, closed: bool, again: bool, script: seq<Outcome>): (r: Run)
    ensures Left(q, r)
    decreases Measure(q), 1
  {
    if script == [] then Run(false, q, NoResponse, false, [], 0, true)
    else Handle(cfg, q, closed && !again && script[0].reused, script[0], script[1..])
  }

  function Handle(cfg: Config, q: Request, closed: bool, o: Outcome, rest: seq<Outcome>): (r: Run)
    ensures Left(q, r)
    decreases Measure(q), 0
  {
    match o
    case Lost(_, why) => Run(false, q, NoResponse, why.PeerClosed? || (why.Unrecorded? && closed), rest, 0, true)
    case ProxyAnswer(_, res) => Run(true, q, res, false, rest, 0, true)
    case Answer(_, res) =>
      if !Redirects(cfg, res) then
        if Challenged(cfg, q, res) then
          Retried(q, res, Send(cfg, Authorized(q), closed, rest), 0, true)
        else Run(true, q, res, closed, rest, 0, true)
      else if q.redirects == 0 then Run(false, q, res, false, rest, 0, true)
      else if !res.followable then Run(false, q, res, closed, rest, 0, true)
      else
        var n := Send(cfg, Redirected(q), closed, rest);
        if !n.ok then n.(req := q, res := res, depth := n.depth + 1)
        else if Challenged(cfg, n.req, n.res) then
          Retried(n.req, n.res, Send(cfg, Authorized(n.req), n.closed, n.rest), n.depth + 1, n.asserted)
        else n.(depth := n.depth + 1)
  }

  function Redirected(q: Request): (r: Request)
    requires q.redirects > 0
    ensures Measure(r) == Measure(q) - 1
  {
    q.(redirects := q.redirects - 1)
  }

  function Authorized(q: Request): (r: Request)
    requires q.auths < MAX_AUTHORIZATIONS
    ensures Measure(r) == Measure(q) - 1
  {
    q.(auths := q.auths + 1)
  }

  /** The authorized request is a copy: of it only the response is kept, and that only if there is one. */
  function Retried(q: Request, res: Response, n: Run, depth: nat, asserted: bool): Run {
    n.(req := q, res := if n.ok then n.res else res, depth := Max(depth, n.depth + 1), asserted := asserted &&
    n.asserted)
  }

  // ----- depth -----

  /** Whatever the servers answer, sends nest no deeper than there are redirects and authorizations left. */
  lemma {:induction false} DepthBound(cfg: Config, q: Request, closed: bool, script: seq<Outcome>)
    ensures Send(cfg, q, closed, script).depth <= Measure(q)
    decreases Measure(q), 2
  {
    OnceDepth(cfg, q, closed, false, script);
    var a := SendOnce(cfg, q, closed, false, script);
    OnceDepth(cfg, a.req, true, true, a.rest);
  }

  lemma {:induction false} OnceDepth(cfg: Config, q: Request, closed: bool, again: bool, script: seq<Outcome>)
    ensures SendOnce(cfg, q, closed, again, script).depth <= Measure(q)
    decreases Measure(q), 1
  {
    if script != [] {
      HandleDepth(cfg, q, closed && !again && script[0].reused, script[0], script[1..]);
    }
  }

  lemma {:induction false} HandleDepth(cfg: Config, q: Request, closed: bool, o: Outcome, rest: seq<Outcome>)
    ensures Handle(cfg, q, closed, o, rest).depth <= Measure(q)
    decreases Measure(q), 0
  {
    if o.Answer? {
      if !Redirects(cfg, o.response) {
        if Challenged(cfg, q, o.response) {
          DepthBound(cfg, Authorized(q), closed, rest);
        }
      } else if q.redirects > 0 {
        DepthBound(cfg, Redirected(q), closed, rest);
        var n := Send(cfg, Redirected(q), closed, rest);
        if Challenged(cfg, n.req, n.res) {
          DepthBound(cfg, Authorized(n.req), n.closed, n.rest);
        }
      }
    }
  }

  lemma NewRequestDepth(cfg: Config, script: seq<Outcome>)
    ensures Send(cfg, NewRequest(), false, script).depth <= 25
  {
    DepthBound(cfg, NewRequest(), false, script);
  }

  // ----- what is done with an answer -----

  /** An answer that says where else to look: any status from 301 to 399 with a location that can be followed. */
  predicate Moves(o: Outcome) { o.Answer? && 301 <= o.response.status <= 399 && o.response.followable }

  /** A challenge that this client has credentials for. */
  predicate Asks(cfg: Config, res: Response) {
    res.challenge && ((res.status == 401 && cfg.credentials) || (res.status == 407 && cfg.proxyCredentials))
  }

  predicate Denies(cfg: Config, o: Outcome) { o.Answer? && Asks(cfg, o.response) }

  /** Neither: the status is none of those, or this client does not follow redirects or cannot answer. */
  predicate Ends(cfg: Config, o: Outcome) {
    o.ProxyAnswer? || (o.Answer? && (o.response.status <= 300 || o.response.status >= 400 || !cfg.follow) &&
                       !Denies(cfg, o))
  }

  lemma FirstOutcome(cfg: Config, q: Request, o: Outcome, rest: seq<Outcome>)
    ensures SendOnce(cfg, q, false, false, [o] + rest) == Handle(cfg, q, false, o, rest)
    ensures SendOnce(cfg, q, true, true, [o] + rest) == Handle(cfg, q, false, o, rest)
  {
    assert ([o] + rest)[1..] == rest;
  }

  /** What comes of a challenge that is answered: the response to the authorized request if there is one. */
  ghost predicate Answers(q: Request, res: Response, n: Run, r: Run) {
    && (n.ok ==> r.ok && !r.closed && r.req == q && r.res == n.res && r.rest == n.rest)
    && (!n.ok && !n.closed ==> !r.ok && !r.closed && r.req == q && r.res == res && r.rest == n.rest)
  }

  /** What comes of a redirect that is followed: the end of the new request, which may be challenged yet. */
  ghost predicate ComesOf(cfg: Config, q: Request, res: Response, n: Run, r: Run) {
    && (!n.ok && !n.closed ==> !r.ok && !r.closed && r.req == q && r.res == res && r.rest == n.rest)
    && (n.ok && (n.req.auths >= 5 || !Asks(cfg, n.res)) ==> r == n.(depth := n.depth + 1))
    && (n.ok && n.req.auths < 5 && Asks(cfg, n.res) ==>
          Answers(n.req, n.res, Send(cfg, Authorized(n.req), false, n.rest), r))
  }

  /** Every status from 301 to 399 is followed, while redirects are left. */
  lemma EveryRedirectFollowed(cfg: Config, q: Request, o: Outcome, rest: seq<Outcome>)
    requires cfg.follow && q.redirects > 0 && Moves(o)
    ensures ComesOf(cfg, q, o.response, Send(cfg, Redirected(q), false, rest), Send(cfg, q, false, [o] + rest))
  {
    var n := Send(cfg, Redirected(q), false, rest);
    if n.req.auths < 5 {
      AssertionHolds(cfg, Authorized(n.req), n.rest);
    }
    AssertionHolds(cfg, Redirected(q), rest);
    FirstOutcome(cfg, q, o, rest);
  }

  /** With none left, or to a location that cannot be followed, the call fails and keeps that answer. */
  lemma RedirectRefused(cfg: Config, q: Request, o: Outcome, rest: seq<Outcome>)
    requires cfg.follow && o.Answer? && 301 <= o.response.status <= 399 && (q.redirects == 0 || !o.response.followable)
    ensures Send(cfg, q, false, [o] + rest) == Run(false, q, o.response, false, rest, 0, true)
  {
    FirstOutcome(cfg, q, o, rest);
  }

  /** An answer that asks for nothing, or for what this client does not do, is given back as it is. */
  lemma GivenBack(cfg: Config, q: Request, o: Outcome, rest: seq<Outcome>)
    requires Ends(cfg, o)
    ensures Send(cfg, q, false, [o] + rest) == Run(true, q, o.response, false, rest, 0, true)
  {
    FirstOutcome(cfg, q, o, rest);
  }

  /** A challenge is answered while authorizations are left, and given back when none is. */
  lemma ChallengeAnswered(cfg: Config, q: Request, o: Outcome, rest: seq<Outcome>)
    requires Denies(cfg, o)
    ensures q.auths < 5 ==>
              var n, r := Send(cfg, Authorized(q), false, rest), Send(cfg, q, false, [o] + rest);
              Answers(q, o.response, n, r) && (n.ok ==> r.depth == n.depth + 1)
    ensures q.auths >= 5 ==> Send(cfg, q, false, [o] + rest) == Run(true, q, o.response, false, rest, 0, true)
  {
    if q.auths < 5 {
      AssertionHolds(cfg, Authorized(q), rest);
    }
    FirstOutcome(cfg, q, o, rest);
  }

  predicate Gone(o: Outcome) { o.Lost? && o.why.PeerClosed? }

  /** A closed peer makes it send the same request once more, and only once; any other loss is final. */
  lemma ClosedPeerResent(cfg: Config, q: Request, o: Outcome, o': Outcome, rest: seq<Outcome>)
    requires o.Lost?
    ensures Gone(o) && Ends(cfg, o') ==>
              Send(cfg, q, false, [o, o'] + rest) == Run(true, q, o'.response, false, rest, 0, true)
    ensures Gone(o) && o'.Lost? ==>
              Send(cfg, q, false, [o, o'] + rest) == Run(false, q, NoResponse, Gone(o'), rest, 0, true)
    ensures !Gone(o) ==> Send(cfg, q, false, [o] + rest) == Run(false, q, NoResponse, false, rest, 0, true)
  {
    assert [o, o'] + rest == [o] + ([o'] + rest);
    FirstOutcome(cfg, q, o, [o'] + rest);
    FirstOutcome(cfg, q, o, rest);
    FirstOutcome(cfg, q, o', rest);
  }

  /** When no connection can be made, whether at first or for the second try, the call fails without a response. */
  lemma NoConnection(cfg: Config, q: Request, o: Outcome)
    requires Gone(o)
    ensures Send(cfg, q, false, []) == Run(false, q, NoResponse, false, [], 0, true)
    ensures Send(cfg, q, false, [o]) == Run(false, q, NoResponse, false, [], 0, true)
  {
    assert [o] == [o] + [];
    FirstOutcome(cfg, q, o, []);
  }

  // ----- scripts that attain the bound -----

  /** Which redirects and challenges come, by how many steps are left. */
  datatype Trip = Trip(moved: nat -> Outcome, denied: nat -> Outcome, last: Outcome)

  ghost predicate ValidTrip(cfg: Config, t: Trip) {
    (forall k: nat :: Moves(t.moved(k))) && (forall k: nat :: Denies(cfg, t.denied(k))) && Ends(cfg, t.last) &&
    !Asks(cfg, t.last.response)
  }

  /** Every redirect and then every authorization, and success at last. */
  function Longest(t: Trip, q: Request): seq<Outcome>
    decreases Measure(q)
  {
    if q.redirects > 0 then [t.moved(Measure(q))] + Longest(t, Redirected(q))
    else if q.auths < MAX_AUTHORIZATIONS then [t.denied(Measure(q))] + Longest(t, Authorized(q))
    else [t.last]
  }

  /** The bound is attained, by a run that succeeds, whatever the statuses of the redirects and challenges. */
  lemma {:induction false} DepthAttained(cfg: Config, t: Trip, q: Request)
    requires cfg.follow && ValidTrip(cfg, t)
    ensures var r := Send(cfg, q, false, Longest(t, q));
            r.ok && r.res == t.last.response && !r.closed && r.rest == [] && r.depth == Measure(q)
    decreases Measure(q)
  {
    if q.redirects > 0 {
      DepthAttained(cfg, t, Redirected(q));
      EveryRedirectFollowed(cfg, q, t.moved(Measure(q)), Longest(t, Redirected(q)));
    } else if q.auths < MAX_AUTHORIZATIONS {
      DepthAttained(cfg, t, Authorized(q));
      ChallengeAnswered(cfg, q, t.denied(Measure(q)), Longest(t, Authorized(q)));
    } else {
      GivenBack(cfg, q, t.last, []);
      assert [t.last] + [] == [t.last];
    }
  }

  /** For a new request: twenty redirects, five challenges, and the last answer. */
  lemma NewRequestAttained(cfg: Config, t: Trip)
    requires cfg.follow && ValidTrip(cfg, t)
    ensures var script := Longest(t, NewRequest());
            |script| == 26 && Send(cfg, NewRequest(), false, script).depth == 25
    ensures var r := Send(cfg, NewRequest(), false, Longest(t, NewRequest())); r.ok && r.res == t.last.response
  {
    DepthAttained(cfg, t, NewRequest());
    LongestLength(t, NewRequest());
  }

  lemma {:induction false} LongestLength(t: Trip, q: Request)
    ensures |Longest(t, q)| == Measure(q) + 1
    decreases Measure(q)
  {
    if q.redirects > 0 {
      LongestLength(t, Redirected(q));
    } else if q.auths < MAX_AUTHORIZATIONS {
      LongestLength(t, Authorized(q));
    }
  }

  // ----- the assertion in send -----

  /** Success leaves no closed peer on record, and the assertion has held so far. */
  ghost predicate Sound(r: Run) { r.asserted && (r.ok ==> !r.closed) }

  /**
    In every run, whatever is nested and whatever is sent again, a request that is to be
    sent again had failed: the error of a nested send never outlives its success.
   */
  lemma {:induction false} AssertionHolds(cfg: Config, q: Request, script: seq<Outcome>)
    ensures Sound(Send(cfg, q, false, script))
    decreases Measure(q), 2
  {
    OnceSound(cfg, q, false, false, script);
    var a := SendOnce(cfg, q, false, false, script);
    OnceSound(cfg, a.req, true, true, a.rest);
  }

  lemma {:induction false} OnceSound(cfg: Config, q: Request, closed: bool, again: bool, script: seq<Outcome>)
    requires closed ==> again
    ensures Sound(SendOnce(cfg, q, closed, again, script))
    decreases Measure(q), 1
  {
    if script != [] {
      HandleSound(cfg, q, script[0], script[1..]);
    }
  }

  lemma {:induction false} HandleSound(cfg: Config, q: Request, o: Outcome, rest: seq<Outcome>)
    ensures Sound(Handle(cfg, q, false, o, rest))
    decreases Measure(q), 0
  {
    if o.Answer? {
      if !Redirects(cfg, o.response) {
        if Challenged(cfg, q, o.response) {
          AssertionHolds(cfg, Authorized(q), rest);
        }
      } else if q.redirects > 0 {
        AssertionHolds(cfg, Redirected(q), rest);
        var n := Send(cfg, Redirected(q), false, rest);
        if Challenged(cfg, n.req, n.res) {
          AssertionHolds(cfg, Authorized(n.req), n.rest);
        }
      }
    }
  }

  // ----- the number of requests -----

  /**
    Requests put on the wire at most: two tries, each with a nested send, and with another
    one if that was a redirect whose answer is challenged.
   */
  function AtMost(m: nat): nat
    decreases m, 1
  {
    2 * (1 + Nested(m))
  }

  function Nested(m: nat): nat
    decreases m, 0
  {
    if m == 0 then 0 else AtMost(m - 1) + if m == 1 then 0 else AtMost(m - 2)
  }

  lemma {:induction false} AtMostGrows(m: nat, k: nat)
    requires m <= k
    ensures AtMost(m) <= AtMost(k)
    decreases k
  {
    if m < k {
      AtMostGrows(m, k - 1);
    }
  }

  /** Part of the script was used up, no more than n outcomes of it. */
  ghost predicate Uses(script: seq<Outcome>, rest: seq<Outcome>, n: nat) {
    |rest| <= |script| <= |rest| + n && rest == script[|script| - |rest|..]
  }

  lemma UsesTwice(a: seq<Outcome>, b: seq<Outcome>, c: seq<Outcome>, m: nat, n: nat)
    requires Uses(a, b, m) && Uses(b, c, n)
    ensures Uses(a, c, m + n)
  {
  }

  lemma UsesMore(a: seq<Outcome>, b: seq<Outcome>, m: nat, n: nat)
    requires Uses(a, b, m) && m <= n
    ensures Uses(a, b, n)
  {
  }

  /** Every call of send puts a bounded number of requests on the wire. */
  lemma {:induction false} RequestsBounded(cfg: Config, q: Request, closed: bool, script: seq<Outcome>)
    ensures Uses(script, Send(cfg, q, closed, script).rest, AtMost(Measure(q)))
    decreases Measure(q), 2
  {
    var k := 1 + Nested(Measure(q));
    OnceBounded(cfg, q, closed, false, script);
    var a := SendOnce(cfg, q, closed, false, script);
    AtMostGrows(Measure(a.req), Measure(q));
    OnceBounded(cfg, a.req, true, true, a.rest);
    var b := SendOnce(cfg, a.req, true, true, a.rest);
    TwoTries(script, a.rest, b.rest, 1 + Nested(Measure(a.req)), k);
  }

  lemma {:induction false} OnceBounded(cfg: Config, q: Request, closed: bool, again: bool, script: seq<Outcome>)
    ensures Uses(script, SendOnce(cfg, q, closed, again, script).rest, 1 + Nested(Measure(q)))
    decreases Measure(q), 1
  {
    if script != [] {
      var rest := script[1..];
      HandleBounded(cfg, q, closed && !again && script[0].reused, script[0], rest);
      UsesTwice(script, rest, SendOnce(cfg, q, closed, again, script).rest, 1, Nested(Measure(q)));
    }
  }

  lemma {:induction false} HandleBounded(cfg: Config, q: Request, closed: bool, o: Outcome, rest: seq<Outcome>)
    ensures Uses(rest, Handle(cfg, q, closed, o, rest).rest, Nested(Measure(q)))
    decreases Measure(q), 0
  {
    if o.Answer? {
      if !Redirects(cfg, o.response) {
        if Challenged(cfg, q, o.response) {
          RequestsBounded(cfg, Authorized(q), closed, rest);
          UsesNested(rest, Send(cfg, Authorized(q), closed, rest).rest, Measure(q));
        }
      } else if q.redirects > 0 {
        FollowBounded(cfg, q, closed, rest);
      }
    }
  }

  lemma UsesNested(a: seq<Outcome>, b: seq<Outcome>, m: nat)
    requires m > 0 && Uses(a, b, AtMost(m - 1))
    ensures Uses(a, b, Nested(m))
  {
    UsesMore(a, b, AtMost(m - 1), Nested(m));
  }

  /** A redirect followed, and the challenge that may come of it. */
  lemma {:induction false} FollowBounded(cfg: Config, q: Request, closed: bool, rest: seq<Outcome>)
    requires q.redirects > 0
    ensures var n := Send(cfg, Redirected(q), closed, rest);
            Uses(rest, n.rest, Nested(Measure(q))) &&
            (Challenged(cfg, n.req, n.res) ==>
               Uses(rest, Send(cfg, Authorized(n.req), n.closed, n.rest).rest, Nested(Measure(q))))
    decreases Measure(q) - 1, 3
  {
    RequestsBounded(cfg, Redirected(q), closed, rest);
    var n := Send(cfg, Redirected(q), closed, rest);
    UsesNested(rest, n.rest, Measure(q));
    if Challenged(cfg, n.req, n.res) {
      RequestsBounded(cfg, Authorized(n.req), n.closed, n.rest);
      BothUse(rest, n.rest, Send(cfg, Authorized(n.req), n.closed, n.rest).rest, Measure(q),
      Measure(Authorized(n.req)));
    }
  }

  lemma BothUse(a: seq<Outcome>, b: seq<Outcome>, c: seq<Outcome>, m: nat, m': nat)
    requires m' + 2 <= m && Uses(a, b, AtMost(m - 1)) && Uses(b, c, AtMost(m'))
    ensures Uses(a, c, Nested(m))
  {
    AtMostGrows(m', m - 2);
    UsesMore(b, c, AtMost(m'), AtMost(m - 2));
    UsesTwice(a, b, c, AtMost(m - 1), AtMost(m - 2));
  }

  /** Every place but the last redirects, and the last one is found closed each time. */
  function Unlucky(t: Outages, d: nat): seq<Outcome> {
    if d == 0 then [t.gone, t.gone] else ([t.step(d)] + Unlucky(t, d - 1)) + ([t.step(d)] + Unlucky(t, d - 1))
  }

  /** The answers on the way, by how many steps are left, and the loss at the end of it. */
  datatype Outages = Outages(step: nat -> Outcome, gone: Outcome)

  ghost predicate AllMove(t: Outages) { Gone(t.gone) && forall k: nat :: Moves(t.step(k)) }

  /** Failed because the peer had closed, with the request as it was and the script used up to there. */
  ghost predicate FailsClosed(r: Run, q: Request, more: seq<Outcome>) {
    !r.ok && r.closed && r.rest == more && r.req == q
  }

  /**
    The error of a failed nested send makes the outer one send again too, so a place d
    redirects away that keeps closing costs 2 to the power of d + 1 tries.
   */
  lemma {:induction false} ResendsMultiply(cfg: Config, t: Outages, q: Request, d: nat, more: seq<Outcome>)
    requires cfg.follow && d <= q.redirects && AllMove(t)
    ensures FailsClosed(Send(cfg, q, false, Unlucky(t, d) + more), q, more)
    decreases d
  {
    if d == 0 {
      TwiceGone(cfg, q, t.gone, more);
    } else {
      var u := Unlucky(t, d - 1);
      var second := [t.step(d)] + (u + more);
      UnluckyGroups(t.step(d), u, more);
      ResendsMultiply(cfg, t, Redirected(q), d - 1, second);
      FirstOutcome(cfg, q, t.step(d), u + second);
      ResendsMultiply(cfg, t, Redirected(q), d - 1, more);
      FirstOutcome(cfg, q, t.step(d), u + more);
    }
  }

  lemma UnluckyGroups(o: Outcome, u: seq<Outcome>, more: seq<Outcome>)
    ensures (([o] + u) + ([o] + u)) + more == [o] + (u + ([o] + (u + more)))
  {
  }

  lemma TwiceGone(cfg: Config, q: Request, o: Outcome, more: seq<Outcome>)
    requires Gone(o)
    ensures FailsClosed(Send(cfg, q, false, [o, o] + more), q, more)
  {
    ClosedPeerResent(cfg, q, o, o, more);
  }

  lemma {:induction false} UnluckyLength(t: Outages, d: nat)
    ensures |Unlucky(t, d)| + 2 == 4 * Power(d)
  {
    if d > 0 {
      UnluckyLength(t, d - 1);
    }
  }

  function Power(d: nat): (p: nat)
    ensures p >= 1
  {
    if d == 0 then 1 else 2 * Power(d - 1)
  }

  // ----- without credentials -----

  predicate NoCredentials(cfg: Config) { !cfg.credentials && !cfg.proxyCredentials }

  lemma {:induction false} PowerGrows(m: nat, k: nat)
    requires m <= k
    ensures Power(m) <= Power(k)
    decreases k
  {
    if m < k {
      PowerGrows(m, k - 1);
    }
  }

  /** The greatest number of requests of a client that cannot answer challenges. */
  lemma {:induction false} PlainRequestsBounded(cfg: Config, q: Request, closed: bool, script: seq<Outcome>)
    requires NoCredentials(cfg)
    ensures Uses(script, Send(cfg, q, closed, script).rest, 4 * Power(q.redirects) - 2)
    decreases q.redirects, 1
  {
    PlainOnceBounded(cfg, q, closed, false, script);
    var a := SendOnce(cfg, q, closed, false, script);
    PlainOnceBounded(cfg, a.req, true, true, a.rest);
    var b := SendOnce(cfg, a.req, true, true, a.rest);
    PowerGrows(a.req.redirects, q.redirects);
    TwoTries(script, a.rest, b.rest, 2 * Power(a.req.redirects) - 1, 2 * Power(q.redirects) - 1);
    assert Send(cfg, q, closed, script).rest == if a.closed then b.rest else a.rest;
  }

  lemma TwoTries(script: seq<Outcome>, a: seq<Outcome>, b: seq<Outcome>, m: nat, k: nat)
    requires Uses(script, a, k) && Uses(a, b, m) && m <= k
    ensures Uses(script, a, 2 * k) && Uses(script, b, 2 * k)
  {
    UsesMore(a, b, m, k);
    UsesTwice(script, a, b, k, k);
    UsesMore(script, a, k, 2 * k);
  }

  lemma {:induction false} PlainOnceBounded(cfg: Config, q: Request, closed: bool, again: bool, script: seq<Outcome>)
    requires NoCredentials(cfg)
    ensures Uses(script, SendOnce(cfg, q, closed, again, script).rest, 2 * Power(q.redirects) - 1)
    decreases q.redirects, 0
  {
    if script != [] {
      var rest, c := script[1..], closed && !again && script[0].reused;
      PlainRest(cfg, q, closed, again, script);
      if q.redirects > 0 {
        PlainRequestsBounded(cfg, Redirected(q), c, rest);
        UsesTwice(script, rest, Send(cfg, Redirected(q), c, rest).rest, 1, 4 * Power(q.redirects - 1) - 2);
      }
      UsesMore(script, rest, 1, 2 * Power(q.redirects) - 1);
    }
  }

  /** One try takes an outcome, and then those of at most one nested send. */
  lemma PlainRest(cfg: Config, q: Request, closed: bool, again: bool, script: seq<Outcome>)
    requires NoCredentials(cfg) && script != []
    ensures var rest, c := script[1..], closed && !again && script[0].reused;
            var left := SendOnce(cfg, q, closed, again, script).rest;
            left == rest || (q.redirects > 0 && left == Send(cfg, Redirected(q), c, rest).rest)
  {
  }

  /** And it is attained: by a place as many redirects away as are allowed, that keeps closing. */
  lemma PlainRequestsAttained(cfg: Config, t: Outages, q: Request)
    requires cfg.follow && AllMove(t)
    ensures var script := Unlucky(t, q.redirects);
            Send(cfg, q, false, script).rest == [] && |script| == 4 * Power(q.redirects) - 2
  {
    ResendsMultiply(cfg, t, q, q.redirects, []);
    UnluckyLength(t, q.redirects);
    assert Unlucky(t, q.redirects) + [] == Unlucky(t, q.redirects);
  }

  // ----- without following redirects -----

  function AuthsLeft(q: Request): nat { if q.auths < MAX_AUTHORIZATIONS then MAX_AUTHORIZATIONS - q.auths else 0 }

  /** The greatest number of requests of a client that answers challenges and follows no redirect. */
  lemma {:induction false} ChallengesBounded(cfg: Config, q: Request, closed: bool, script: seq<Outcome>)
    requires !cfg.follow
    ensures Uses(script, Send(cfg, q, closed, script).rest, 4 * Power(AuthsLeft(q)) - 2)
    decreases AuthsLeft(q), 1
  {
    ChallengeOnceBounded(cfg, q, closed, false, script);
    var a := SendOnce(cfg, q, closed, false, script);
    ChallengeOnceBounded(cfg, a.req, true, true, a.rest);
    var b := SendOnce(cfg, a.req, true, true, a.rest);
    var k := 2 * Power(AuthsLeft(q)) - 1;
    TwoTries(script, a.rest, b.rest, k, k);
    assert Send(cfg, q, closed, script).rest == if a.closed then b.rest else a.rest;
  }

  lemma {:induction false} ChallengeOnceBounded(cfg: Config, q: Request, closed: bool, again: bool,
                                                script: seq<Outcome>)
    requires !cfg.follow
    ensures Uses(script, SendOnce(cfg, q, closed, again, script).rest, 2 * Power(AuthsLeft(q)) - 1)
    decreases AuthsLeft(q), 0
  {
    if script != [] {
      var rest, c := script[1..], closed && !again && script[0].reused;
      ChallengeRest(cfg, q, closed, again, script);
      if AuthsLeft(q) > 0 {
        ChallengesBounded(cfg, Authorized(q), c, rest);
        UsesTwice(script, rest, Send(cfg, Authorized(q), c, rest).rest, 1, 4 * Power(AuthsLeft(q) - 1) - 2);
      }
      UsesMore(script, rest, 1, 2 * Power(AuthsLeft(q)) - 1);
    }
  }

  lemma ChallengeRest(cfg: Config, q: Request, closed: bool, again: bool, script: seq<Outcome>)
    requires !cfg.follow && script != []
    ensures var rest, c := script[1..], closed && !again && script[0].reused;
            var left := SendOnce(cfg, q, closed, again, script).rest;
            left == rest || (AuthsLeft(q) > 0 && left == Send(cfg, Authorized(q), c, rest).rest)
  {
  }

  ghost predicate AllDeny(cfg: Config, t: Outages) { Gone(t.gone) && forall k: nat :: Denies(cfg, t.step(k)) }

  /** The same script with challenges on the way: every request is refused but the last, which finds its peer closed. */
  lemma {:induction false} ChallengesMultiply(cfg: Config, t: Outages, q: Request, d: nat, more: seq<Outcome>)
    requires d <= AuthsLeft(q) && AllDeny(cfg, t)
    ensures FailsClosed(Send(cfg, q, false, Unlucky(t, d) + more), q, more)
    decreases d
  {
    if d == 0 {
      TwiceGone(cfg, q, t.gone, more);
    } else {
      var u := Unlucky(t, d - 1);
      var second := [t.step(d)] + (u + more);
      UnluckyGroups(t.step(d), u, more);
      ChallengesMultiply(cfg, t, Authorized(q), d - 1, second);
      FirstOutcome(cfg, q, t.step(d), u + second);
      ChallengesMultiply(cfg, t, Authorized(q), d - 1, more);
      FirstOutcome(cfg, q, t.step(d), u + more);
    }
  }

  /** And it is attained. */
  lemma ChallengesAttained(cfg: Config, t: Outages, q: Request)
    requires AllDeny(cfg, t)
    ensures var script := Unlucky(t, AuthsLeft(q));
            Send(cfg, q, false, script).rest == [] && |script| == 4 * Power(AuthsLeft(q)) - 2
  {
    ChallengesMultiply(cfg, t, q, AuthsLeft(q), []);
    UnluckyLength(t, AuthsLeft(q));
    assert Unlucky(t, AuthsLeft(q)) + [] == Unlucky(t, AuthsLeft(q));
  }
}
