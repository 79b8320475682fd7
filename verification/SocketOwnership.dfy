/**
  Who may close the socket of an HTTP client.  Any number of threads call send and
  stop on one client; a send may send again while its own request is in flight
  (redirects, digest authentication).  The request mutex is recursive and held for a
  whole send, the socket mutex only for short sections, each taken here as one step.
 */
module SocketOwnership {
  import opened Text

  type Thread = nat
  type Socket = nat

  /**
    The fields guarded by the socket mutex; down tells that the open socket has been shut
    down, tls that a TLS session is set up on it.
   */
  datatype Conn = Conn(
    sock: Option<Socket>,
    inFlight: int,
    owner: Option<Thread>,
    closeWhenDone: bool,
    down: bool,
    tls: bool
  )

  /** What shutdown_ssl leaves, and then close_socket. */
  function TlsShut(c: Conn): Conn { c.(tls := false) }
  function Closed(c: Conn): Conn { c.(sock := None, down := false) }
  function ShutAndClosed(c: Conn): Conn { Closed(TlsShut(c)) }

  /** How connecting ends: refused, connected but no tunnel or TLS session on it, or usable, with TLS or without. */
  datatype Connect = Refused | Unsecured(sock: Socket) | Connected(sock: Socket, secure: bool)

  // ----- the locked sections, on values -----

  /** The assertion inside shutdown_ssl and close_socket on who calls them. */
  predicate MayClose(c: Conn, me: Thread) { c.inFlight == 0 || c.owner == Some(me) }

  /** All that shutdown_ssl asserts, and all that close_socket asserts. */
  predicate MayShutTls(c: Conn, me: Thread) { MayClose(c, me) && (c.sock.None? ==> !c.tls) }
  predicate MayCloseSocket(c: Conn, me: Thread) { MayClose(c, me) && !c.tls }

  /** Both, one after the other. */
  predicate MayShutAndClose(c: Conn, me: Thread) { MayShutTls(c, me) && MayCloseSocket(TlsShut(c), me) }

  /** Start of send_: drop a dead socket, connect if needed, count the request. */
  function Begin(c: Conn, me: Thread, alive: bool, made: Connect): (r: (Conn, bool)) {
    var c1 := c.(closeWhenDone := false);
    if c1.sock.Some? && alive then (c1.(inFlight := c1.inFlight + 1, owner := Some(me)), true)
    else if !made.Connected? then (ShutAndClosed(c1), false)
    else
      var c2 := c1.(sock := Some(made.sock), down := false, tls := made.secure);
      (c2.(inFlight := c1.inFlight + 1, owner := Some(me)), true)
  }

  /** End of send_: uncount the request, and close when told to, when not kept alive or when it failed. */
  function End(c: Conn, close: bool, ret: bool): (r: Conn) {
    var n := c.inFlight - 1;
    var c1 := c.(inFlight := n, owner := if n <= 0 then None else c.owner);
    if c1.closeWhenDone || close || !ret then ShutAndClosed(c1) else c1
  }

  /** With a request in flight the socket is shut down only, and closed later. */
  function Stop(c: Conn): (r: Conn) {
    if c.inFlight > 0 then c.(closeWhenDone := true, down := c.down || c.sock.Some?) else ShutAndClosed(c)
  }

  // ----- the same sections on the object -----

  class ClientImpl {
    var sock: Option<Socket>
    var inFlight: int
    var owner: Option<Thread>
    var closeWhenDone: bool
    var down: bool
    var tls: bool

    ghost function View(): Conn
      reads this
    {
      Conn(sock, inFlight, owner, closeWhenDone, down, tls)
    }

    ghost predicate Valid()
      reads this
    {
      sock.None? ==> !down && !tls
    }

    constructor ()
      ensures View() == Conn(None, 0, None, false, false, false) && Valid()
    {
      sock, inFlight, owner, closeWhenDone, down, tls := None, 0, None, false, false, false;
    }

    method ShutdownSsl(me: Thread)
      requires MayShutTls(View(), me)
      modifies this`tls
      ensures View() == TlsShut(old(View()))
    {
      assert inFlight == 0 || owner == Some(me);
      if sock.None? {
        assert !tls;
        return;
      }
      tls := false;
    }

    method CloseSocket(me: Thread)
      requires MayCloseSocket(View(), me) && Valid()
      modifies this`sock, this`down
      ensures View() == Closed(old(View())) && Valid()
    {
      assert inFlight == 0 || owner == Some(me);
      assert !tls;
      if sock.None? { return; }
      sock, down := None, false;
    }

    method BeginRequest(me: Thread, alive: bool, made: Connect) returns (entered: bool)
      requires MayClose(View(), me) && Valid()
      modifies this
      ensures (View(), entered) == Begin(old(View()), me, alive, made) && Valid()
    {
      closeWhenDone := false;
      var isAlive := false;
      if sock.Some? {
        isAlive := alive;
        if !isAlive {
          ShutdownSsl(me);
          CloseSocket(me);
        }
      }
      if !isAlive {
        if made.Refused? { return false; }
        sock := Some(made.sock);
        if made.Unsecured? {
          CloseSocket(me);
          return false;
        }
        tls := made.secure;
      }
      if inFlight > 1 {
        assert owner == Some(me);
      }
      inFlight := inFlight + 1;
      owner := Some(me);
      return true;
    }

    method EndRequest(me: Thread, close: bool, ret: bool)
      requires inFlight > 0 && owner == Some(me) && Valid()
      modifies this
      ensures View() == End(old(View()), close, ret) && Valid()
    {
      inFlight := inFlight - 1;
      if inFlight <= 0 {
        assert inFlight == 0;
        owner := None;
      }
      if closeWhenDone || close || !ret {
        ShutdownSsl(me);
        CloseSocket(me);
      }
    }

    method StopAll(me: Thread)
      requires inFlight >= 0 && Valid()
      modifies this
      ensures View() == Stop(old(View())) && Valid()
    {
      if inFlight > 0 {
        if sock.Some? { down := true; }
        closeWhenDone := true;
        return;
      }
      ShutdownSsl(me);
      CloseSocket(me);
    }
  }

  // ----- all threads together -----

  /** One activation of send: before send_, inside its request, or after it. */
  datatype Frame = Entering(again: bool) | InFlight(again: bool) | Leaving(again: bool)

  datatype System = System(
    conn: Conn,
    holder: Option<Thread>,
    depth: nat,
    stacks: map<Thread, seq<Frame>>
  )

  const INITIAL := System(Conn(None, 0, None, false, false, false), None, 0, map[])

  datatype Action =
    | Call(t: Thread)
    | BeginStep(t: Thread, alive: bool, made: Connect)
    | CloseNow(t: Thread)
    | EndStep(t: Thread, close: bool, ret: bool)
    | Retry(t: Thread)
    | Return(t: Thread)
    | StopCall(t: Thread)

  function Stack(s: System, t: Thread): seq<Frame> { if t in s.stacks then s.stacks[t] else [] }

  function SetTop(s: System, t: Thread, f: Frame): System
    requires Stack(s, t) != []
  {
    var fs := Stack(s, t);
    s.(stacks := s.stacks[t := fs[..|fs| - 1] + [f]])
  }

  function TopFrame(s: System, t: Thread): Frame
    requires Stack(s, t) != []
  {
    Stack(s, t)[|Stack(s, t)| - 1]
  }

  predicate Enabled(s: System, a: Action) {
    match a
    case Call(t) =>
      // a first send, or one made while handling the response of an outer one
      (Stack(s, t) == [] || TopFrame(s, t).InFlight?) && (s.holder.None? || s.holder == Some(t))
    case BeginStep(t, alive, _) =>
      // a socket that was shut down no longer counts as alive
      Stack(s, t) != [] && TopFrame(s, t).Entering? && (alive ==> !s.conn.down)
    case CloseNow(t) => Stack(s, t) != [] && TopFrame(s, t).InFlight?
    case EndStep(t, _, _) => Stack(s, t) != [] && TopFrame(s, t).InFlight?
    case Retry(t) => Stack(s, t) != [] && TopFrame(s, t).Leaving? && !TopFrame(s, t).again
    case Return(t) => Stack(s, t) != [] && TopFrame(s, t).Leaving? && s.depth > 0
    case StopCall(_) => true
  }

  function Next(s: System, a: Action): System
    requires Enabled(s, a)
  {
    match a
    case Call(t) =>
      s.(holder := Some(t), depth := s.depth + 1, stacks := s.stacks[t := Stack(s, t) + [Entering(false)]])
    case BeginStep(t, alive, made) =>
      var r := Begin(s.conn, t, alive, made);
      var again := TopFrame(s, t).again;
      SetTop(s.(conn := r.0), t, if r.1 then InFlight(again) else Leaving(again))
    case CloseNow(t) => s.(conn := ShutAndClosed(s.conn))
    case EndStep(t, close, ret) => SetTop(s.(conn := End(s.conn, close, ret)), t, Leaving(TopFrame(s, t).again))
    case Retry(t) => SetTop(s, t, Entering(true))
    case Return(t) =>
      var fs := Stack(s, t);
      s.(holder := if s.depth == 1 then None else s.holder, depth := s.depth - 1,
         stacks := s.stacks[t := fs[..|fs| - 1]])
    case StopCall(_) => s.(conn := Stop(s.conn))
  }

  /** Every assertion that the code evaluates in this step. */
  predicate AssertionsHold(s: System, a: Action) {
    var c := s.conn;
    match a
    case BeginStep(t, alive, made) =>
      (c.sock.Some? && !alive ==> MayShutAndClose(c, t)) &&
      (!(c.sock.Some? && alive) && made.Unsecured? ==>
         MayCloseSocket(if c.sock.Some? then ShutAndClosed(c) else c, t)) &&
      (Begin(c, t, alive, made).1 && c.inFlight > 1 ==> c.owner == Some(t))
    case CloseNow(t) => MayShutAndClose(c, t)
    case EndStep(t, close, ret) =>
      var c1 := End(c, false, true);
      (c1.inFlight <= 0 ==> c1.inFlight == 0) &&
      (c.closeWhenDone || close || !ret ==> MayShutAndClose(c1, t))
    case StopCall(t) => c.inFlight <= 0 ==> MayShutAndClose(c, t)
    case _ => true
  }

  /** Whether the step closes a socket that is open: a dead one before connecting anew, or the one in use. */
  predicate Drops(s: System, a: Action) {
    s.conn.sock.Some? &&
    match a
    case BeginStep(_, alive, _) => !alive
    case CloseNow(_) => true
    case EndStep(_, close, ret) => s.conn.closeWhenDone || close || !ret
    case StopCall(_) => s.conn.inFlight <= 0
    case _ => false
  }

  /** The thread whose step closes an open socket, if the step does. */
  function Closer(s: System, a: Action): Option<Thread> { if Drops(s, a) then Some(a.t) else None }

  /** No other step takes a socket away, and a socket closed is gone unless a new one was made. */
  lemma OnlyDropsClose(s: System, a: Action)
    requires Enabled(s, a) && s.conn.sock.Some?
    ensures !Drops(s, a) ==> Next(s, a).conn.sock == s.conn.sock
    ensures Drops(s, a) ==>
              Next(s, a).conn.sock == if a.BeginStep? && a.made.Connected? then Some(a.made.sock) else None
  {
  }

  /** The request of this step goes out on the connection already open. */
  predicate Reuses(s: System, a: Action) { a.BeginStep? && s.conn.sock.Some? && a.alive }

  /** This step makes a connection that can be used. */
  predicate Connects(s: System, a: Action) { a.BeginStep? && !Reuses(s, a) && a.made.Connected? }

  /**
    What a step does to the connection: only a begin makes one, and only a stop during a
    request shuts one down without closing it.
   */
  lemma ConnectionAfter(s: System, a: Action)
    requires Invariant(s) && Enabled(s, a)
    ensures var c, c' := s.conn, Next(s, a).conn;
            && c'.sock == (if Connects(s, a) then Some(a.made.sock) else if Drops(s, a) then None else c.sock)
            && (c'.down <==>
                !Connects(s, a) && !Drops(s, a) && (c.down || (a.StopCall? && c.inFlight > 0 && c.sock.Some?)))
            && (c'.tls <==> if Connects(s, a) then a.made.secure else c.tls && !Drops(s, a))
            && (c'.closeWhenDone <==> !a.BeginStep? && (c.closeWhenDone || (a.StopCall? && c.inFlight > 0)))
  {
  }

  /** And what a begin makes of the request: in flight, on an open socket that is not shut down, or given up. */
  lemma InFlightAfter(s: System, a: Action)
    requires Invariant(s) && Enabled(s, a) && a.BeginStep?
    ensures var s' := Next(s, a);
            (TopFrame(s', a.t).InFlight? <==> Reuses(s, a) || Connects(s, a)) &&
            (TopFrame(s', a.t).InFlight? ==> s'.conn.sock.Some? && !s'.conn.down)
  {
  }

  function CountInFlight(fs: seq<Frame>): nat {
    if fs == [] then 0
    else CountInFlight(fs[..|fs| - 1]) + if fs[|fs| - 1].InFlight? then 1 else 0
  }

  ghost predicate Invariant(s: System) {
    && (s.holder.None? ==> s.depth == 0 && s.conn.inFlight == 0)
    && (s.holder.Some? ==> var t := s.holder.value;
          && s.depth == |Stack(s, t)| > 0
          && s.conn.inFlight == CountInFlight(Stack(s, t))
          && forall i :: 0 <= i < |Stack(s, t)| - 1 ==> Stack(s, t)[i].InFlight?)
    && (forall u :: u in s.stacks && s.holder != Some(u) ==> s.stacks[u] == [])
    && s.conn.owner == (if s.conn.inFlight > 0 then s.holder else None)
    && (s.conn.sock.None? ==> !s.conn.down && !s.conn.tls)
  }

  lemma CountSnoc(fs: seq<Frame>, f: Frame)
    ensures CountInFlight(fs + [f]) == CountInFlight(fs) + if f.InFlight? then 1 else 0
  {
    assert (fs + [f])[..|fs|] == fs;
  }

  /** A thread with a frame holds the request mutex, so its frames are all the requests in flight. */
  lemma HolderOf(s: System, t: Thread)
    requires Invariant(s) && Stack(s, t) != []
    ensures s.holder == Some(t) && s.conn.inFlight == CountInFlight(Stack(s, t))
    ensures var outer := Stack(s, t)[..|Stack(s, t)| - 1];
            CountInFlight(Stack(s, t)) == CountInFlight(outer) + if TopFrame(s, t).InFlight? then 1 else 0
  {
  }

  /** Replacing the top frame and the guarded fields together, in step with the count. */
  lemma SetTopKeeps(s: System, t: Thread, c: Conn, f: Frame)
    requires Invariant(s) && Stack(s, t) != []
    requires c.inFlight == CountInFlight(Stack(s, t)[..|Stack(s, t)| - 1]) + if f.InFlight? then 1 else 0
    requires c.owner == (if c.inFlight > 0 then Some(t) else None) && (c.sock.None? ==> !c.down && !c.tls)
    ensures Invariant(SetTop(s.(conn := c), t, f))
  {
    HolderOf(s, t);
    var fs := Stack(s, t);
    CountSnoc(fs[..|fs| - 1], f);
    var s' := SetTop(s.(conn := c), t, f);
    assert Stack(s', t) == fs[..|fs| - 1] + [f];
  }

  lemma CallKeeps(s: System, t: Thread)
    requires Invariant(s) && Enabled(s, Call(t))
    ensures Invariant(Next(s, Call(t)))
  {
    var s' := Next(s, Call(t));
    CountSnoc(Stack(s, t), Entering(false));
    assert Stack(s', t) == Stack(s, t) + [Entering(false)];
    assert s.holder.None? ==> Stack(s, t) == [];
  }

  lemma ReturnKeeps(s: System, t: Thread)
    requires Invariant(s) && Enabled(s, Return(t))
    ensures Invariant(Next(s, Return(t)))
  {
    HolderOf(s, t);
    var s' := Next(s, Return(t));
    assert Stack(s', t) == Stack(s, t)[..|Stack(s, t)| - 1];
  }

  /** Every step keeps the invariant. */
  lemma StepKeeps(s: System, a: Action)
    requires Invariant(s) && Enabled(s, a)
    ensures Invariant(Next(s, a))
  {
    match a
    case Call(t) => CallKeeps(s, t);
    case BeginStep(t, alive, made) =>
      HolderOf(s, t);
      var r := Begin(s.conn, t, alive, made);
      SetTopKeeps(s, t, r.0, if r.1 then InFlight(TopFrame(s, t).again) else Leaving(TopFrame(s, t).again));
    case CloseNow(t) => assert forall u :: Stack(Next(s, a), u) == Stack(s, u);
    case EndStep(t, close, ret) =>
      HolderOf(s, t);
      SetTopKeeps(s, t, End(s.conn, close, ret), Leaving(TopFrame(s, t).again));
    case Retry(t) =>
      HolderOf(s, t);
      SetTopKeeps(s, t, s.conn, Entering(true));
    case Return(t) => ReturnKeeps(s, t);
    case StopCall(_) => assert forall u :: Stack(Next(s, a), u) == Stack(s, u);
  }

  /** Every step meets every assertion, and none closes the socket under another thread's request. */
  lemma StepSafe(s: System, a: Action)
    requires Invariant(s) && Enabled(s, a)
    ensures AssertionsHold(s, a)
    ensures forall u :: Closer(s, a).Some? && u != a.t ==> CountInFlight(Stack(s, u)) == 0
  {
    if Stack(s, a.t) != [] {
      HolderOf(s, a.t);
    }
  }

  // ----- whole runs -----

  ghost predicate Legal(s: System, run: seq<Action>)
    decreases |run|
  {
    run == [] || (Enabled(s, run[0]) && Legal(Next(s, run[0]), run[1..]))
  }

  ghost function After(s: System, run: seq<Action>): System
    requires Legal(s, run)
    decreases |run|
  {
    if run == [] then s else After(Next(s, run[0]), run[1..])
  }

  ghost predicate AllSafe(s: System, run: seq<Action>)
    requires Legal(s, run)
    decreases |run|
  {
    run == [] ||
    (AssertionsHold(s, run[0]) &&
     (forall u :: Closer(s, run[0]).Some? && u != run[0].t ==> CountInFlight(Stack(s, u)) == 0) &&
     AllSafe(Next(s, run[0]), run[1..]))
  }

  /** Socket ownership: in every interleaving of any number of threads, all of this holds at every step. */
  lemma {:induction false} EveryRunSafe(s: System, run: seq<Action>)
    requires Invariant(s) && Legal(s, run)
    ensures AllSafe(s, run) && Invariant(After(s, run))
    decreases |run|
  {
    if run != [] {
      StepSafe(s, run[0]);
      StepKeeps(s, run[0]);
      EveryRunSafe(Next(s, run[0]), run[1..]);
    }
  }

  lemma EveryRunFromStartSafe(run: seq<Action>)
    requires Legal(INITIAL, run)
    ensures AllSafe(INITIAL, run) && Invariant(After(INITIAL, run))
  {
    EveryRunSafe(INITIAL, run);
  }

  // ----- what stop achieves -----

  ghost predicate Stopping(s: System) {
    (s.conn.inFlight > 0 && s.conn.closeWhenDone) || s.conn.sock.None?
  }

  /**
    After stop, as long as no request begins, the socket stays marked until the last
    request in flight ends, and from then on it is closed.
   */
  lemma {:induction false} StopHonoured(s: System, run: seq<Action>)
    requires Invariant(s) && Legal(s, run) && Stopping(s)
    requires forall i :: 0 <= i < |run| ==> !run[i].BeginStep?
    ensures Stopping(After(s, run))
    ensures After(s, run).holder.None? ==> After(s, run).conn.sock.None?
    decreases |run|
  {
    EveryRunSafe(s, run);
    if run != [] {
      StepKeeps(s, run[0]);
      StopHonoured(Next(s, run[0]), run[1..]);
    }
  }

  lemma StopMarks(s: System, t: Thread)
    requires Invariant(s)
    ensures Stopping(Next(s, StopCall(t))) && Invariant(Next(s, StopCall(t)))
  {
    StepKeeps(s, StopCall(t));
  }

  /** No connection, or one that was shut down. */
  predicate Dead(s: System) { s.conn.sock.None? || s.conn.down }

  /** Before a new connection is made, some request goes out on the one there was. */
  ghost predicate GoesOnWithOld(s: System, run: seq<Action>)
    requires Legal(s, run)
    decreases |run|
  {
    run != [] && !Connects(s, run[0]) && (Reuses(s, run[0]) || GoesOnWithOld(Next(s, run[0]), run[1..]))
  }

  lemma {:induction false} DeadIsNotUsed(s: System, run: seq<Action>)
    requires Invariant(s) && Dead(s) && Legal(s, run)
    ensures !GoesOnWithOld(s, run)
    decreases |run|
  {
    if run != [] && !Connects(s, run[0]) {
      StepKeeps(s, run[0]);
      ConnectionAfter(s, run[0]);
      DeadIsNotUsed(Next(s, run[0]), run[1..]);
    }
  }

  /** After a stop no request of any thread begins on the old connection, whether or not the stop stays on record. */
  lemma StopEndsUse(s: System, t: Thread, run: seq<Action>)
    requires Invariant(s) && Legal(Next(s, StopCall(t)), run)
    ensures !GoesOnWithOld(Next(s, StopCall(t)), run)
  {
    StepKeeps(s, StopCall(t));
    DeadIsNotUsed(Next(s, StopCall(t)), run);
  }

  /** While nobody calls stop, the mark stays set exactly as long as no request begins. */
  lemma {:induction false} MarkStaysIff(s: System, run: seq<Action>)
    requires Legal(s, run) && forall a :: a in run ==> !a.StopCall?
    ensures After(s, run).conn.closeWhenDone <==> s.conn.closeWhenDone && forall a :: a in run ==> !a.BeginStep?
    decreases |run|
  {
    if run != [] {
      assert run == [run[0]] + run[1..];
      MarkStaysIff(Next(s, run[0]), run[1..]);
    }
  }

  /**
    What becomes of a stop made while a request is in flight, up to the next one: it is
    still on record exactly if no request has begun since, and then the socket is closed
    once the last request has ended.
   */
  lemma StopKeptIff(s: System, t: Thread, run: seq<Action>)
    requires Invariant(s) && s.conn.inFlight > 0
    requires Legal(Next(s, StopCall(t)), run) && forall a :: a in run ==> !a.StopCall?
    ensures var e := After(Next(s, StopCall(t)), run);
            (e.conn.closeWhenDone <==> forall a :: a in run ==> !a.BeginStep?) &&
            (e.conn.closeWhenDone && e.holder.None? ==> e.conn.sock.None?)
  {
    var s' := Next(s, StopCall(t));
    StopMarks(s, t);
    MarkStaysIff(s', run);
    if forall a :: a in run ==> !a.BeginStep? {
      assert forall i :: 0 <= i < |run| ==> run[i] in run;
      StopHonoured(s', run);
    }
  }

  lemma LegalCons(s: System, a: Action, rest: seq<Action>)
    requires Enabled(s, a) && Legal(Next(s, a), rest)
    ensures Legal(s, [a] + rest) && After(s, [a] + rest) == After(Next(s, a), rest)
  {
    assert ([a] + rest)[1..] == rest;
  }

  function Only(c: Conn, fs: seq<Frame>): System { System(c, Some(0), |fs|, map[0 := fs]) }

  lemma OnlyTop(c: Conn, c': Conn, outer: seq<Frame>, f: Frame, g: Frame)
    ensures Stack(Only(c, outer + [f]), 0) == outer + [f]
    ensures SetTop(Only(c, outer + [f]).(conn := c'), 0, g) == Only(c', outer + [g])
  {
    assert (outer + [f])[..|outer|] == outer;
    assert map[0 := outer + [f]][0 := outer + [g]] == map[0 := outer + [g]];
  }

  lemma OnlyPop(c: Conn, outer: seq<Frame>)
    requires outer != []
    ensures Next(Only(c, outer + [Leaving(false)]), Return(0)) == Only(c, outer)
  {
    assert (outer + [Leaving(false)])[..|outer|] == outer;
    assert map[0 := outer + [Leaving(false)]][0 := outer] == map[0 := outer];
  }

  lemma OnlyPush(c: Conn, fs: seq<Frame>)
    requires fs != [] && fs[|fs| - 1].InFlight?
    ensures Next(Only(c, fs), Call(0)) == Only(c, fs + [Entering(false)])
  {
    assert map[0 := fs][0 := fs + [Entering(false)]] == map[0 := fs + [Entering(false)]];
  }

  /** A request that ends well on an unmarked connection leaves the socket open. */
  lemma EndsOpen(c: Conn) returns (run: seq<Action>)
    requires c.sock.Some? && c.inFlight == 2 && !c.closeWhenDone
    ensures var s := Only(c, [InFlight(false)] + [InFlight(false)]);
            Legal(s, run) && After(s, run).holder.None? && After(s, run).conn.sock.Some?
  {
    var end, ret, flying := EndStep(0, false, true), Return(0), [InFlight(false)];
    var c1 := End(c, false, true);
    var c2 := End(c1, false, true);
    var s, s1, s2, s3 := Only(c, flying + flying), Only(c1, flying + [Leaving(false)]), Only(c1, flying),
        Only(c2, [] + [Leaving(false)]);
    OnlyTop(c, c1, flying, InFlight(false), Leaving(false));
    OnlyPop(c1, flying);
    OnlyTop(c1, c2, [], InFlight(false), Leaving(false));
    assert [] + flying == flying;
    assert Next(s, end) == s1 && Next(s1, ret) == s2 && Next(s2, end) == s3;
    LegalCons(s3, ret, []);
    LegalCons(s2, end, [ret] + []);
    LegalCons(s1, ret, [end] + ([ret] + []));
    run := [end] + ([ret] + ([end] + ([ret] + [])));
    LegalCons(s, end, [ret] + ([end] + ([ret] + [])));
  }

  /**
    The proviso is needed: a send made while handling a response resets the mark, so a
    stop called during the outer request is forgotten and a socket is left open.
   */
  lemma NestedSendForgetsStop() returns (run: seq<Action>)
    ensures Legal(INITIAL, run) && StopCall(1) in run
    ensures After(INITIAL, run).holder.None? && After(INITIAL, run).conn.sock.Some?
  {
    var call, begin, stop, again := Call(0), BeginStep(0, false, Connected(7, false)), StopCall(1),
        BeginStep(0, false, Connected(8, false));
    var flying := [InFlight(false)];
    var c2, c3 := Conn(Some(7), 1, Some(0), false, false, false), Conn(Some(7), 1, Some(0), true, true, false);
    var c5 := Conn(Some(8), 2, Some(0), false, false, false);
    var s1, s2, s3 := Only(INITIAL.conn, [] + [Entering(false)]), Only(c2, [] + flying), Only(c3, [] + flying);
    var s4, s5 := Only(c3, flying + [Entering(false)]), Only(c5, flying + flying);
    assert Stack(INITIAL, 0) == [];
    assert map[][0 := [Entering(false)]] == map[0 := [Entering(false)]];
    assert Next(INITIAL, call) == s1;
    OnlyTop(INITIAL.conn, c2, [], Entering(false), InFlight(false));
    OnlyPush(c3, [] + flying);
    assert [] + flying == flying;
    OnlyTop(c3, c5, flying, Entering(false), InFlight(false));
    var rest := EndsOpen(c5);
    LegalCons(s4, again, rest);
    LegalCons(s3, call, [again] + rest);
    LegalCons(s2, stop, [call] + ([again] + rest));
    LegalCons(s1, begin, [stop] + ([call] + ([again] + rest)));
    run := [call] + ([begin] + ([stop] + ([call] + ([again] + rest))));
    LegalCons(INITIAL, call, [begin] + ([stop] + ([call] + ([again] + rest))));
    assert run[2] == StopCall(1);
  }
}
