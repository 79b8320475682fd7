/**
  What the pool of remote clients is for: which client an acquire finds, what becomes of
  one that is released, and that one which was unfit is never handed out again.
 */
module PoolUse {
  import opened Text
  import opened ClientPool

  // ----- acquiring -----

  ghost predicate Expired(p: Pool, a: Addr, now: int, timeout: Addr -> int) {
    a in p.since && now > p.since[a] + timeout(a)
  }

  function Reversed(l: seq<Addr>): seq<Addr> { if l == [] then [] else Reversed(l[1..]) + [l[0]] }

  lemma {:induction false} ReversedHas(l: seq<Addr>)
    ensures |Reversed(l)| == |l| && forall a :: a in Reversed(l) <==> a in l
  {
    if l != [] {
      ReversedHas(l[1..]);
      assert l == [l[0]] + l[1..];
    }
  }

  /**
    The idle list of the key falls into what stays, the client that was found and is within
    its timeout, and those behind it, all of them expired; without one found nothing stays.
   */
  ghost predicate FoundIn(p: Pool, k: Key, now: int, timeout: Addr -> int, r: Taken) {
    var found := if r.got.Some? then [r.got.value] else [];
    && IdleList(p, k) == IdleList(r.pool, k) + found + Reversed(r.expired)
    && (forall a :: a in r.expired ==> Expired(p, a, now, timeout))
    && (r.got.Some? ==> !Expired(p, r.got.value, now, timeout))
    && (r.got.None? ==> IdleList(r.pool, k) == [])
  }

  /** Nothing else is forgotten: other lists, other times, and the keys of all but the expired. */
  ghost predicate OthersKept(p: Pool, k: Key, r: Taken) {
    && (forall j :: j != k ==> IdleList(r.pool, j) == IdleList(p, j))
    && (forall a :: a !in IdleList(p, k) ==> (a in r.pool.since <==> a in p.since))
    && (forall a :: a in r.pool.since ==> a in p.since && r.pool.since[a] == p.since[a])
    && (forall a :: a in r.pool.keyOf <==> a in p.keyOf && a !in r.expired)
    && (forall a :: a in r.pool.keyOf ==> r.pool.keyOf[a] == p.keyOf[a])
  }

  lemma {:induction false} TakeFinds(p: Pool, k: Key, now: int, timeout: Addr -> int)
    requires Distinct(IdleList(p, k))
    ensures FoundIn(p, k, now, timeout, Take(p, k, now, timeout)) && OthersKept(p, k, Take(p, k, now, timeout))
    decreases |IdleList(p, k)|
  {
    var l := IdleList(p, k);
    if l != [] {
      var a, init := l[|l| - 1], l[..|l| - 1];
      assert l == init + [a];
      var rest := p.(idle := p.idle[k := init], since := p.since - {a});
      if TooOld(p, a, now, timeout) {
        var q := rest.(keyOf := rest.keyOf - {a});
        TakeFinds(q, k, now, timeout);
        FoundBehind(p, q, k, now, timeout, a, Take(q, k, now, timeout));
      } else {
        assert IdleList(rest, k) == init;
      }
    }
  }

  lemma FoundBehind(p: Pool, q: Pool, k: Key, now: int, timeout: Addr -> int, a: Addr, r: Taken)
    requires IdleList(p, k) == IdleList(q, k) + [a] && Distinct(IdleList(p, k)) && Expired(p, a, now, timeout)
    requires q.since == p.since - {a} && q.keyOf == p.keyOf - {a}
    requires forall j :: j != k ==> IdleList(q, j) == IdleList(p, j)
    requires FoundIn(q, k, now, timeout, r) && OthersKept(q, k, r)
    ensures FoundIn(p, k, now, timeout, r.(expired := [a] + r.expired))
    ensures OthersKept(p, k, r.(expired := [a] + r.expired))
  {
    var e, l := [a] + r.expired, IdleList(q, k);
    assert e[1..] == r.expired && Reversed(e) == Reversed(r.expired) + [a];
    assert a in IdleList(p, k);
    if r.got.Some? {
      assert r.got.value in l;
      NotTwice(l, a);
    }
  }

  /** An acquire hands out a client of the key asked for that is within its timeout, and the newest one such. */
  lemma AcquireFinds(w: World, u: nat, k: Key, now: int, timeout: Addr -> int)
    requires Invariant(w) && Enabled(w, Acquire(u, k, true, now, timeout))
    ensures var w' := Next(w, Acquire(u, k, true, now, timeout));
            var x := UserOf(w', u);
            x.Acquiring? && x.key == k && FoundIn(w.pool, k, now, timeout, Taken(w'.pool, x.expired, x.got)) &&
            OthersKept(w.pool, k, Taken(w'.pool, x.expired, x.got)) &&
            (x.got.Some? ==> x.got.value in IdleList(w.pool, k))
  {
    assert FileOk(w.pool, k);
    TakeFinds(w.pool, k, now, timeout);
  }

  // ----- releasing -----

  /** The use went well, the pool still knows the client, and there are fewer than twelve idle under its key. */
  predicate Welcome(p: Pool, a: Addr, fit: bool) { fit && a in p.keyOf && |IdleList(p, p.keyOf[a])| < 12 }

  /** A released client goes to the back of the list of its key exactly if it is welcome; otherwise it is destroyed. */
  lemma ReleasedIffWelcome(w: World, u: nat, fit: bool, now: int)
    requires Invariant(w) && Enabled(w, Release(u, fit, now))
    ensures var a, w' := UserOf(w, u).addr, Next(w, Release(u, fit, now));
            && (a in w'.pool.since <==> Welcome(w.pool, a, fit))
            && (UserOf(w', u) == if Welcome(w.pool, a, fit) then Away else Destroying([a]))
            && (if Welcome(w.pool, a, fit) then Joined(w.pool, w'.pool, a, now) else Dropped(w.pool, w'.pool, a))
  {
    var x := UserOf(w, u);
    assert x.addr in Owned(x);
  }

  ghost predicate Joined(p: Pool, p': Pool, a: Addr, now: int)
    requires a in p.keyOf
  {
    && p'.keyOf == p.keyOf && p'.since == p.since[a := now]
    && forall k :: IdleList(p', k) == IdleList(p, k) + if k == p.keyOf[a] then [a] else []
  }

  ghost predicate Dropped(p: Pool, p': Pool, a: Addr) {
    p'.keyOf == p.keyOf - {a} && p'.since == p.since && forall k :: IdleList(p', k) == IdleList(p, k)
  }

  // ----- never handed out again -----

  /** Clients on their way out. */
  function Leaving(x: User): seq<Addr> {
    match x
    case Acquiring(_, _, expired, _) => expired
    case Destroying(l) => l
    case _ => []
  }

  /** Unknown to the pool, and with nobody but those who are about to destroy it. */
  ghost predicate Doomed(w: World, a: Addr) {
    && a !in w.pool.keyOf && a !in w.pool.since
    && forall u :: u in w.users && a in Owned(w.users[u]) ==> a in Leaving(w.users[u])
  }

  /** Some user has it to work with, or is about to. */
  ghost predicate HandedOut(w: World, a: Addr) {
    exists u :: u in w.users &&
      var x := w.users[u];
      (x.Acquiring? && x.got == Some(a)) || (x.Created? && x.addr == a) || (x.Holding? && x.addr == a)
  }

  lemma DoomedIsNotHandedOut(w: World, a: Addr)
    requires Invariant(w) && Doomed(w, a)
    ensures !HandedOut(w, a) && forall k :: a !in IdleList(w.pool, k)
  {
    forall k
      ensures a !in IdleList(w.pool, k)
    {
      assert FileOk(w.pool, k);
    }
    forall u | u in w.users
      ensures w.users[u].Acquiring? ==> w.users[u].got != Some(a)
    {
      var x := w.users[u];
      assert UserOk(w.pool, w.live, x);
      if x.Acquiring? && x.got == Some(a) {
        NotTwice(x.expired, a);
      }
    }
  }

  lemma NotTwice(l: seq<Addr>, a: Addr)
    requires Distinct(l + [a])
    ensures a !in l
  {
    var m := l + [a];
    forall i | 0 <= i < |l|
      ensures l[i] != a
    {
      assert m[i] == l[i] && m[|l|] == a;
    }
  }

  /** The step makes a new client at this address. */
  predicate Makes(c: Action, a: Addr) { c.Create? && c.made == Some(a) }

  lemma DoomedStep(w: World, c: Action, a: Addr)
    requires Invariant(w) && Enabled(w, c) && Doomed(w, a) && !Makes(c, a)
    ensures Doomed(Next(w, c), a)
  {
    match c
    case Acquire(_, _, _, _, _) => AcquireDoomed(w, c, a);
    case ClearPool(_, order) => ClearDoomed(w, c, a);
    case Release(_, _, _) => ReleaseDoomed(w, c, a);
    case _ => OwnStepDoomed(w, c, a);
  }

  lemma AcquireDoomed(w: World, c: Action, a: Addr)
    requires Invariant(w) && c.Acquire? && Enabled(w, c) && Doomed(w, a)
    ensures Doomed(Next(w, c), a)
  {
    if c.reusable {
      TakeOk(w.pool, w.live, c.key, c.now, c.timeout);
      TakenDoomed(w, c.u, c.key, Take(w.pool, c.key, c.now, c.timeout), a);
    }
  }

  lemma TakenDoomed(w: World, u: nat, k: Key, r: Taken, a: Addr)
    requires Doomed(w, a) && TakenOk(w.pool, w.live, r)
    ensures Doomed(World(r.pool, w.live, w.users[u := Acquiring(k, true, r.expired, r.got)]), a)
  {
  }

  lemma ClearDoomed(w: World, c: Action, a: Addr)
    requires Invariant(w) && c.ClearPool? && Enabled(w, c) && Doomed(w, a)
    ensures Doomed(Next(w, c), a)
  {
    FlattenOk(w.pool, w.live, c.order);
  }

  lemma ReleaseDoomed(w: World, c: Action, a: Addr)
    requires Invariant(w) && c.Release? && Enabled(w, c) && Doomed(w, a)
    ensures Doomed(Next(w, c), a)
  {
    assert UserOf(w, c.u).addr in Owned(UserOf(w, c.u));
  }

  lemma OwnStepDoomed(w: World, c: Action, a: Addr)
    requires Invariant(w) && Enabled(w, c) && Doomed(w, a) && !Makes(c, a)
    requires c.DropExpired? || c.Reuse? || c.Create? || c.Enlist? || c.DestroyNext?
    ensures Doomed(Next(w, c), a)
  {
    StaysLeaving(w, c, a);
    if c.Enlist? {
      assert UserOf(w, c.u).addr in Owned(UserOf(w, c.u));
    }
  }

  lemma StaysLeaving(w: World, c: Action, a: Addr)
    requires Invariant(w) && Enabled(w, c) && Doomed(w, a) && !Makes(c, a)
    requires c.DropExpired? || c.Reuse? || c.Create? || c.Enlist? || c.DestroyNext?
    ensures c.u in Next(w, c).users
    ensures var x := Next(w, c).users[c.u]; a in Owned(x) ==> a in Leaving(x)
  {
    var x := UserOf(w, c.u);
    assert a in Owned(x) ==> a in Leaving(x);
    if c.DropExpired? {
      DropLeaves(x, a);
    }
  }

  lemma DropLeaves(x: User, a: Addr)
    requires x.Acquiring? && x.expired != [] && Distinct(Owned(x)) && (a in Owned(x) ==> a in Leaving(x))
    ensures var x' := x.(expired := x.expired[1..]); a in Owned(x') ==> a in Leaving(x')
  {
    if x.got == Some(a) {
      assert Owned(x) == x.expired + [a];
      NotTwice(x.expired, a);
    }
  }

  /**
    A client that was released and not welcome (its use went badly, it had lost its
    connection, the pool no longer knew it, or its list was full) is never handed out
    again, in any run, until a new client is made at its address.
   */
  lemma {:induction false} NeverHandedOutAgain(w: World, run: seq<Action>, a: Addr)
    requires Invariant(w) && Legal(w, run) && Doomed(w, a)
    requires forall c :: c in run ==> !Makes(c, a)
    ensures Doomed(After(w, run), a) && !HandedOut(After(w, run), a)
    decreases |run|
  {
    if run == [] {
      DoomedIsNotHandedOut(w, a);
    } else {
      assert run[0] in run && forall c :: c in run[1..] ==> c in run;
      StepKeeps(w, run[0]);
      DoomedStep(w, run[0], a);
      NeverHandedOutAgain(Next(w, run[0]), run[1..], a);
    }
  }

  lemma UnfitNeverHandedOut(w: World, u: nat, fit: bool, now: int, run: seq<Action>)
    requires Invariant(w) && Enabled(w, Release(u, fit, now)) && Legal(Next(w, Release(u, fit, now)), run)
    requires var a := UserOf(w, u).addr; !Welcome(w.pool, a, fit) && forall c :: c in run ==> !Makes(c, a)
    ensures !HandedOut(After(Next(w, Release(u, fit, now)), run), UserOf(w, u).addr)
  {
    var a, w' := UserOf(w, u).addr, Next(w, Release(u, fit, now));
    StepKeeps(w, Release(u, fit, now));
    ReleasedIffWelcome(w, u, fit, now);
    assert a in Owned(UserOf(w, u));
    NeverHandedOutAgain(w', run, a);
  }

  /** And one that is destroyed is doomed before and after. */
  lemma DestroyedIsDoomed(w: World, c: Action)
    requires Invariant(w) && Enabled(w, c) && Victim(w, c).Some?
    ensures Doomed(Next(w, c), Victim(w, c).value)
  {
    DestroyedOnce(w, c);
    var d, w' := Victim(w, c).value, Next(w, c);
    forall u | u in w'.users
      ensures d !in Owned(w'.users[u])
    {
      assert UserOf(w', u) == w'.users[u];
    }
  }

  // ----- nothing is lost -----

  ghost predicate Idle(w: World, a: Addr) { a in w.pool.since }

  ghost predicate WithUser(w: World, a: Addr) { exists u :: u in w.users && a in Owned(w.users[u]) }

  /** Every live client is idle or with some user, and a user that destroys has something to destroy. */
  ghost predicate NoneLost(w: World) {
    (forall a :: a in w.live ==> Idle(w, a) || WithUser(w, a)) &&
    forall u :: u in w.users && w.users[u].Destroying? ==> w.users[u].addrs != []
  }

  /** After a step of one user each live client is with others, with this one, or idle. */
  lemma Accounted(w: World, u: nat, p: Pool, live: set<Addr>, x: User)
    requires NoneLost(w)
    requires forall a :: a in live && a in w.pool.since ==> a in p.since || a in Owned(x)
    requires forall a :: a in live && a in Owned(UserOf(w, u)) ==> a in p.since || a in Owned(x)
    requires forall a :: a in live ==> a in w.live || a in Owned(x)
    requires x.Destroying? ==> x.addrs != []
    ensures NoneLost(World(p, live, w.users[u := x]))
  {
    var w' := World(p, live, w.users[u := x]);
    assert w'.users[u] == x;
    forall a | a in live
      ensures Idle(w', a) || WithUser(w', a)
    {
      if a in w.live && !Idle(w, a) {
        var v :| v in w.users && a in Owned(w.users[v]);
        if v != u {
          assert v in w'.users && w'.users[v] == w.users[v];
        }
      }
    }
  }

  lemma TakenLosesNone(p: Pool, k: Key, now: int, timeout: Addr -> int, r: Taken, live: set<Addr>, a: Addr)
    requires FoundIn(p, k, now, timeout, r) && OthersKept(p, k, r) && PoolOk(r.pool, live) && a in p.since
    ensures a in r.pool.since || a in Owned(Acquiring(k, true, r.expired, r.got))
  {
    ReversedHas(r.expired);
    if a in IdleList(p, k) {
      assert FileOk(r.pool, k);
    }
  }

  lemma AcquireLosesNone(w: World, c: Action)
    requires Invariant(w) && NoneLost(w) && c.Acquire? && Enabled(w, c)
    ensures NoneLost(Next(w, c))
  {
    if c.reusable {
      assert FileOk(w.pool, c.key);
      TakeFinds(w.pool, c.key, c.now, c.timeout);
      TakeOk(w.pool, w.live, c.key, c.now, c.timeout);
      TakenAccounted(w, c.u, c.key, c.now, c.timeout, Take(w.pool, c.key, c.now, c.timeout));
    } else {
      Accounted(w, c.u, w.pool, w.live, Acquiring(c.key, false, [], None));
    }
  }

  lemma TakenAccounted(w: World, u: nat, k: Key, now: int, timeout: Addr -> int, r: Taken)
    requires NoneLost(w) && UserOf(w, u) == Away
    requires FoundIn(w.pool, k, now, timeout, r) && OthersKept(w.pool, k, r) && PoolOk(r.pool, w.live)
    ensures NoneLost(World(r.pool, w.live, w.users[u := Acquiring(k, true, r.expired, r.got)]))
  {
    var x := Acquiring(k, true, r.expired, r.got);
    forall a | a in w.pool.since
      ensures a in r.pool.since || a in Owned(x)
    {
      TakenLosesNone(w.pool, k, now, timeout, r, w.live, a);
    }
    Accounted(w, u, r.pool, w.live, x);
  }

  lemma {:induction false} FlattenHas(idle: map<Key, seq<Addr>>, ks: seq<Key>, k: Key, a: Addr)
    requires k in ks && k in idle && a in idle[k]
    ensures a in Flatten(idle, ks)
  {
    if ks[|ks| - 1] != k {
      assert k in ks[..|ks| - 1];
      FlattenHas(idle, ks[..|ks| - 1], k, a);
    }
  }

  lemma FlattenHasAll(p: Pool, live: set<Addr>, order: seq<Key>, a: Addr)
    requires PoolOk(p, live) && Enumerates(order, p.idle.Keys) && a in p.since
    ensures a in Flatten(p.idle, order)
  {
    assert Filed(p, a);
    FlattenHas(p.idle, order, p.keyOf[a], a);
  }

  lemma ClearLosesNone(w: World, c: Action)
    requires Invariant(w) && NoneLost(w) && c.ClearPool? && Enabled(w, c)
    ensures NoneLost(Next(w, c))
  {
    var l := Flatten(w.pool.idle, c.order);
    forall a | a in w.pool.since
      ensures a in l
    {
      FlattenHasAll(w.pool, w.live, c.order, a);
    }
    DisposingOwns(l);
    Accounted(w, c.u, EMPTY, w.live, Disposing(l));
  }

  lemma DisposingOwns(l: seq<Addr>)
    ensures Owned(Disposing(l)) == l
  {
  }

  lemma OwnStepLosesNone(w: World, c: Action)
    requires Invariant(w) && NoneLost(w) && Enabled(w, c) && !c.Acquire? && !c.ClearPool?
    ensures NoneLost(Next(w, c))
  {
    match c
    case DropExpired(u) => DropLosesNone(w, u);
    case Reuse(u) => Accounted(w, u, w.pool, w.live, Holding(UserOf(w, u).got.value));
    case Create(u, made) => CreateLosesNone(w, u, made);
    case Enlist(u) =>
      var x := UserOf(w, u);
      Accounted(w, u, w.pool.(keyOf := w.pool.keyOf[x.addr := x.key]), w.live, Holding(x.addr));
    case Release(_, _, _) => ReleaseLosesNone(w, c);
    case DestroyNext(u) => DestroyLosesNone(w, u);
  }

  lemma ReleaseLosesNone(w: World, c: Action)
    requires NoneLost(w) && c.Release? && Enabled(w, c)
    ensures NoneLost(Next(w, c))
  {
    var a := UserOf(w, c.u).addr;
    var r := Put(w.pool, a, c.fit, c.now);
    Accounted(w, c.u, r.0, w.live, if r.1 then Away else Destroying([a]));
  }

  lemma DropLosesNone(w: World, u: nat)
    requires NoneLost(w) && Enabled(w, DropExpired(u))
    ensures NoneLost(Next(w, DropExpired(u)))
  {
    var x := UserOf(w, u);
    assert x.expired == [x.expired[0]] + x.expired[1..];
    Accounted(w, u, w.pool, w.live - {x.expired[0]}, x.(expired := x.expired[1..]));
  }

  lemma CreateLosesNone(w: World, u: nat, made: Option<Addr>)
    requires NoneLost(w) && Enabled(w, Create(u, made))
    ensures NoneLost(Next(w, Create(u, made)))
  {
    var x := UserOf(w, u);
    if made.None? {
      Accounted(w, u, w.pool, w.live, Away);
    } else {
      var a := made.value;
      var x' := if x.reusable then Created(a, x.key) else Holding(a);
      assert Owned(x') == [a];
      Accounted(w, u, w.pool, w.live + {a}, x');
    }
  }

  lemma DestroyLosesNone(w: World, u: nat)
    requires NoneLost(w) && Enabled(w, DestroyNext(u))
    ensures NoneLost(Next(w, DestroyNext(u)))
  {
    var x := UserOf(w, u);
    assert x.addrs == [x.addrs[0]] + x.addrs[1..];
    DisposingOwns(x.addrs[1..]);
    Accounted(w, u, w.pool, w.live - {x.addrs[0]}, Disposing(x.addrs[1..]));
  }

  /** Over every run no live client is lost sight of: it is idle in the pool or in the hands of exactly one user. */
  lemma {:induction false} NoneLostEver(w: World, run: seq<Action>)
    requires Invariant(w) && NoneLost(w) && Legal(w, run)
    ensures NoneLost(After(w, run))
    decreases |run|
  {
    if run != [] {
      StepKeeps(w, run[0]);
      match run[0] {
        case Acquire(_, _, _, _, _) => AcquireLosesNone(w, run[0]);
        case ClearPool(_, _) => ClearLosesNone(w, run[0]);
        case _ => OwnStepLosesNone(w, run[0]);
      }
      NoneLostEver(Next(w, run[0]), run[1..]);
    }
  }

  /** And nobody gets stuck: a user in the middle of something can always go on. */
  lemma NobodyStuck(w: World, u: nat, run: seq<Action>) returns (c: Action)
    requires Legal(World(EMPTY, {}, map[]), run) && w == After(World(EMPTY, {}, map[]), run)
    ensures c.u == u && Enabled(w, c)
    ensures UserOf(w, u) != Away ==> !c.Acquire? && !c.ClearPool?
  {
    NoneLostEver(World(EMPTY, {}, map[]), run);
    match UserOf(w, u)
    case Away => c := Acquire(u, "", false, 0, _ => 0);
    case Acquiring(_, _, expired, got) =>
      c := if expired != [] then DropExpired(u) else if got.Some? then Reuse(u) else Create(u, None);
    case Created(_, _) => c := Enlist(u);
    case Holding(_) => c := Release(u, true, 0);
    case Destroying(_) => c := DestroyNext(u);
  }

  // ----- from acquire to release -----

  /** The user has this client to itself, and the pool knows it under this key. */
  ghost predicate HoldsUnder(w: World, u: nat, a: Addr, k: Key) {
    UserOf(w, u) == Holding(a) && a in w.pool.keyOf && w.pool.keyOf[a] == k
  }

  /** What a user that asked for a key ends up with: a client known under it, or one that nobody else can get. */
  lemma HandedOver(w: World, u: nat)
    requires Invariant(w) && UserOf(w, u).Acquiring? && UserOf(w, u).expired == []
    ensures var x := UserOf(w, u);
            && (x.got.Some? ==> UserOf(Next(w, Reuse(u)), u) == Holding(x.got.value))
            && (x.got.None? ==> forall a :: a !in w.live ==>
                  var w' := Next(w, Create(u, Some(a)));
                  if x.reusable then Enabled(w', Enlist(u)) && HoldsUnder(Next(w', Enlist(u)), u, a, x.key)
                  else Orphan(w', u, a))
  {
  }

  /** The acquire remembers what was asked for; a client it found is known under that key. */
  lemma AcquireRemembers(w: World, u: nat, k: Key, reusable: bool, now: int, timeout: Addr -> int)
    requires Invariant(w) && Enabled(w, Acquire(u, k, reusable, now, timeout))
    ensures var w' := Next(w, Acquire(u, k, reusable, now, timeout));
            var x := UserOf(w', u);
            x.Acquiring? && x.key == k && x.reusable == reusable &&
            (!reusable ==> x.got.None? && x.expired == [] && w'.pool == w.pool) &&
            (x.got.Some? ==> x.got.value in w'.pool.keyOf && w'.pool.keyOf[x.got.value] == k)
  {
    if reusable {
      assert FileOk(w.pool, k);
      TakeFinds(w.pool, k, now, timeout);
      TakeOk(w.pool, w.live, k, now, timeout);
      var r := Take(w.pool, k, now, timeout);
      if r.got.Some? {
        assert r.got.value in IdleList(w.pool, k);
        NotTwice(r.expired, r.got.value);
      }
    }
  }

  lemma HeldStaysKnown(w: World, c: Action, u: nat, a: Addr, k: Key)
    requires Invariant(w) && Enabled(w, c) && HoldsUnder(w, u, a, k) && c.u != u && !c.ClearPool?
    ensures HoldsUnder(Next(w, c), u, a, k)
  {
    assert a in Owned(UserOf(w, u)) && a !in w.pool.since;
    match c
    case Acquire(_, k', reusable, now, timeout) =>
      if reusable {
        assert FileOk(w.pool, k');
        TakeFinds(w.pool, k', now, timeout);
        TakeOk(w.pool, w.live, k', now, timeout);
      }
    case Enlist(v) =>
      assert UserOf(w, v).addr in Owned(UserOf(w, v));
      assert Apart(w.users[u], w.users[v]);
    case Release(v, fit, now) =>
      assert UserOf(w, v).addr in Owned(UserOf(w, v));
      assert Apart(w.users[u], w.users[v]);
    case _ =>
  }

  /**
    Through every run without a clear in which others acquire and release as they like, a
    client in use stays known under its key, so its release files it there if it is fit
    and there is room.
   */
  lemma {:induction false} ReturnsToItsKey(w: World, run: seq<Action>, u: nat, a: Addr, k: Key, now: int)
    requires Invariant(w) && Legal(w, run) && HoldsUnder(w, u, a, k)
    requires forall c :: c in run ==> c.u != u && !c.ClearPool?
    ensures var w' := After(w, run);
            Enabled(w', Release(u, true, now)) &&
            (|IdleList(w'.pool, k)| < 12 ==>
               IdleList(Next(w', Release(u, true, now)).pool, k) == IdleList(w'.pool, k) + [a])
    decreases |run|
  {
    if run == [] {
      ReleasedIffWelcome(w, u, true, now);
    } else {
      assert run[0] in run && forall c :: c in run[1..] ==> c in run;
      StepKeeps(w, run[0]);
      HeldStaysKnown(w, run[0], u, a, k);
      ReturnsToItsKey(Next(w, run[0]), run[1..], u, a, k, now);
    }
  }
}
