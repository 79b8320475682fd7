/**
  The pool of remote clients: connections kept idle per host key, handed out to one
  user at a time, and destroyed when too old, unfit, in excess, or when the pool is
  cleared.  A client is known by its address, and an address may be given out again
  once its client is destroyed.
 */
module ClientPool {
  import opened Text

  type Addr = nat
  type Key = string

  const MAX_IDLE := 12

  /** The three maps guarded by the pool mutex. */
  datatype Pool = Pool(idle: map<Key, seq<Addr>>, keyOf: map<Addr, Key>, since: map<Addr, int>)

  function IdleList(p: Pool, k: Key): seq<Addr> { if k in p.idle then p.idle[k] else [] }

  datatype Taken = Taken(pool: Pool, expired: seq<Addr>, got: Option<Addr>)

  predicate TooOld(p: Pool, a: Addr, now: int, timeout: Addr -> int) {
    a in p.since && now - p.since[a] > timeout(a)
  }

  /** Take clients off the back of the idle list until one is not too old. */
  function Take(p: Pool, k: Key, now: int, timeout: Addr -> int): (r: Taken)
    decreases |IdleList(p, k)|
  {
    var l := IdleList(p, k);
    if l == [] then Taken(p, [], None)
    else
      var a := l[|l| - 1];
      var rest := p.(idle := p.idle[k := l[..|l| - 1]], since := p.since - {a});
      if TooOld(p, a, now, timeout) then
        var r := Take(rest.(keyOf := rest.keyOf - {a}), k, now, timeout);
        r.(expired := [a] + r.expired)
      else Taken(rest, [], Some(a))
  }

  /** One expired client taken off the list. */
  lemma TakeStep(p: Pool, k: Key, now: int, timeout: Addr -> int, q: Pool, done: seq<Addr>)
    requires var l := IdleList(p, k);
             l != [] && TooOld(p, l[|l| - 1], now, timeout) &&
             q == Pool(p.idle[k := l[..|l| - 1]], p.keyOf - {l[|l| - 1]}, p.since - {l[|l| - 1]})
    ensures var l, r := IdleList(p, k), Take(q, k, now, timeout);
            var whole := Take(p, k, now, timeout);
            whole.(expired := done + whole.expired) == r.(expired := (done + [l[|l| - 1]]) + r.expired)
  {
    var l, r := IdleList(p, k), Take(q, k, now, timeout);
    Assoc(done, [l[|l| - 1]], r.expired);
  }

  /** Back to the idle list of its key, if it has one, the use went well, it is connected and there is room. */
  function Put(p: Pool, a: Addr, fit: bool, now: int): (r: (Pool, bool)) {
    if a in p.keyOf && fit then
      var k := p.keyOf[a];
      var l := IdleList(p, k);
      if |l| < MAX_IDLE then (p.(idle := p.idle[k := l + [a]], since := p.since[a := now]), true)
      else (p.(idle := p.idle[k := l], keyOf := p.keyOf - {a}), false)
    else (p.(keyOf := p.keyOf - {a}), false)
  }

  const EMPTY := Pool(map[], map[], map[])

  ghost predicate Enumerates(ks: seq<Key>, keys: set<Key>) {
    (forall i :: 0 <= i < |ks| ==> ks[i] in keys) && (forall k :: k in keys ==> k in ks) &&
    forall i, j :: 0 <= i < j < |ks| ==> ks[i] != ks[j]
  }

  /** The clients of the listed keys, one list after the other. */
  function Flatten(idle: map<Key, seq<Addr>>, ks: seq<Key>): seq<Addr> {
    if ks == [] then []
    else
      var k := ks[|ks| - 1];
      Flatten(idle, ks[..|ks| - 1]) + if k in idle then idle[k] else []
  }

  // ----- the same on the shared maps -----

  class SharedPool {
    var idle: map<Key, seq<Addr>>
    var keyOf: map<Addr, Key>
    var since: map<Addr, int>

    ghost function View(): Pool
      reads this
    {
      Pool(idle, keyOf, since)
    }

    constructor ()
      ensures View() == EMPTY
    {
      idle, keyOf, since := map[], map[], map[];
    }

    /** The locked part of acquiring a reusable client. */
    method TakeIdle(k: Key, now: int, timeout: Addr -> int) returns (expired: seq<Addr>, client: Option<Addr>)
      modifies this
      ensures Taken(View(), expired, client) == Take(old(View()), k, now, timeout)
    {
      expired, client := [], None;
      ghost var goal := Take(View(), k, now, timeout);
      while k in idle && idle[k] != []
        invariant var r := Take(View(), k, now, timeout); goal == r.(expired := expired + r.expired)
        decreases |IdleList(View(), k)|
      {
        ghost var before := View();
        var candidate := idle[k][|idle[k]| - 1];
        var tooOld := candidate in since && now - since[candidate] > timeout(candidate);
        idle := idle[k := idle[k][..|idle[k]| - 1]];
        since := since - {candidate};
        if tooOld {
          keyOf := keyOf - {candidate};
          TakeStep(before, k, now, timeout, View(), expired);
          expired := expired + [candidate];
        } else {
          client := Some(candidate);
          return;
        }
      }
      assert expired + [] == expired;
    }

    method Register(a: Addr, k: Key)
      modifies this
      ensures View() == old(View()).(keyOf := old(keyOf)[a := k])
    {
      keyOf := keyOf[a := k];
    }

    /** The locked part of releasing a client. */
    method PutBack(a: Addr, success: bool, connected: bool, now: int) returns (pooled: bool)
      modifies this
      ensures (View(), pooled) == Put(old(View()), a, success && connected, now)
    {
      pooled := false;
      if a in keyOf && success && connected {
        var k := keyOf[a];
        if k !in idle { idle := idle[k := []]; }
        if |idle[k]| < MAX_IDLE {
          idle := idle[k := idle[k] + [a]];
          since := since[a := now];
          pooled := true;
        }
      }
      if !pooled { keyOf := keyOf - {a}; }
      MapFacts(old(View()), a, now);
    }

    lemma MapFacts(p: Pool, a: Addr, now: int)
      ensures a in p.keyOf ==> var k := p.keyOf[a]; var l := IdleList(p, k);
                p.idle[k := []][k := [] + [a]] == p.idle[k := [a]] && [] + [a] == [a] &&
                (k in p.idle ==> p.idle[k := l] == p.idle)
    {
    }

    /** The locked part of clearing the pool: every idle client is handed to the caller to destroy. */
    method Clear() returns (clients: seq<Addr>, ghost order: seq<Key>)
      modifies this
      ensures View() == EMPTY
      ensures Enumerates(order, old(idle).Keys) && clients == Flatten(old(idle), order)
    {
      clients, order := [], [];
      var todo := idle.Keys;
      while todo != {}
        invariant todo <= idle.Keys && idle == old(idle)
        invariant Enumerates(order, idle.Keys - todo) && clients == Flatten(idle, order)
        decreases todo
      {
        var k :| k in todo;
        ghost var longer := order + [k];
        assert longer[..|order|] == order;
        clients := clients + idle[k];
        todo := todo - {k};
        order := longer;
      }
      idle, keyOf, since := map[], map[], map[];
    }
  }

  // ----- all users together -----

  /** Where a thread is in its use of the pool. */
  datatype User =
    | Away
    | Acquiring(key: Key, reusable: bool, expired: seq<Addr>, got: Option<Addr>)
    | Created(addr: Addr, key: Key)
    | Holding(addr: Addr)
    | Destroying(addrs: seq<Addr>)

  datatype World = World(pool: Pool, live: set<Addr>, users: map<nat, User>)

  datatype Action =
    | Acquire(u: nat, key: Key, reusable: bool, now: int, timeout: Addr -> int)
    | DropExpired(u: nat)
    | Reuse(u: nat)
    | Create(u: nat, made: Option<Addr>)
    | Enlist(u: nat)
    | Release(u: nat, fit: bool, now: int)
    | ClearPool(u: nat, order: seq<Key>)
    | DestroyNext(u: nat)

  /** A user that has these to destroy, if there are any. */
  function Disposing(l: seq<Addr>): User { if l == [] then Away else Destroying(l) }

  function UserOf(w: World, u: nat): User { if u in w.users then w.users[u] else Away }

  ghost predicate Enabled(w: World, a: Action) {
    var x := UserOf(w, a.u);
    match a
    case Acquire(_, _, _, _, _) => x.Away?
    case DropExpired(_) => x.Acquiring? && x.expired != []
    case Reuse(_) => x.Acquiring? && x.expired == [] && x.got.Some?
    case Create(_, made) =>
      // the allocator gives out an address that no live client has
      x.Acquiring? && x.expired == [] && x.got.None? && (made.Some? ==> made.value !in w.live)
    case Enlist(_) => x.Created?
    case Release(_, _, _) => x.Holding?
    case ClearPool(_, order) => x.Away? && Enumerates(order, w.pool.idle.Keys)
    case DestroyNext(_) => x.Destroying? && x.addrs != []
  }

  ghost function Next(w: World, a: Action): World
    requires Enabled(w, a)
  {
    var x := UserOf(w, a.u);
    match a
    case Acquire(u, k, reusable, now, timeout) =>
      if reusable then
        var r := Take(w.pool, k, now, timeout);
        w.(pool := r.pool, users := w.users[u := Acquiring(k, true, r.expired, r.got)])
      else w.(users := w.users[u := Acquiring(k, false, [], None)])
    case DropExpired(u) =>
      w.(live := w.live - {x.expired[0]}, users := w.users[u := x.(expired := x.expired[1..])])
    case Reuse(u) => w.(users := w.users[u := Holding(x.got.value)])
    case Create(u, made) =>
      if made.None? then w.(users := w.users[u := Away])
      else w.(live := w.live + {made.value},
              users := w.users[u := if x.reusable then Created(made.value, x.key) else Holding(made.value)])
    case Enlist(u) =>
      w.(pool := w.pool.(keyOf := w.pool.keyOf[x.addr := x.key]), users := w.users[u := Holding(x.addr)])
    case Release(u, fit, now) =>
      var r := Put(w.pool, x.addr, fit, now);
      w.(pool := r.0, users := w.users[u := if r.1 then Away else Destroying([x.addr])])
    case ClearPool(u, order) =>
      w.(pool := EMPTY, users := w.users[u := Disposing(Flatten(w.pool.idle, order))])
    case DestroyNext(u) =>
      w.(live := w.live - {x.addrs[0]}, users := w.users[u := Disposing(x.addrs[1..])])
  }

  /** The clients a user has to itself. */
  function Owned(x: User): seq<Addr> {
    match x
    case Away => []
    case Acquiring(_, _, expired, got) => expired + if got.Some? then [got.value] else []
    case Created(a, _) => [a]
    case Holding(a) => [a]
    case Destroying(l) => l
  }

  /** Those among them that are on their way out, or not yet known to the pool. */
  function Unlisted(x: User): seq<Addr> {
    match x
    case Acquiring(_, _, expired, _) => expired
    case Created(a, _) => [a]
    case Destroying(l) => l
    case _ => []
  }

  predicate Distinct(l: seq<Addr>) { forall i, j :: 0 <= i < j < |l| ==> l[i] != l[j] }

  /** The idle list of one key: short, without repeats, its clients known under that key and timed. */
  ghost predicate FileOk(p: Pool, k: Key) {
    var l := IdleList(p, k);
    |l| <= MAX_IDLE && Distinct(l) && forall a :: a in l ==> a in p.keyOf && p.keyOf[a] == k && a in p.since
  }

  ghost predicate Filed(p: Pool, a: Addr) { a in p.keyOf && a in IdleList(p, p.keyOf[a]) }

  ghost predicate PoolOk(p: Pool, live: set<Addr>) {
    && (forall k :: FileOk(p, k))
    && (forall a :: a in p.since ==> Filed(p, a))
    && p.keyOf.Keys <= live
  }

  ghost predicate UserOk(p: Pool, live: set<Addr>, x: User) {
    && Distinct(Owned(x))
    && (forall a :: a in Owned(x) ==> a in live && a !in p.since)
    && (forall a :: a in Unlisted(x) ==> a !in p.keyOf)
  }

  ghost predicate Apart(x: User, y: User) { forall a :: a in Owned(x) ==> a !in Owned(y) }

  /**
    Idle clients are live, distinct, filed under their own key, at most twelve a key,
    and are exactly those with an idle time; a client is idle or with one user, never
    both nor with two; only live clients appear in any map.
   */
  ghost predicate Invariant(w: World) {
    && PoolOk(w.pool, w.live)
    && (forall u :: u in w.users ==> UserOk(w.pool, w.live, w.users[u]))
    && (forall u, v :: u in w.users && v in w.users && u != v ==> Apart(w.users[u], w.users[v]))
  }

  lemma DistinctJoin(l: seq<Addr>, m: seq<Addr>)
    requires Distinct(l) && Distinct(m) && forall a :: a in l ==> a !in m
    ensures Distinct(l + m)
  {
    var n := l + m;
    forall i, j | 0 <= i < j < |n|
      ensures n[i] != n[j]
    {
      if i < |l| <= j {
        assert n[i] in l && n[j] in m;
      }
    }
  }

  lemma DistinctCons(a: Addr, l: seq<Addr>)
    ensures Distinct([a] + l) <==> a !in l && Distinct(l)
  {
    var m := [a] + l;
    if a !in l && Distinct(l) {
      DistinctJoin([a], l);
    }
    if Distinct(m) {
      forall i | 0 <= i < |l|
        ensures l[i] != a
      {
        assert m[i + 1] == l[i] && m[0] == a;
      }
      forall i, j | 0 <= i < j < |l|
        ensures l[i] != l[j]
      {
        assert m[i + 1] == l[i] && m[j + 1] == l[j];
      }
    }
  }

  /** The last client is taken off one idle list, with or without forgetting its key. */
  ghost predicate Popped(p: Pool, k: Key, a: Addr, q: Pool) {
    var l := IdleList(p, k);
    l != [] && a == l[|l| - 1] && q.idle == p.idle[k := l[..|l| - 1]] && q.since == p.since - {a} &&
    (q.keyOf == p.keyOf || q.keyOf == p.keyOf - {a})
  }

  lemma PopFile(p: Pool, k: Key, a: Addr, q: Pool, k': Key)
    requires Popped(p, k, a, q) && FileOk(p, k) && FileOk(p, k')
    ensures FileOk(q, k')
  {
    var l := IdleList(p, k);
    assert a in l && l == l[..|l| - 1] + [a];
    if k' != k {
      assert IdleList(q, k') == IdleList(p, k') && a !in IdleList(p, k');
    } else {
      assert IdleList(q, k) == l[..|l| - 1] && a !in l[..|l| - 1];
    }
  }

  lemma PopFiled(p: Pool, k: Key, a: Addr, q: Pool, b: Addr)
    requires Popped(p, k, a, q) && b in q.since && Filed(p, b)
    ensures Filed(q, b)
  {
    var l, kb := IdleList(p, k), p.keyOf[b];
    assert l == l[..|l| - 1] + [a];
    assert IdleList(q, kb) == if kb == k then l[..|l| - 1] else IdleList(p, kb);
  }

  lemma PopOk(p: Pool, live: set<Addr>, k: Key, a: Addr, q: Pool)
    requires PoolOk(p, live) && Popped(p, k, a, q)
    ensures a in p.since && a in live && PoolOk(q, live)
  {
    assert FileOk(p, k) && a in IdleList(p, k);
    forall k'
      ensures FileOk(q, k')
    {
      PopFile(p, k, a, q, k');
    }
    forall b | b in q.since
      ensures Filed(q, b)
    {
      PopFiled(p, k, a, q, b);
    }
  }

  ghost predicate TakenOk(p: Pool, live: set<Addr>, r: Taken) {
    && PoolOk(r.pool, live)
    && r.pool.since.Keys <= p.since.Keys && r.pool.keyOf.Keys <= p.keyOf.Keys
    && (forall a :: a in r.expired ==> a !in r.pool.keyOf)
    && var out := r.expired + (if r.got.Some? then [r.got.value] else []);
       Distinct(out) && forall a :: a in out ==> a in p.since && a in live && a !in r.pool.since
  }

  /** What is taken off the idle list was idle, is distinct and no longer idle; what expired has no key left. */
  lemma {:induction false} TakeOk(p: Pool, live: set<Addr>, k: Key, now: int, timeout: Addr -> int)
    requires PoolOk(p, live)
    ensures TakenOk(p, live, Take(p, k, now, timeout))
    decreases |IdleList(p, k)|
  {
    var l := IdleList(p, k);
    if l != [] {
      var a := l[|l| - 1];
      var q := p.(idle := p.idle[k := l[..|l| - 1]], since := p.since - {a});
      if TooOld(p, a, now, timeout) {
        var q' := q.(keyOf := q.keyOf - {a});
        PopOk(p, live, k, a, q');
        TakeOk(q', live, k, now, timeout);
        TakenCons(p, q', live, a, Take(q', k, now, timeout));
      } else {
        PopOk(p, live, k, a, q);
      }
    }
  }

  lemma TakenCons(p: Pool, q: Pool, live: set<Addr>, a: Addr, r: Taken)
    requires TakenOk(q, live, r) && a in p.since && a in live
    requires q.since == p.since - {a} && q.keyOf == p.keyOf - {a}
    ensures TakenOk(p, live, r.(expired := [a] + r.expired))
  {
    var got := if r.got.Some? then [r.got.value] else [];
    var out := r.expired + got;
    assert ([a] + r.expired) + got == [a] + out;
    DistinctCons(a, out);
  }

  lemma PutOk(p: Pool, live: set<Addr>, a: Addr, fit: bool, now: int)
    requires PoolOk(p, live) && a in live && a !in p.since
    ensures var r := Put(p, a, fit, now);
            PoolOk(r.0, live) && r.0.keyOf.Keys <= p.keyOf.Keys && (!r.1 ==> a !in r.0.keyOf) &&
            r.0.since.Keys <= p.since.Keys + (if r.1 then {a} else {})
  {
    var q := Put(p, a, fit, now).0;
    forall k'
      ensures FileOk(q, k')
    {
      assert FileOk(p, k') && a !in IdleList(p, k');
      var l := IdleList(p, k');
      assert IdleList(q, k') == l || IdleList(q, k') == l + [a];
    }
    forall b | b in q.since
      ensures Filed(q, b)
    {
      assert b == a || Filed(p, b);
    }
  }

  lemma {:induction false} FlattenOk(p: Pool, live: set<Addr>, ks: seq<Key>)
    requires PoolOk(p, live)
    requires forall i, j :: 0 <= i < j < |ks| ==> ks[i] != ks[j]
    ensures Distinct(Flatten(p.idle, ks))
    ensures forall a :: a in Flatten(p.idle, ks) ==> a in p.since && a in live && p.keyOf[a] in ks
  {
    if ks != [] {
      var init, k := ks[..|ks| - 1], ks[|ks| - 1];
      FlattenOk(p, live, init);
      assert k !in init;
      assert FileOk(p, k);
      DistinctJoin(Flatten(p.idle, init), IdleList(p, k));
    }
  }

  /** Replacing the pool, the live set and one user keeps the invariant when these fit together. */
  lemma Replace(w: World, p: Pool, live: set<Addr>, u: nat, x: User)
    requires Invariant(w) && PoolOk(p, live) && UserOk(p, live, x)
    requires forall v :: v in w.users && v != u ==> UserOk(p, live, w.users[v]) && Apart(x, w.users[v])
    ensures Invariant(World(p, live, w.users[u := x]))
  {
    var w' := World(p, live, w.users[u := x]);
    forall v, v' | v in w'.users && v' in w'.users && v != v'
      ensures Apart(w'.users[v], w'.users[v'])
    {
    }
  }

  lemma AcquireKeeps(w: World, a: Action)
    requires Invariant(w) && a.Acquire? && Enabled(w, a)
    ensures Invariant(Next(w, a))
  {
    if a.reusable {
      TakeOk(w.pool, w.live, a.key, a.now, a.timeout);
      TakenFits(w, a.u, a.key, Take(w.pool, a.key, a.now, a.timeout));
    } else {
      Replace(w, w.pool, w.live, a.u, Acquiring(a.key, false, [], None));
    }
  }

  lemma TakenFits(w: World, u: nat, k: Key, r: Taken)
    requires Invariant(w) && UserOf(w, u) == Away && TakenOk(w.pool, w.live, r)
    ensures Invariant(World(r.pool, w.live, w.users[u := Acquiring(k, true, r.expired, r.got)]))
  {
    var x := Acquiring(k, true, r.expired, r.got);
    forall v | v in w.users && v != u
      ensures UserOk(r.pool, w.live, w.users[v]) && Apart(x, w.users[v])
    {
      assert UserOk(w.pool, w.live, w.users[v]);
    }
    Replace(w, r.pool, w.live, u, x);
  }

  lemma DestroyKeeps(w: World, u: nat, a: Addr, x: User, x': User)
    requires Invariant(w) && UserOf(w, u) == x && Owned(x) == [a] + Owned(x') && a in Unlisted(x)
    requires forall b :: b in Unlisted(x') ==> b in Unlisted(x)
    ensures Invariant(w.(live := w.live - {a}, users := w.users[u := x']))
  {
    DistinctCons(a, Owned(x'));
    assert a in Owned(x);
    Replace(w, w.pool, w.live - {a}, u, x');
  }

  lemma ReleaseKeeps(w: World, a: Action)
    requires Invariant(w) && a.Release? && Enabled(w, a)
    ensures Invariant(Next(w, a))
  {
    var x := UserOf(w, a.u);
    assert x.addr in Owned(x);
    PutOk(w.pool, w.live, x.addr, a.fit, a.now);
    var r := Put(w.pool, x.addr, a.fit, a.now);
    Replace(w, r.0, w.live, a.u, if r.1 then Away else Destroying([x.addr]));
  }

  lemma ClearKeeps(w: World, a: Action)
    requires Invariant(w) && a.ClearPool? && Enabled(w, a)
    ensures Invariant(Next(w, a))
  {
    FlattenOk(w.pool, w.live, a.order);
    Replace(w, EMPTY, w.live, a.u, Disposing(Flatten(w.pool.idle, a.order)));
  }

  lemma CreateKeeps(w: World, a: Action)
    requires Invariant(w) && a.Create? && Enabled(w, a)
    ensures Invariant(Next(w, a))
  {
    var x := UserOf(w, a.u);
    if a.made.None? {
      Replace(w, w.pool, w.live, a.u, Away);
    } else {
      NewFits(w, a.u, a.made.value, if x.reusable then Created(a.made.value, x.key) else Holding(a.made.value));
    }
  }

  /** A client at an address that nothing live has, in the hands of its maker. */
  lemma NewFits(w: World, u: nat, a: Addr, x: User)
    requires Invariant(w) && a !in w.live && (x.Created? || x.Holding?) && x.addr == a
    ensures Invariant(World(w.pool, w.live + {a}, w.users[u := x]))
  {
    assert Owned(x) == [a];
    forall v | v in w.users && v != u
      ensures UserOk(w.pool, w.live + {a}, w.users[v]) && Apart(x, w.users[v])
    {
      assert UserOk(w.pool, w.live, w.users[v]);
    }
    Replace(w, w.pool, w.live + {a}, u, x);
  }

  lemma DropKeeps(w: World, u: nat)
    requires Invariant(w) && Enabled(w, DropExpired(u))
    ensures Invariant(Next(w, DropExpired(u)))
  {
    var x := UserOf(w, u);
    var x' := x.(expired := x.expired[1..]);
    assert x.expired == [x.expired[0]] + x.expired[1..];
    assert Owned(x) == [x.expired[0]] + Owned(x');
    DestroyKeeps(w, u, x.expired[0], x, x');
  }

  lemma DestroyNextKeeps(w: World, u: nat)
    requires Invariant(w) && Enabled(w, DestroyNext(u))
    ensures Invariant(Next(w, DestroyNext(u)))
  {
    var x := UserOf(w, u);
    var x' := Disposing(x.addrs[1..]);
    assert x.addrs == [x.addrs[0]] + x.addrs[1..];
    assert Owned(x') == x.addrs[1..];
    DestroyKeeps(w, u, x.addrs[0], x, x');
  }

  lemma EnlistKeeps(w: World, u: nat)
    requires Invariant(w) && Enabled(w, Enlist(u))
    ensures Invariant(Next(w, Enlist(u)))
  {
    var x := UserOf(w, u);
    assert x.addr in Owned(x) && x.addr in Unlisted(x);
    var q := w.pool.(keyOf := w.pool.keyOf[x.addr := x.key]);
    EnlistOk(w.pool, w.live, x.addr, x.key);
    Replace(w, q, w.live, u, Holding(x.addr));
  }

  lemma EnlistOk(p: Pool, live: set<Addr>, a: Addr, k: Key)
    requires PoolOk(p, live) && a in live && a !in p.keyOf
    ensures PoolOk(p.(keyOf := p.keyOf[a := k]), live)
  {
    var q := p.(keyOf := p.keyOf[a := k]);
    forall k'
      ensures FileOk(q, k')
    {
      assert FileOk(p, k') && IdleList(q, k') == IdleList(p, k');
    }
    assert forall b :: b in q.since ==> Filed(p, b) && IdleList(q, q.keyOf[b]) == IdleList(p, q.keyOf[b]);
  }

  lemma ReuseKeeps(w: World, u: nat)
    requires Invariant(w) && Enabled(w, Reuse(u))
    ensures Invariant(Next(w, Reuse(u)))
  {
    var x := UserOf(w, u);
    assert Owned(x) == Owned(Holding(x.got.value));
    Replace(w, w.pool, w.live, u, Holding(x.got.value));
  }

  /** Every step of every user keeps the invariant. */
  lemma StepKeeps(w: World, a: Action)
    requires Invariant(w) && Enabled(w, a)
    ensures Invariant(Next(w, a))
  {
    match a
    case Acquire(_, _, _, _, _) => AcquireKeeps(w, a);
    case DropExpired(u) => DropKeeps(w, u);
    case Reuse(u) => ReuseKeeps(w, u);
    case Create(_, _) => CreateKeeps(w, a);
    case Enlist(u) => EnlistKeeps(w, u);
    case Release(_, _, _) => ReleaseKeeps(w, a);
    case ClearPool(_, _) => ClearKeeps(w, a);
    case DestroyNext(u) => DestroyNextKeeps(w, u);
  }

  // ----- whole runs -----

  ghost predicate Legal(w: World, run: seq<Action>)
    decreases |run|
  {
    run == [] || (Enabled(w, run[0]) && Legal(Next(w, run[0]), run[1..]))
  }

  ghost function After(w: World, run: seq<Action>): World
    requires Legal(w, run)
    decreases |run|
  {
    if run == [] then w else After(Next(w, run[0]), run[1..])
  }

  /** Pool safety: the invariant holds after every interleaving of any number of users. */
  lemma {:induction false} EveryRunSafe(w: World, run: seq<Action>)
    requires Invariant(w) && Legal(w, run)
    ensures Invariant(After(w, run))
    decreases |run|
  {
    if run != [] {
      StepKeeps(w, run[0]);
      EveryRunSafe(Next(w, run[0]), run[1..]);
    }
  }

  lemma EveryRunFromStartSafe(run: seq<Action>)
    requires Legal(World(EMPTY, {}, map[]), run)
    ensures Invariant(After(World(EMPTY, {}, map[]), run))
  {
    EveryRunSafe(World(EMPTY, {}, map[]), run);
  }

  /** The client that a step destroys, if it destroys one. */
  ghost function Victim(w: World, a: Action): Option<Addr>
    requires Enabled(w, a)
  {
    match a
    case DropExpired(u) => Some(UserOf(w, u).expired[0])
    case DestroyNext(u) => Some(UserOf(w, u).addrs[0])
    case _ => None
  }

  /**
    A client is destroyed while it is live, by the one user that has it, and afterwards
    its address is in no map and with no user, so it cannot be destroyed again until a
    new client is made there.
   */
  lemma DestroyedOnce(w: World, a: Action)
    requires Invariant(w) && Enabled(w, a) && Victim(w, a).Some?
    ensures var d, w' := Victim(w, a).value, Next(w, a);
            d in w.live && d !in w'.live && d !in w'.pool.keyOf && d !in w'.pool.since &&
            (forall k :: d !in IdleList(w'.pool, k)) && (forall u :: d !in Owned(UserOf(w', u)))
  {
    StepKeeps(w, a);
    var x := UserOf(w, a.u);
    var d, w' := Victim(w, a).value, Next(w, a);
    assert d in Owned(x);
    assert Invariant(w') && d !in w'.live;
    forall k
      ensures d !in IdleList(w'.pool, k)
    {
      assert FileOk(w'.pool, k);
    }
    forall u
      ensures d !in Owned(UserOf(w', u))
    {
      assert u in w'.users ==> UserOk(w'.pool, w'.live, w'.users[u]);
    }
  }

  // ----- a client that is out while the pool is cleared -----

  ghost predicate Orphan(w: World, u: nat, a: Addr) {
    UserOf(w, u) == Holding(a) && a !in w.pool.keyOf
  }

  lemma ClearOrphans(w: World, c: Action, u: nat, a: Addr)
    requires c.ClearPool? && Enabled(w, c) && UserOf(w, u) == Holding(a)
    ensures Orphan(Next(w, c), u, a)
  {
  }

  lemma OrphanStays(w: World, c: Action, u: nat, a: Addr)
    requires Invariant(w) && Enabled(w, c) && Orphan(w, u, a) && !(c.Release? && c.u == u)
    ensures Orphan(Next(w, c), u, a)
  {
    assert c.u != u;
    assert a in Owned(UserOf(w, u));
    match c
    case Acquire(_, k, reusable, now, timeout) =>
      if reusable {
        TakeOk(w.pool, w.live, k, now, timeout);
      }
    case Enlist(v) =>
      assert UserOf(w, v).addr in Owned(UserOf(w, v));
      assert Apart(w.users[u], w.users[v]);
    case Release(v, fit, now) =>
    case _ =>
  }

  /**
    One checked out when the pool is cleared stays unknown to the pool through every
    run until its user gives it back, and is then destroyed and not pooled.
   */
  lemma {:induction false} ClearedIsDestroyedOnRelease(w: World, run: seq<Action>, u: nat, a: Addr, fit: bool, now: int)
    requires Invariant(w) && Legal(w, run) && Orphan(w, u, a)
    requires forall i :: 0 <= i < |run| ==> !(run[i].Release? && run[i].u == u)
    ensures var w' := After(w, run);
            Enabled(w', Release(u, fit, now)) && UserOf(Next(w', Release(u, fit, now)), u) == Destroying([a])
    decreases |run|
  {
    if run != [] {
      StepKeeps(w, run[0]);
      OrphanStays(w, run[0], u, a);
      ClearedIsDestroyedOnRelease(Next(w, run[0]), run[1..], u, a, fit, now);
    }
  }
}
