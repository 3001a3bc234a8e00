/** Who holds the ports: the connections of all slots acquire from one pool, hand the address over and give it back. */
module Slots {
  import opened Wrappers
  import opened PortPool

  // --- one connection, undisturbed ---

  /** The part of a connection that owns a port: boundLocalAddr, guarded by connMu. */
  class Connection {
    const pool: Pool
    var bound: Option<nat>

    constructor (pool: Pool)
      ensures this.pool == pool && bound == None
    {
      this.pool, bound := pool, None;
    }

    /** close: the address is taken out under the lock and released after it, so a second close releases nothing. */
    method Close(now: int)
      requires pool.Valid()
      modifies this`bound, pool
      ensures pool.Valid() && bound == None
      ensures pool.View() == if old(bound).None? then old(pool.View())
                             else AfterRelease(pool.cfg, old(pool.View()), old(bound).value, now)
    {
      var b := bound;
      bound := None;
      if b.Some? {
        pool.Release(b.value, now);
      }
    }

    /** connect: acquire, dial, store, shake hands.  Only a connection that stays open keeps a port; but an address
        bound on entry is overwritten, and its port stays in use with nobody to release it. */
    method Connect(owner: string, now: int, dialOk: bool, handshakeOk: bool) returns (ok: bool)
      requires pool.Valid()
      modifies this`bound, pool
      ensures pool.Valid()
      ensures ok ==>
                bound.Some? && bound.value !in old(pool.inUse)
                && pool.inUse == old(pool.inUse)[bound.value := owner]
      ensures !ok ==> pool.inUse == old(pool.inUse) && (bound == old(bound) || bound == None)
    {
      ghost var before := pool.View();
      var r := pool.Acquire(owner, now);
      if r.ErrPoolExhausted? {
        AcquireInUse(pool.cfg, before, Exhausted(owner, now), pool.View());
        return false;
      }
      AcquireInUse(pool.cfg, before, Acquired(owner, now, r.port), pool.View());
      assert before.inUse[r.port := owner] - {r.port} == before.inUse;
      if !dialOk {
        pool.Release(r.port, now);
        return false;
      }
      bound := Some(r.port);
      if !handshakeOk {
        Close(now);
        return false;
      }
      return true;
    }
  }

  /** What an Acquire does to the map of ports in use. */
  lemma AcquireInUse(cfg: PoolConfig, s: PoolState, e: PoolEvent, s': PoolState)
    requires Partition(cfg, s) && PoolStep(cfg, s, e, s') && (e.Acquired? || e.Exhausted?)
    ensures e.Acquired? ==> e.got !in s.inUse && s'.inUse == s.inUse[e.got := e.owner]
    ensures e.Exhausted? ==> s'.inUse == s.inUse
  {
    var mid :| Swept(s, e.now, mid) && Popped(mid, e, s');
    SweepKeeps(cfg, s, e.now, mid);
    hide Partition, Swept;
    if e.Acquired? {
      FreeNotInUse(cfg, mid);
    }
  }

  lemma FreeNotInUse(cfg: PoolConfig, s: PoolState)
    requires Partition(cfg, s)
    ensures s.free != [] ==> s.free[0] !in s.inUse
  {
  }

  // --- all connections at once ---

  /** A port acquired, and which acquisition it was. */
  datatype Lease = Lease(n: nat, port: nat)

  /** A goroutine that has a lease in a local variable: in connect before the store, or in close after the lock. */
  datatype Activity = Dialing(slot: nat, lease: Lease) | Returning(lease: Lease)

  datatype Holder = OfSlot(slot: nat) | OfActivity(a: nat)

  /** What became of an acquisition. */
  datatype Place = Held(h: Holder) | GivenBack | Lost

  datatype Record = Record(port: nat, place: Place)

  /** bound is boundLocalAddr of each slot that has one.  The history: every acquisition, and every release in order. */
  datatype State = State(pool: PoolState, bound: map<nat, Lease>, acts: map<nat, Activity>, records: seq<Record>,
                         releases: seq<nat>)

  /** The steps of any number of connect and close calls on any slots; pool is the pool after the step. */
  datatype Event =
    | Acquire(a: nat, slot: nat, owner: string, now: int, port: nat, pool: PoolState)
    | AcquireFails(slot: nat, owner: string, now: int, pool: PoolState)
    | DialFails(a: nat, now: int)
    | Store(a: nat)
    | TakeBound(a: nat, slot: nat)
    | Return(a: nat, now: int)
    | Look(now: int, pool: PoolState)

  function Begin(cfg: PoolConfig): (s: State)
    requires Check(cfg).Fine?
  {
    State(Initial(cfg), map[], map[], [], [])
  }

  function Put(s: State, n: nat, place: Place): (r: seq<Record>)
    requires n < |s.records|
  {
    s.records[n := s.records[n].(place := place)]
  }

  /** Does the store of connect overwrite an address? */
  predicate Overwrites(s: State, e: Event) {
    e.Store? && e.a in s.acts && s.acts[e.a].Dialing? && s.acts[e.a].slot in s.bound
  }

  function GiveBack(cfg: PoolConfig, s: State, a: nat, now: int): (r: State)
    requires a in s.acts && s.acts[a].lease.n < |s.records|
  {
    var l := s.acts[a].lease;
    s.(pool := AfterRelease(cfg, s.pool, l.port, now), acts := s.acts - {a}, records := Put(s, l.n, GivenBack),
       releases := s.releases + [l.n])
  }

  ghost predicate Step(cfg: PoolConfig, s: State, e: Event, s': State) {
    match e
    case Acquire(a, slot, owner, now, port, pool) =>
      a !in s.acts && PoolStep(cfg, s.pool, Acquired(owner, now, port), pool)
      && s' == s.(pool := pool, acts := s.acts[a := Dialing(slot, Lease(|s.records|, port))],
                  records := s.records + [Record(port, Held(OfActivity(a)))])
    case AcquireFails(_, owner, now, pool) =>
      PoolStep(cfg, s.pool, Exhausted(owner, now), pool) && s' == s.(pool := pool)
    case DialFails(a, now) =>
      a in s.acts && s.acts[a].Dialing? && s.acts[a].lease.n < |s.records| && s' == GiveBack(cfg, s, a, now)
    case Store(a) =>
      a in s.acts && s.acts[a].Dialing? && s.acts[a].lease.n < |s.records|
      && var slot, l := s.acts[a].slot, s.acts[a].lease;
         var lost := if slot in s.bound && s.bound[slot].n < |s.records| then Put(s, s.bound[slot].n, Lost)
                     else s.records;
         s' == s.(bound := s.bound[slot := l], acts := s.acts - {a},
                  records := lost[l.n := lost[l.n].(place := Held(OfSlot(slot)))])
    case TakeBound(a, slot) =>
      a !in s.acts && slot in s.bound && s.bound[slot].n < |s.records|
      && s' == s.(bound := s.bound - {slot}, acts := s.acts[a := Returning(s.bound[slot])],
                  records := Put(s, s.bound[slot].n, Held(OfActivity(a))))
    case Return(a, now) =>
      a in s.acts && s.acts[a].Returning? && s.acts[a].lease.n < |s.records| && s' == GiveBack(cfg, s, a, now)
    case Look(now, pool) => PoolStep(cfg, s.pool, Looked(now), pool) && s' == s.(pool := pool)
  }

  // --- ownership ---

  predicate HasLease(s: State, h: Holder) {
    match h
    case OfSlot(k) => k in s.bound
    case OfActivity(a) => a in s.acts
  }

  function LeaseOf(s: State, h: Holder): (l: Lease)
    requires HasLease(s, h)
  {
    match h
    case OfSlot(k) => s.bound[k]
    case OfActivity(a) => s.acts[a].lease
  }

  /** A holder's lease is recorded as its own. */
  predicate HolderFits(s: State, h: Holder)
    requires HasLease(s, h)
  {
    var l := LeaseOf(s, h);
    l.n < |s.records| && s.records[l.n] == Record(l.port, Held(h))
  }

  /** An acquisition not given back has its port in use, and its holder, if any, has it. */
  predicate RecordFits(s: State, n: nat)
    requires n < |s.records|
  {
    var r := s.records[n];
    (r.place.GivenBack? || r.port in s.pool.inUse)
    && (r.place.Held? ==> HasLease(s, r.place.h) && LeaseOf(s, r.place.h) == Lease(n, r.port))
  }

  predicate Outstanding(s: State, n: nat, p: nat) {
    n < |s.records| && s.records[n].port == p && !s.records[n].place.GivenBack?
  }

  ghost predicate Ownership(s: State) {
    && (forall h {:trigger HolderFits(s, h)} :: HasLease(s, h) ==> HolderFits(s, h))
    && (forall n {:trigger RecordFits(s, n)} :: 0 <= n < |s.records| ==> RecordFits(s, n))
    && (forall p <- s.pool.inUse :: exists n :: Outstanding(s, n, p))
    && (forall m, n :: 0 <= m < n < |s.records| && !s.records[m].place.GivenBack? && !s.records[n].place.GivenBack?
                       ==> s.records[m].port != s.records[n].port)
    && (forall n <- s.releases :: n < |s.records| && s.records[n].place.GivenBack?)
    && NoDup(s.releases)
  }

  lemma AcquireKeeps(cfg: PoolConfig, s: State, e: Event, s': State)
    requires Partition(cfg, s.pool) && Ownership(s) && e.Acquire? && Step(cfg, s, e, s')
    ensures Ownership(s')
  {
    AcquireInUse(cfg, s.pool, Acquired(e.owner, e.now, e.port), e.pool);
    hide Partition, PoolStep;
    var n := |s.records|;
    forall h | HasLease(s', h) ensures HolderFits(s', h) { assert h != OfActivity(e.a) ==> HolderFits(s, h); }
    forall m | 0 <= m < |s'.records| ensures RecordFits(s', m) { assert m < n ==> RecordFits(s, m); }
    forall p | p in s'.pool.inUse
      ensures exists m :: Outstanding(s', m, p)
    {
      if p == e.port {
        assert Outstanding(s', n, p);
      } else {
        var m :| Outstanding(s, m, p);
        assert Outstanding(s', m, p);
      }
    }
    forall m | 0 <= m < n && !s.records[m].place.GivenBack?
      ensures s.records[m].port != e.port
    {
      assert RecordFits(s, m);
    }
  }

  lemma PoolKeeps(cfg: PoolConfig, s: State, s': State)
    requires Ownership(s) && s'.pool.inUse == s.pool.inUse && s' == s.(pool := s'.pool)
    ensures Ownership(s')
  {
    forall h | HasLease(s', h) ensures HolderFits(s', h) { assert HolderFits(s, h); }
    forall m | 0 <= m < |s'.records| ensures RecordFits(s', m) { assert RecordFits(s, m); }
    forall p | p in s'.pool.inUse
      ensures exists m :: Outstanding(s', m, p)
    {
      var m :| Outstanding(s, m, p);
      assert Outstanding(s', m, p);
    }
  }

  lemma NoDupAppend(s: seq<nat>, n: nat)
    requires NoDup(s) && n !in s
    ensures NoDup(s + [n])
  {
  }

  lemma ReleaseInUse(cfg: PoolConfig, s: PoolState, port: nat, now: int)
    ensures AfterRelease(cfg, s, port, now).inUse == s.inUse - {port}
  {
  }

  lemma GiveBackKeeps(cfg: PoolConfig, s: State, a: nat, now: int)
    requires Ownership(s) && a in s.acts && s.acts[a].lease.n < |s.records|
    ensures Ownership(GiveBack(cfg, s, a, now))
  {
    var s', l := GiveBack(cfg, s, a, now), s.acts[a].lease;
    ReleaseInUse(cfg, s.pool, l.port, now);
    hide AfterRelease;
    assert HasLease(s, OfActivity(a)) && HolderFits(s, OfActivity(a));
    forall h | HasLease(s', h) ensures HolderFits(s', h) { assert HolderFits(s, h); }
    forall m | 0 <= m < |s'.records| ensures RecordFits(s', m) { assert RecordFits(s, m); }
    forall p | p in s'.pool.inUse
      ensures exists m :: Outstanding(s', m, p)
    {
      var m :| Outstanding(s, m, p);
      assert Outstanding(s', m, p);
    }
    NoDupAppend(s.releases, l.n);
  }

  lemma TakeKeeps(s: State, a: nat, slot: nat, s': State)
    requires Ownership(s) && a !in s.acts && slot in s.bound && s.bound[slot].n < |s.records|
    requires s' == s.(bound := s.bound - {slot}, acts := s.acts[a := Returning(s.bound[slot])],
                      records := Put(s, s.bound[slot].n, Held(OfActivity(a))))
    ensures Ownership(s')
  {
    assert HasLease(s, OfSlot(slot)) && HolderFits(s, OfSlot(slot));
    forall h | HasLease(s', h) ensures HolderFits(s', h) { assert h != OfActivity(a) ==> HolderFits(s, h); }
    forall m | 0 <= m < |s'.records| ensures RecordFits(s', m) { assert RecordFits(s, m); }
    forall p | p in s'.pool.inUse
      ensures exists m :: Outstanding(s', m, p)
    {
      var m :| Outstanding(s, m, p);
      assert Outstanding(s', m, p);
    }
  }

  lemma StoreKeeps(cfg: PoolConfig, s: State, a: nat, s': State)
    requires Ownership(s) && Step(cfg, s, Store(a), s')
    ensures Ownership(s')
  {
    hide PoolStep;
    var slot, l := s.acts[a].slot, s.acts[a].lease;
    assert HasLease(s, OfActivity(a)) && HolderFits(s, OfActivity(a));
    assert slot in s.bound ==> HasLease(s, OfSlot(slot)) && HolderFits(s, OfSlot(slot));
    forall h | HasLease(s', h) ensures HolderFits(s', h) { assert h != OfSlot(slot) ==> HolderFits(s, h); }
    forall m | 0 <= m < |s'.records| ensures RecordFits(s', m) { assert RecordFits(s, m); }
    forall p | p in s'.pool.inUse
      ensures exists m :: Outstanding(s', m, p)
    {
      var m :| Outstanding(s, m, p);
      assert Outstanding(s', m, p);
    }
  }

  /** The pool takes one step of its own, or none. */
  lemma PoolMoves(cfg: PoolConfig, s: State, e: Event, s': State)
    requires Partition(cfg, s.pool) && Step(cfg, s, e, s')
    ensures Partition(cfg, s'.pool)
  {
    hide Partition;
    match e
    case Acquire(a, slot, owner, now, port, pool) => StepKeeps(cfg, s.pool, Acquired(owner, now, port), pool);
    case AcquireFails(_, owner, now, pool) => StepKeeps(cfg, s.pool, Exhausted(owner, now), pool);
    case DialFails(a, now) => ReleaseKeeps(cfg, s.pool, s.acts[a].lease.port, now);
    case Store(_) =>
    case TakeBound(_, _) =>
    case Return(a, now) => ReleaseKeeps(cfg, s.pool, s.acts[a].lease.port, now);
    case Look(now, pool) => StepKeeps(cfg, s.pool, Looked(now), pool);
  }

  lemma OwnershipKept(cfg: PoolConfig, s: State, e: Event, s': State)
    requires Partition(cfg, s.pool) && Ownership(s) && Step(cfg, s, e, s')
    ensures Ownership(s') && Partition(cfg, s'.pool)
  {
    PoolMoves(cfg, s, e, s');
    hide Partition, Ownership, PoolStep;
    match e
    case Acquire(_, _, _, _, _, _) => AcquireKeeps(cfg, s, e, s');
    case AcquireFails(_, owner, now, pool) =>
      AcquireInUse(cfg, s.pool, Exhausted(owner, now), pool);
      PoolKeeps(cfg, s, s');
    case DialFails(a, now) => GiveBackKeeps(cfg, s, a, now);
    case Store(a) => StoreKeeps(cfg, s, a, s');
    case TakeBound(a, slot) => TakeKeeps(s, a, slot, s');
    case Return(a, now) => GiveBackKeeps(cfg, s, a, now);
    case Look(now, pool) =>
      LookInUse(cfg, s.pool, now, pool);
      PoolKeeps(cfg, s, s');
  }

  lemma LookInUse(cfg: PoolConfig, s: PoolState, now: int, s': PoolState)
    requires PoolStep(cfg, s, Looked(now), s')
    ensures s'.inUse == s.inUse
  {
  }

  // --- whole runs ---

  ghost predicate IsRun(cfg: PoolConfig, es: seq<Event>, ss: seq<State>) {
    Check(cfg).Fine? && |ss| == |es| + 1 && ss[0] == Begin(cfg)
    && forall n :: 0 <= n < |es| ==> Step(cfg, ss[n], es[n], ss[n + 1])
  }

  lemma {:induction false} OwnershipAlways(cfg: PoolConfig, es: seq<Event>, ss: seq<State>, n: nat)
    requires IsRun(cfg, es, ss) && n <= |es|
    ensures Partition(cfg, ss[n].pool) && Ownership(ss[n])
  {
    hide Partition, Ownership, Step;
    if n == 0 {
      InitialPartition(cfg);
      OwnershipBegins(cfg);
    } else {
      OwnershipAlways(cfg, es, ss, n - 1);
      OwnershipKept(cfg, ss[n - 1], es[n - 1], ss[n]);
    }
  }

  lemma OwnershipBegins(cfg: PoolConfig)
    requires Check(cfg).Fine?
    ensures Ownership(Begin(cfg))
  {
  }

  /** In every interleaving: a port held by a slot or by a call in progress is in use in the pool, and no other slot
      or call holds it. */
  lemma Exclusive(cfg: PoolConfig, es: seq<Event>, ss: seq<State>, n: nat, h: Holder, k: Holder)
    requires IsRun(cfg, es, ss) && n <= |es| && HasLease(ss[n], h) && HasLease(ss[n], k)
    ensures LeaseOf(ss[n], h).port in ss[n].pool.inUse
    ensures h != k ==> LeaseOf(ss[n], h).port != LeaseOf(ss[n], k).port
  {
    OwnershipAlways(cfg, es, ss, n);
    var s := ss[n];
    assert HolderFits(s, h) && HolderFits(s, k) && RecordFits(s, LeaseOf(s, h).n);
    hide Step, Partition;
  }

  /** Each acquired address is released at most once. */
  lemma ReleasedOnce(cfg: PoolConfig, es: seq<Event>, ss: seq<State>, n: nat)
    requires IsRun(cfg, es, ss) && n <= |es|
    ensures NoDup(ss[n].releases) && forall l <- ss[n].releases :: l < |ss[n].records|
  {
    OwnershipAlways(cfg, es, ss, n);
  }

  /** A release is of the releaser's own port, which is in use and which no other holder has. */
  lemma ReleasesOwn(cfg: PoolConfig, es: seq<Event>, ss: seq<State>, n: nat, h: Holder)
    requires IsRun(cfg, es, ss) && n < |es| && (es[n].DialFails? || es[n].Return?)
    requires HasLease(ss[n + 1], h)
    ensures es[n].a in ss[n].acts && ss[n].acts[es[n].a].lease.port in ss[n].pool.inUse
    ensures HasLease(ss[n], h) && LeaseOf(ss[n + 1], h) == LeaseOf(ss[n], h)
            && LeaseOf(ss[n], h).port != ss[n].acts[es[n].a].lease.port
    ensures LeaseOf(ss[n + 1], h).port in ss[n + 1].pool.inUse
  {
    assert Step(cfg, ss[n], es[n], ss[n + 1]);
    hide PoolStep, Partition, Ownership, AfterRelease;
    Exclusive(cfg, es, ss, n, OfActivity(es[n].a), h);
    Exclusive(cfg, es, ss, n + 1, h, h);
  }

  // --- leaks ---

  /** Does a slot, or a call in progress, hold the port? */
  ghost predicate HasHolder(s: State, p: nat) {
    exists h :: HasLease(s, h) && LeaseOf(s, h).port == p
  }

  /** The ports the pool has in use and nobody holds. */
  ghost function Leaked(s: State): (r: set<nat>) {
    set p | p in s.pool.inUse && !HasHolder(s, p)
  }

  /** In the history they are the acquisitions whose address was overwritten. */
  predicate LostAs(s: State, n: nat, p: nat) {
    n < |s.records| && s.records[n] == Record(p, Lost)
  }

  lemma HeldHasHolder(s: State, n: nat, p: nat)
    requires n < |s.records| && RecordFits(s, n) && s.records[n].port == p
    ensures s.records[n].place.Held? ==> HasHolder(s, p)
  {
  }

  lemma LeakedIsLost(s: State, p: nat)
    requires Ownership(s)
    ensures p in Leaked(s) <==> exists n :: LostAs(s, n, p)
  {
    if p in Leaked(s) {
      var n: nat :| Outstanding(s, n, p);
      assert RecordFits(s, n);
      HeldHasHolder(s, n, p);
      assert LostAs(s, n, p);
    }
    if n: nat :| LostAs(s, n, p) {
      assert RecordFits(s, n);
      forall h | HasLease(s, h)
        ensures LeaseOf(s, h).port != p
      {
        assert HolderFits(s, h);
      }
    }
  }

  /** A step marks an acquisition as lost exactly when it stores over its address. */
  lemma MarksLost(cfg: PoolConfig, s: State, e: Event, s': State, n: nat, p: nat)
    requires Ownership(s) && Step(cfg, s, e, s')
    ensures LostAs(s', n, p) <==>
              LostAs(s, n, p) || (Overwrites(s, e) && s.bound[s.acts[e.a].slot] == Lease(n, p))
  {
    hide PoolStep, AfterRelease;
    assert forall a <- s.acts :: HasLease(s, OfActivity(a)) && HolderFits(s, OfActivity(a));
    assert forall k <- s.bound :: HasLease(s, OfSlot(k)) && HolderFits(s, OfSlot(k));
    hide Ownership;
  }

  /** A step leaves a port in use that nobody holds exactly when it stores over an address that is still bound, and
      then it is the port of that address; no step ever takes such a port back. */
  lemma LeaksExactly(cfg: PoolConfig, s: State, e: Event, s': State)
    requires Partition(cfg, s.pool) && Ownership(s) && Step(cfg, s, e, s')
    ensures Overwrites(s, e) ==> s.bound[s.acts[e.a].slot].port !in Leaked(s)
    ensures Leaked(s') == Leaked(s) + if Overwrites(s, e) then {s.bound[s.acts[e.a].slot].port} else {}
  {
    OwnershipKept(cfg, s, e, s');
    hide Step, Partition, Ownership, Leaked;
    var l := if Overwrites(s, e) then s.bound[s.acts[e.a].slot] else Lease(0, 0);
    if Overwrites(s, e) {
      BoundNotLeaked(s, s.acts[e.a].slot);
    }
    forall p
      ensures p in Leaked(s') <==> p in Leaked(s) || (Overwrites(s, e) && p == l.port)
    {
      LeakedIsLost(s, p);
      LeakedIsLost(s', p);
      if n: nat :| LostAs(s, n, p) {
        MarksLost(cfg, s, e, s', n, p);
      }
      if n: nat :| LostAs(s', n, p) {
        MarksLost(cfg, s, e, s', n, p);
      }
      if Overwrites(s, e) && p == l.port {
        MarksLost(cfg, s, e, s', l.n, p);
        assert LostAs(s', l.n, p);
      }
    }
  }

  lemma BoundNotLeaked(s: State, slot: nat)
    requires slot in s.bound
    ensures s.bound[slot].port !in Leaked(s)
  {
    assert HasLease(s, OfSlot(slot)) && LeaseOf(s, OfSlot(slot)) == s.bound[slot];
  }

  /** Over a run a port is in use that nobody holds if and only if some store found an address bound. */
  lemma {:induction false} LeakFreeExactly(cfg: PoolConfig, es: seq<Event>, ss: seq<State>, n: nat)
    requires IsRun(cfg, es, ss) && n <= |es|
    ensures (exists p :: p in ss[n].pool.inUse && !HasHolder(ss[n], p))
            <==> exists m :: 0 <= m < n && Overwrites(ss[m], es[m])
  {
    LeakedAlways(cfg, es, ss, n);
    hide IsRun, Overwrites, HasHolder;
    if p :| p in ss[n].pool.inUse && !HasHolder(ss[n], p) {
      assert p in Leaked(ss[n]);
    }
    if Leaked(ss[n]) != {} {
      var p :| p in Leaked(ss[n]);
    }
  }

  lemma {:induction false} LeakedAlways(cfg: PoolConfig, es: seq<Event>, ss: seq<State>, n: nat)
    requires IsRun(cfg, es, ss) && n <= |es|
    ensures Leaked(ss[n]) != {} <==> exists m :: 0 <= m < n && Overwrites(ss[m], es[m])
  {
    hide Step, Overwrites, Ownership, Partition, HasHolder;
    if n == 0 {
      assert Leaked(ss[0]) == {};
    } else {
      LeakedAlways(cfg, es, ss, n - 1);
      OwnershipAlways(cfg, es, ss, n - 1);
      LeaksExactly(cfg, ss[n - 1], es[n - 1], ss[n]);
    }
  }

  // --- in terms of calls ---

  predicate StoresOn(s: State, e: Event, slot: nat) {
    e.Store? && e.a in s.acts && s.acts[e.a].Dialing? && s.acts[e.a].slot == slot
  }

  predicate ClosesOn(e: Event, slot: nat) {
    e.TakeBound? && e.slot == slot
  }

  /** The last store on the slot before step n, with no close after it. */
  ghost predicate StoredSince(es: seq<Event>, ss: seq<State>, m: nat, n: nat, slot: nat)
    requires |ss| == |es| + 1 && n <= |es|
  {
    m < n && StoresOn(ss[m], es[m], slot) && forall k :: m < k < n ==> !ClosesOn(es[k], slot)
  }

  lemma BoundAfter(cfg: PoolConfig, s: State, e: Event, s': State, slot: nat)
    requires Step(cfg, s, e, s')
    ensures slot in s'.bound <==> StoresOn(s, e, slot) || (slot in s.bound && !ClosesOn(e, slot))
  {
    hide PoolStep, AfterRelease;
  }

  /** A slot has an address bound exactly when a store on it has had no close after it. */
  lemma {:induction false} BoundExactly(cfg: PoolConfig, es: seq<Event>, ss: seq<State>, n: nat, slot: nat)
    requires IsRun(cfg, es, ss) && n <= |es|
    ensures slot in ss[n].bound <==> exists m :: StoredSince(es, ss, m, n, slot)
  {
    hide Step, StoresOn, ClosesOn;
    if n > 0 {
      var before := n - 1;
      BoundExactly(cfg, es, ss, before, slot);
      BoundAfter(cfg, ss[n - 1], es[n - 1], ss[n], slot);
      if m: nat :| StoredSince(es, ss, m, before, slot) {
        assert !ClosesOn(es[n - 1], slot) ==> StoredSince(es, ss, m, n, slot);
      }
      if m: nat :| StoredSince(es, ss, m, n, slot) {
        assert m < before ==> StoredSince(es, ss, m, before, slot) && !ClosesOn(es[n - 1], slot);
      }
      assert StoresOn(ss[n - 1], es[n - 1], slot) ==> StoredSince(es, ss, n - 1, n, slot);
    }
  }

  /** So a run leaks if and only if some slot stores twice with no close between. */
  lemma LeaksByTwoStores(cfg: PoolConfig, es: seq<Event>, ss: seq<State>, n: nat)
    requires IsRun(cfg, es, ss) && n <= |es|
    ensures Leaked(ss[n]) != {} <==> exists m, slot :: 0 <= m < n && SecondStore(es, ss, m, slot)
  {
    LeakedAlways(cfg, es, ss, n);
    hide IsRun, Leaked;
    if m: nat, slot: nat :| m < n && SecondStore(es, ss, m, slot) {
      BoundExactly(cfg, es, ss, m, slot);
      assert Overwrites(ss[m], es[m]);
    }
    if m: nat :| m < n && Overwrites(ss[m], es[m]) {
      BoundExactly(cfg, es, ss, m, ss[m].acts[es[m].a].slot);
      assert SecondStore(es, ss, m, ss[m].acts[es[m].a].slot);
    }
  }

  ghost predicate SecondStore(es: seq<Event>, ss: seq<State>, m: nat, slot: nat)
    requires |ss| == |es| + 1
  {
    m < |es| && StoresOn(ss[m], es[m], slot) && exists l :: StoredSince(es, ss, l, m, slot)
  }

  /** No two connect calls of a slot overlap, and none is entered with an address bound. */
  predicate Careful(s: State, e: Event) {
    e.Acquire? ==> e.slot !in s.bound && forall a <- s.acts :: s.acts[a].Dialing? ==> s.acts[a].slot != e.slot
  }

  /** A call in connect finds its slot without an address and without another such call. */
  predicate OneAtATime(s: State) {
    (forall a <- s.acts :: s.acts[a].Dialing? ==> s.acts[a].slot !in s.bound)
    && (forall a <- s.acts, b <- s.acts :: a != b && s.acts[a].Dialing? && s.acts[b].Dialing? ==>
          s.acts[a].slot != s.acts[b].slot)
  }

  lemma OneAtATimeKept(cfg: PoolConfig, s: State, e: Event, s': State)
    requires OneAtATime(s) && Careful(s, e) && Step(cfg, s, e, s')
    ensures OneAtATime(s') && !Overwrites(s, e)
  {
    hide PoolStep, AfterRelease;
  }

  /** If every connect is entered with no address bound and without another connect of the slot, nothing ever leaks. */
  lemma {:induction false} CarefulRunsDoNotLeak(cfg: PoolConfig, es: seq<Event>, ss: seq<State>, n: nat)
    requires IsRun(cfg, es, ss) && n <= |es| && forall m :: 0 <= m < |es| ==> Careful(ss[m], es[m])
    ensures OneAtATime(ss[n]) && Leaked(ss[n]) == {}
  {
    hide Step, Overwrites, Ownership, Careful;
    if n > 0 {
      CarefulRunsDoNotLeak(cfg, es, ss, n - 1);
      OwnershipAlways(cfg, es, ss, n - 1);
      OneAtATimeKept(cfg, ss[n - 1], es[n - 1], ss[n]);
      LeaksExactly(cfg, ss[n - 1], es[n - 1], ss[n]);
    }
  }

  /** A leaked port never comes back: it stays in use for ever and nobody holds it. */
  lemma {:induction false} LostForEver(cfg: PoolConfig, es: seq<Event>, ss: seq<State>, m: nat, n: nat)
    requires IsRun(cfg, es, ss) && m <= n <= |es|
    ensures Leaked(ss[m]) <= Leaked(ss[n])
  {
    hide Step, Partition, Overwrites, Ownership, Leaked;
    if m < n {
      LostForEver(cfg, es, ss, m, n - 1);
      OwnershipAlways(cfg, es, ss, n - 1);
      LeaksExactly(cfg, ss[n - 1], es[n - 1], ss[n]);
    }
  }

  // --- how many ports there are ---

  /** The ports in use are those of the slots, those of calls in progress and those that leaked. */
  ghost predicate Counted(s: State) {
    |s.pool.inUse| == |s.bound| + |s.acts| + |Leaked(s)|
  }

  lemma AddCount<K, V>(m: map<K, V>, k: K, v: V)
    ensures |m[k := v]| == |m| + if k in m then 0 else 1
  {
    assert m[k := v].Keys == m.Keys + {k};
  }

  lemma DropCount<K, V>(m: map<K, V>, k: K)
    ensures |m - {k}| == |m| - if k in m then 1 else 0
  {
    assert (m - {k}).Keys == m.Keys - {k};
  }

  lemma CountAcquire(cfg: PoolConfig, s: State, e: Event, s': State)
    requires Partition(cfg, s.pool) && Counted(s) && e.Acquire? && Step(cfg, s, e, s') && Leaked(s') == Leaked(s)
    ensures Counted(s')
  {
    hide PoolStep, Leaked;
    AcquireInUse(cfg, s.pool, Acquired(e.owner, e.now, e.port), e.pool);
    AddCount(s.pool.inUse, e.port, e.owner);
    AddCount(s.acts, e.a, s'.acts[e.a]);
  }

  lemma CountStore(cfg: PoolConfig, s: State, e: Event, s': State)
    requires Counted(s) && e.Store? && Step(cfg, s, e, s')
    requires |Leaked(s')| == |Leaked(s)| + if Overwrites(s, e) then 1 else 0
    ensures Counted(s')
  {
    hide Leaked;
    AddCount(s.bound, s.acts[e.a].slot, s.acts[e.a].lease);
    DropCount(s.acts, e.a);
  }

  lemma CountTake(cfg: PoolConfig, s: State, e: Event, s': State)
    requires Counted(s) && e.TakeBound? && Step(cfg, s, e, s') && Leaked(s') == Leaked(s)
    ensures Counted(s')
  {
    hide Leaked;
    DropCount(s.bound, e.slot);
    AddCount(s.acts, e.a, Returning(s.bound[e.slot]));
  }

  lemma CountGiveBack(cfg: PoolConfig, s: State, e: Event, s': State)
    requires Counted(s) && (e.DialFails? || e.Return?) && Step(cfg, s, e, s') && Leaked(s') == Leaked(s)
    requires s.acts[e.a].lease.port in s.pool.inUse
    ensures Counted(s')
  {
    hide Leaked, AfterRelease;
    ReleaseInUse(cfg, s.pool, s.acts[e.a].lease.port, e.now);
    DropCount(s.pool.inUse, s.acts[e.a].lease.port);
    DropCount(s.acts, e.a);
  }

  lemma CountElse(cfg: PoolConfig, s: State, e: Event, s': State)
    requires Partition(cfg, s.pool) && Counted(s) && (e.AcquireFails? || e.Look?) && Step(cfg, s, e, s')
    requires Leaked(s') == Leaked(s)
    ensures Counted(s')
  {
    hide PoolStep, Leaked;
    if e.Look? {
      LookInUse(cfg, s.pool, e.now, e.pool);
    } else {
      AcquireInUse(cfg, s.pool, Exhausted(e.owner, e.now), e.pool);
    }
  }

  lemma LeakedCount(cfg: PoolConfig, s: State, e: Event, s': State)
    requires Partition(cfg, s.pool) && Ownership(s) && Step(cfg, s, e, s')
    ensures !e.Store? ==> Leaked(s') == Leaked(s)
    ensures |Leaked(s')| == |Leaked(s)| + if Overwrites(s, e) then 1 else 0
  {
    hide Step, Ownership, Leaked;
    LeaksExactly(cfg, s, e, s');
  }

  lemma ReturnsInUse(cfg: PoolConfig, s: State, e: Event, s': State)
    requires Ownership(s) && (e.DialFails? || e.Return?) && Step(cfg, s, e, s')
    ensures e.a in s.acts && s.acts[e.a].lease.port in s.pool.inUse
  {
    assert HasLease(s, OfActivity(e.a)) && HolderFits(s, OfActivity(e.a)) && RecordFits(s, s.acts[e.a].lease.n);
  }

  lemma CountedKept(cfg: PoolConfig, s: State, e: Event, s': State)
    requires Partition(cfg, s.pool) && Ownership(s) && Counted(s) && Step(cfg, s, e, s')
    ensures Counted(s')
  {
    hide Ownership, Partition, Leaked, Step, Overwrites, Counted;
    LeakedCount(cfg, s, e, s');
    if e.Acquire? {
      CountAcquire(cfg, s, e, s');
    } else if e.Store? {
      CountStore(cfg, s, e, s');
    } else if e.TakeBound? {
      CountTake(cfg, s, e, s');
    } else if e.DialFails? || e.Return? {
      ReturnsInUse(cfg, s, e, s');
      CountGiveBack(cfg, s, e, s');
    } else {
      CountElse(cfg, s, e, s');
    }
  }

  lemma {:induction false} CountedAlways(cfg: PoolConfig, es: seq<Event>, ss: seq<State>, n: nat)
    requires IsRun(cfg, es, ss) && n <= |es|
    ensures |ss[n].pool.inUse| == |ss[n].bound| + |ss[n].acts| + |Leaked(ss[n])|
  {
    hide Step, Ownership, Partition;
    if n > 0 {
      CountedAlways(cfg, es, ss, n - 1);
      OwnershipAlways(cfg, es, ss, n - 1);
      CountedKept(cfg, ss[n - 1], es[n - 1], ss[n]);
    }
  }

  /** Some pool state follows an Acquire; whether a port comes with it depends only on the count. */
  lemma ExhaustedByCount(cfg: PoolConfig, s: PoolState, e: PoolEvent, s': PoolState)
    requires Check(cfg).Fine? && Partition(cfg, s) && PoolStep(cfg, s, e, s') && (e.Acquired? || e.Exhausted?)
    ensures e.Exhausted? <==> |s.inUse| + |Unexpired(s.quarantine, e.now)| == cfg.maxPort - cfg.minPort + 1
  {
    var mid :| Swept(s, e.now, mid) && Popped(mid, e, s');
    SweepKeeps(cfg, s, e.now, mid);
    FreeIsCounted(cfg, mid);
  }

  /** When a dial is refused a port: every port of the range is bound to a slot, in a call in progress, leaked, or
      still quarantined.  So with one port more than slots, as the manager demands, and at most one port a slot, a dial
      is refused only for leaks and quarantine. */
  lemma RefusedExactly(cfg: PoolConfig, es: seq<Event>, ss: seq<State>, n: nat)
    requires IsRun(cfg, es, ss) && n < |es| && (es[n].Acquire? || es[n].AcquireFails?)
    ensures var s, waiting := ss[n], |Unexpired(ss[n].pool.quarantine, es[n].now)|;
            es[n].AcquireFails? <==> |s.bound| + |s.acts| + |Leaked(s)| + waiting == cfg.maxPort - cfg.minPort + 1
  {
    OwnershipAlways(cfg, es, ss, n);
    CountedAlways(cfg, es, ss, n);
    assert Step(cfg, ss[n], es[n], ss[n + 1]);
    hide PoolStep, Ownership, Partition, Unexpired;
    match es[n]
    case Acquire(_, _, owner, now, port, pool) => ExhaustedByCount(cfg, ss[n].pool, Acquired(owner, now, port), pool);
    case AcquireFails(_, owner, now, pool) => ExhaustedByCount(cfg, ss[n].pool, Exhausted(owner, now), pool);
  }

  /** The headroom the manager checks for. */
  lemma Headroom(cfg: PoolConfig, es: seq<Event>, ss: seq<State>, n: nat, slots: nat)
    requires IsRun(cfg, es, ss) && n < |es| && (es[n].Acquire? || es[n].AcquireFails?)
    requires cfg.maxPort - cfg.minPort + 1 > slots && |ss[n].bound| + |ss[n].acts| <= slots
    requires Leaked(ss[n]) == {} && Unexpired(ss[n].pool.quarantine, es[n].now) == map[]
    ensures es[n].Acquire?
  {
    RefusedExactly(cfg, es, ss, n);
    hide IsRun;
  }
}
