/** Runs of one connection that leak a port: the reconnect loop going round again, and a loop started late. */
module Reloop {
  import opened Wrappers
  import opened PortPool
  import opened Reconnect
  import opened Lifecycle
  import Slots

  /** A run so far. */
  datatype Trace = Trace(es: seq<Lifecycle.Event>, ss: seq<Lifecycle.State>)

  /** It is a run, and each failure befalls a socket that is up. */
  ghost predicate Real(cfg: PoolConfig, r: Trace) {
    IsRun(cfg, r.es, r.ss) && forall n :: 0 <= n < |r.es| && r.es[n].a.Fail? ==> HasConn(r.ss[n])
  }

  function Last(r: Trace): (s: Lifecycle.State)
    requires r.ss != []
  {
    r.ss[|r.ss| - 1]
  }

  function Then(r: Trace, t: nat, a: Act, s: Lifecycle.State): (r': Trace) {
    Trace(r.es + [Lifecycle.Event(t, a)], r.ss + [s])
  }

  lemma OneMore(cfg: PoolConfig, r: Trace, t: nat, a: Act, s: Lifecycle.State)
    requires Real(cfg, r) && Lifecycle.Step(cfg, Last(r), t, a, s) && (a.Fail? ==> HasConn(Last(r)))
    ensures Real(cfg, Then(r, t, a, s)) && Last(Then(r, t, a, s)) == s
  {
    hide Lifecycle.Step, Check, Lifecycle.Begin;
  }

  /** A step that has nothing to do with the ports. */
  lemma Plain(cfg: PoolConfig, r: Trace, t: nat, a: Act) returns (r': Trace)
    requires Real(cfg, r) && Lifecycle.Enabled(Last(r), t, a) && PortEvent(Last(r), t, a).None?
             && (a.Fail? ==> HasConn(Last(r)))
    ensures Real(cfg, r') && Last(r') == Control(Last(r), t, a) && r'.es == r.es + [Lifecycle.Event(t, a)]
  {
    var s := Last(r);
    var s' := Control(s, t, a);
    ControlKeepsSlots(s, t, a);
    hide Control, Lifecycle.Enabled, PortEvent;
    assert Lifecycle.Step(cfg, s, t, a, s');
    OneMore(cfg, r, t, a, s');
    r' := Then(r, t, a, s');
  }

  lemma ControlKeepsSlots(s: Lifecycle.State, t: nat, a: Act)
    requires Lifecycle.Enabled(s, t, a)
    ensures Control(s, t, a).slots == s.slots
  {
    hide Next, Ends, AfterFinish, AfterSchedule, Spawns;
  }

  // --- the pool at a moment when nothing quarantined is due ---

  predicate NoneDue(p: PoolState, now: int) {
    forall q <- p.quarantine :: now < p.quarantine[q]
  }

  function TakeFirst(p: PoolState): (r: PoolState)
    requires p.free != []
  {
    p.(free := p.free[1..], inUse := p.inUse[p.free[0] := ""])
  }

  lemma TakesFirst(cfg: PoolConfig, p: PoolState, now: int)
    requires p.free != [] && NoneDue(p, now)
    ensures PoolStep(cfg, p, Acquired("", now, p.free[0]), TakeFirst(p)) && NoneDue(TakeFirst(p), now)
  {
    assert p.free[|p.free|..] == [];
    assert Unexpired(p.quarantine, now) == p.quarantine;
    assert Swept(p, now, p);
    assert Popped(p, Acquired("", now, p.free[0]), TakeFirst(p));
  }

  lemma ReleaseNotDue(cfg: PoolConfig, p: PoolState, port: nat, now: int)
    requires NoneDue(p, now)
    ensures NoneDue(AfterRelease(cfg, p, port, now), now) && |AfterRelease(cfg, p, port, now).free| >= |p.free|
  {
  }

  // --- stretches of a run ---

  /** A connect that gets as far as a socket. */
  lemma Dials(cfg: PoolConfig, r: Trace, t: nat, now: int) returns (r': Trace)
    requires Real(cfg, r) && t in Last(r).threads && Last(r).threads[t].Entering? && t !in Last(r).slots.acts
    requires NoneDue(Last(r).slots.pool, now) && Last(r).slots.pool.free != []
    ensures Real(cfg, r') && r.es <= r'.es
    ensures var s, s' := Last(r), Last(r');
            var l := Slots.Lease(|s.slots.records|, s.slots.pool.free[0]);
            s' == s.(threads := s.threads[t := Dialing(s.threads[t].c)], cs := Connecting, slots := s'.slots)
            && s'.slots == s.slots.(pool := TakeFirst(s.slots.pool), acts := s.slots.acts[t := Slots.Dialing(SLOT, l)],
                                    records := s.slots.records
                                    + [Slots.Record(l.port, Slots.Held(Slots.OfActivity(t)))])
            && NoneDue(s'.slots.pool, now)
  {
    var s := Last(r);
    var r1 := Plain(cfg, r, t, Enter);
    var s1 := Last(r1);
    assert s1 == s.(threads := s.threads[t := Acquiring(s.threads[t].c)], cs := Connecting);
    var a := Acquire(s.slots.pool.free[0], now, TakeFirst(s.slots.pool));
    TakesFirst(cfg, s.slots.pool, now);
    var s2 := GetsPort(cfg, s1, t, now);
    OneMore(cfg, r1, t, a, s2);
    r' := Then(r1, t, a, s2);
    assert s.threads[t := Acquiring(s.threads[t].c)][t := Dialing(s.threads[t].c)]
           == s.threads[t := Dialing(s.threads[t].c)];
  }

  lemma GetsPort(cfg: PoolConfig, s: Lifecycle.State, t: nat, now: int) returns (s': Lifecycle.State)
    requires t in s.threads && s.threads[t].Acquiring? && t !in s.slots.acts && s.slots.pool.free != []
    requires PoolStep(cfg, s.slots.pool, Acquired("", now, s.slots.pool.free[0]), TakeFirst(s.slots.pool))
    ensures Lifecycle.Step(cfg, s, t, Acquire(s.slots.pool.free[0], now, TakeFirst(s.slots.pool)), s')
    ensures var l := Slots.Lease(|s.slots.records|, s.slots.pool.free[0]);
            s' == s.(threads := s.threads[t := Dialing(s.threads[t].c)], slots := s'.slots)
            && s'.slots == s.slots.(pool := TakeFirst(s.slots.pool), acts := s.slots.acts[t := Slots.Dialing(SLOT, l)],
                                    records := s.slots.records
                                    + [Slots.Record(l.port, Slots.Held(Slots.OfActivity(t)))])
  {
    hide PoolStep, TakeFirst;
    var l := Slots.Lease(|s.slots.records|, s.slots.pool.free[0]);
    s' := s.(threads := s.threads[t := Dialing(s.threads[t].c)],
             slots := s.slots.(pool := TakeFirst(s.slots.pool), acts := s.slots.acts[t := Slots.Dialing(SLOT, l)],
                               records := s.slots.records + [Slots.Record(l.port, Slots.Held(Slots.OfActivity(t)))]));
  }

  /** The store, over whatever is bound. */
  lemma Stores(cfg: PoolConfig, r: Trace, t: nat) returns (r': Trace)
    requires Real(cfg, r) && t in Last(r).threads && Last(r).threads[t].Dialing? && t in Last(r).slots.acts
    requires Last(r).slots.acts[t].Dialing? && Last(r).slots.acts[t].slot == SLOT
    requires Last(r).slots.acts[t].lease.n < |Last(r).slots.records|
    ensures Real(cfg, r') && r'.es == r.es + [Lifecycle.Event(t, Store)] && r.ss <= r'.ss
    ensures var s, s' := Last(r), Last(r');
            s' == s.(threads := s.threads[t := Stored(s.threads[t].c)], stores := s.stores + 1,
                     again := false, late := false, slots := s'.slots)
            && s'.slots.bound == s.slots.bound[SLOT := s.slots.acts[t].lease] && s'.slots.acts == s.slots.acts - {t}
            && s'.slots.pool == s.slots.pool && |s'.slots.records| == |s.slots.records|
  {
    var s := Last(r);
    var l := s.slots.acts[t].lease;
    var lost := if SLOT in s.slots.bound && s.slots.bound[SLOT].n < |s.slots.records|
                then Slots.Put(s.slots, s.slots.bound[SLOT].n, Slots.Lost) else s.slots.records;
    var after := s.slots.(bound := s.slots.bound[SLOT := l], acts := s.slots.acts - {t},
                          records := lost[l.n := lost[l.n].(place := Slots.Held(Slots.OfSlot(SLOT)))]);
    assert Slots.Step(cfg, s.slots, Slots.Store(t), after);
    var s' := Control(s, t, Store).(slots := after);
    assert Lifecycle.Step(cfg, s, t, Store, s');
    OneMore(cfg, r, t, Store, s');
    r' := Then(r, t, Store, s');
  }

  /** A step that takes one goroutine on, and perhaps sets the state. */
  lemma Goes(cfg: PoolConfig, r: Trace, t: nat, a: Act, pc: Pc, cs: ConnectionState) returns (r': Trace)
    requires Real(cfg, r) && t in Last(r).threads && Fits(a, Last(r).threads[t])
    requires a.SendCER? || a.HandshakeWorks? || a.Open? || a.Notice? || a.CheckConn? || a.MarkFailed?
    requires Next(Last(r), Last(r).threads[t], a) == Some(pc)
    requires cs == if a.SendCER? then CERSent else if a.Open? then ConnectionState.Open
             else if a.MarkFailed? then Failed else Last(r).cs
    ensures Real(cfg, r') && r.es <= r'.es && Last(r') == Last(r).(threads := Last(r).threads[t := pc], cs := cs)
  {
    r' := Plain(cfg, r, t, a);
  }

  lemma Twice<K, V>(m: map<K, V>, k: K, u: V, v: V)
    ensures m[k := u][k := v] == m[k := v] && m[k := u] - {k} == m - {k}
  {
  }

  /** The handshake that works, up to the end of connect. */
  lemma OpensUp(cfg: PoolConfig, r: Trace, t: nat) returns (r': Trace)
    requires Real(cfg, r) && t in Last(r).threads && Last(r).threads[t].Stored?
    ensures Real(cfg, r') && r.es <= r'.es
    ensures var s := Last(r);
            Last(r') == s.(threads := if s.threads[t].c.Loop? then s.threads[t := Finishing] else s.threads - {t},
                           cs := ConnectionState.Open)
  {
    var s := Last(r);
    var c := s.threads[t].c;
    var r1 := Goes(cfg, r, t, SendCER, Awaiting(c), CERSent);
    var r2 := Goes(cfg, r1, t, HandshakeWorks, Opening(c), CERSent);
    Twice(s.threads, t, Awaiting(c), Opening(c));
    Twice(s.threads, t, Opening(c), Finishing);
    r' := EndsConnect(cfg, r2, t);
  }

  lemma EndsConnect(cfg: PoolConfig, r: Trace, t: nat) returns (r': Trace)
    requires Real(cfg, r) && t in Last(r).threads && Last(r).threads[t].Opening?
    ensures Real(cfg, r') && r.es <= r'.es
    ensures var s := Last(r);
            Last(r') == s.(threads := if s.threads[t].c.Loop? then s.threads[t := Finishing] else s.threads - {t},
                           cs := ConnectionState.Open)
  {
    r' := Plain(cfg, r, t, Act.Open);
  }

  /** handleFailure up to the point where it has set the state. */
  lemma GoesDown(cfg: PoolConfig, r: Trace, h: nat) returns (r': Trace)
    requires Real(cfg, r) && h in Last(r).threads && Last(r).threads[h].Noticing?
    requires HasConn(Last(r)) || (!Last(r).cs.Failed? && !Last(r).cs.Reconnecting?)
    ensures Real(cfg, r') && r.es <= r'.es
    ensures var s := Last(r); Last(r') == s.(threads := s.threads[h := Closing], cs := Failed)
  {
    var s := Last(r);
    var r1 := Goes(cfg, r, h, Notice, Checking(s.cs), s.cs);
    var r2 := Goes(cfg, r1, h, CheckConn, Marking, s.cs);
    Twice(s.threads, h, Checking(s.cs), Marking);
    r' := Goes(cfg, r2, h, MarkFailed, Closing, Failed);
    Twice(s.threads, h, Marking, Closing);
  }

  /** Its close, of a socket that is up. */
  lemma Closes(cfg: PoolConfig, r: Trace, h: nat, now: int) returns (r': Trace)
    requires Real(cfg, r) && h in Last(r).threads && Last(r).threads[h].Closing? && h !in Last(r).slots.acts
    requires HasConn(Last(r)) && Last(r).slots.bound[SLOT].n < |Last(r).slots.records|
             && NoneDue(Last(r).slots.pool, now)
    ensures Real(cfg, r') && r.es <= r'.es
    ensures var s, s' := Last(r), Last(r');
            s' == s.(threads := s.threads[h := Scheduling(s.stores)], slots := s'.slots)
            && s'.slots.bound == s.slots.bound - {SLOT} && s'.slots.acts == s.slots.acts
            && |s'.slots.records| == |s.slots.records|
            && NoneDue(s'.slots.pool, now) && |s'.slots.pool.free| >= |s.slots.pool.free|
  {
    var s := Last(r);
    var l := s.slots.bound[SLOT];
    var r1 := TakesAddress(cfg, r, h);
    ReleaseNotDue(cfg, s.slots.pool, l.port, now);
    r' := ReturnsPort(cfg, r1, h, now);
    hide Real, AfterRelease;
    Twice(s.slots.acts, h, Slots.Returning(l), Slots.Returning(l));
    assert s.slots.acts - {h} == s.slots.acts;
    Twice(s.threads, h, Lifecycle.Returning(s.stores), Scheduling(s.stores));
  }

  lemma TakesAddress(cfg: PoolConfig, r: Trace, h: nat) returns (r': Trace)
    requires Real(cfg, r) && h in Last(r).threads && Last(r).threads[h].Closing? && h !in Last(r).slots.acts
    requires HasConn(Last(r)) && Last(r).slots.bound[SLOT].n < |Last(r).slots.records|
    ensures Real(cfg, r') && r.es <= r'.es
    ensures var s, s' := Last(r), Last(r');
            var l := s.slots.bound[SLOT];
            s' == s.(threads := s.threads[h := Lifecycle.Returning(s.stores)], slots := s'.slots)
            && s'.slots == s.slots.(bound := s.slots.bound - {SLOT}, acts := s.slots.acts[h := Slots.Returning(l)],
                                    records := Slots.Put(s.slots, l.n, Slots.Held(Slots.OfActivity(h))))
  {
    var s := Last(r);
    var l := s.slots.bound[SLOT];
    var taken := s.slots.(bound := s.slots.bound - {SLOT}, acts := s.slots.acts[h := Slots.Returning(l)],
                          records := Slots.Put(s.slots, l.n, Slots.Held(Slots.OfActivity(h))));
    assert Slots.Step(cfg, s.slots, Slots.TakeBound(h, SLOT), taken);
    var s1 := s.(threads := s.threads[h := Lifecycle.Returning(s.stores)], slots := taken);
    hide Slots.Step;
    assert Lifecycle.Step(cfg, s, h, Take, s1);
    OneMore(cfg, r, h, Take, s1);
    r' := Then(r, h, Take, s1);
  }

  lemma ReturnsPort(cfg: PoolConfig, r: Trace, h: nat, now: int) returns (r': Trace)
    requires Real(cfg, r) && h in Last(r).threads && Last(r).threads[h].Returning? && h in Last(r).slots.acts
    requires Last(r).slots.acts[h].Returning? && Last(r).slots.acts[h].lease.n < |Last(r).slots.records|
    ensures Real(cfg, r') && r.es <= r'.es
    ensures var s, s' := Last(r), Last(r');
            s' == s.(threads := s.threads[h := Scheduling(s.threads[h].closedAt)], slots := s'.slots)
            && s'.slots == Slots.GiveBack(cfg, s.slots, h, now)
  {
    var s := Last(r);
    var back := Slots.GiveBack(cfg, s.slots, h, now);
    assert Slots.Step(cfg, s.slots, Slots.Return(h, now), back);
    var s2 := s.(threads := s.threads[h := Scheduling(s.threads[h].closedAt)], slots := back);
    hide Slots.Step, AfterRelease, Slots.GiveBack;
    assert Lifecycle.Step(cfg, s, h, Lifecycle.Return(now), s2);
    OneMore(cfg, r, h, Lifecycle.Return(now), s2);
    r' := Then(r, h, Lifecycle.Return(now), s2);
  }

  // --- the runs ---

  /** Nobody has a port in hand, nothing quarantined is due and there are k ports to take. */
  predicate Calm(s: Lifecycle.State, now: int, k: nat) {
    s.slots.acts == map[] && NoneDue(s.slots.pool, now) && |s.slots.pool.free| >= k
    && (HasConn(s) ==> s.slots.bound[SLOT].n < |s.slots.records|)
  }

  /** A whole connect up to the store. */
  lemma Connects(cfg: PoolConfig, r: Trace, t: nat, now: int, k: nat) returns (before: Trace, r': Trace)
    requires Real(cfg, r) && t in Last(r).threads && Last(r).threads[t].Entering? && Calm(Last(r), now, k + 1)
    ensures Real(cfg, before) && Real(cfg, r') && r'.es == before.es + [Lifecycle.Event(t, Store)]
    ensures r'.ss[..|before.ss|] == before.ss
    ensures var s, s' := Last(r), Last(r');
            s' == s.(threads := s.threads[t := Stored(s.threads[t].c)], cs := Connecting, stores := s.stores + 1,
                     again := false, late := false, slots := s'.slots)
            && Calm(s', now, k) && HasConn(s')
    ensures var s, b := Last(r), Last(before);
            HasConn(b) == HasConn(s) && b.again == s.again && b.late == s.late
            && t in b.threads && b.threads[t] == Dialing(s.threads[t].c)
  {
    var s := Last(r);
    before := Dials(cfg, r, t, now);
    r' := Stores(cfg, before, t);
    hide Real;
    assert s.threads[t := Dialing(s.threads[t].c)][t := Stored(s.threads[t].c)]
           == s.threads[t := Stored(s.threads[t].c)];
    assert Last(r').slots.acts == map[];
  }

  /** Start, up to an open connection. */
  lemma Starts(cfg: PoolConfig, now: int) returns (r: Trace)
    requires Check(cfg).Fine? && cfg.minPort + 1 < cfg.maxPort
    ensures Real(cfg, r) && Calm(Last(r), now, 2) && HasConn(Last(r))
    ensures var s := Last(r);
            s.threads == map[] && s.cs == ConnectionState.Open && s.flags == Flags(false, false) && s.stores == 1
            && !s.late
  {
    var r0 := Trace([], [Lifecycle.Begin(cfg)]);
    var r1 := Plain(cfg, r0, 0, StartCalled);
    assert Last(r1) == Last(r0).(threads := map[0 := Entering(Starter)], started := true);
    var before, r2 := Connects(cfg, r1, 0, now, 2);
    r := OpensUp(cfg, r2, 0);
  }

  /** A failure: handleFailure closes and starts the loop. */
  lemma Fails(cfg: PoolConfig, r: Trace, h: nat, now: int, k: nat) returns (r': Trace)
    requires Real(cfg, r) && h in Last(r).threads && Last(r).threads[h].Noticing? && HasConn(Last(r))
             && Calm(Last(r), now, k)
    ensures Real(cfg, r')
    ensures var s, s' := Last(r), Last(r');
            s' == s.(threads := s.threads[h := Scheduling(s.stores)], cs := Failed, slots := s'.slots)
            && Calm(s', now, k) && !HasConn(s')
  {
    var s := Last(r);
    var r1 := GoesDown(cfg, r, h);
    r' := Closes(cfg, r1, h, now);
    hide Real;
    assert s.threads[h := Closing][h := Scheduling(s.stores)] == s.threads[h := Scheduling(s.stores)];
  }

  lemma Begins(cfg: PoolConfig, r: Trace, t: nat) returns (r': Trace)
    requires Real(cfg, r) && t in Last(r).threads && Last(r).threads[t].Delaying?
    ensures Real(cfg, r') && Last(r') == Last(r).(threads := Last(r).threads[t := Entering(Loop)], cs := Reconnecting)
  {
    r' := Plain(cfg, r, t, BeginAttempt);
  }

  /** What a run that ends in a leaking store shows. */
  ghost predicate EndsInLeak(cfg: PoolConfig, r: Trace) {
    Real(cfg, r) && r.es != []
    && var n := |r.es| - 1;
       r.es[n].a.Store? && HasConn(r.ss[n]) && Slots.Leaked(Last(r).slots) != {}
  }

  lemma StoreLeaks(cfg: PoolConfig, before: Trace, r: Trace, t: nat)
    requires Real(cfg, before) && Real(cfg, r) && r.es == before.es + [Lifecycle.Event(t, Store)]
    requires r.ss[..|before.ss|] == before.ss && HasConn(Last(before))
    ensures EndsInLeak(cfg, r)
  {
    var n := |r.es| - 1;
    assert r.ss[n] == r.ss[..|before.ss|][n] == Last(before);
    assert r.es[n].a.Store? && HasConn(r.ss[n]);
    Lifecycle.LeaksExactly(cfg, r.es, r.ss, |r.es|);
  }

  /** The connection is up, and a failure has closed it and started loop 2; another one, 3, may be about to be
      handled. */
  lemma LoopStarted(cfg: PoolConfig, now: int, another: bool) returns (r: Trace)
    requires Check(cfg).Fine? && cfg.minPort + 1 < cfg.maxPort
    ensures Real(cfg, r) && Calm(Last(r), now, 2) && !HasConn(Last(r))
    ensures var s := Last(r);
            s.threads == (if another then map[2 := Delaying, 3 := Noticing] else map[2 := Delaying])
            && s.flags == Flags(true, false) && s.stores == 1 && !s.late
  {
    hide Real, Calm, Lifecycle.Begin;
    var r0 := Starts(cfg, now);
    var r1 := Befalls(cfg, r0, 1, now, 2);
    var r2 := r1;
    if another {
      r2 := Befalls(cfg, r1, 3, now, 2);
    }
    var r3 := Fails(cfg, r2, 1, now, 2);
    r := Spawns2(cfg, r3, now, another);
  }

  lemma Befalls(cfg: PoolConfig, r: Trace, h: nat, now: int, k: nat) returns (r': Trace)
    requires Real(cfg, r) && h !in Last(r).threads && Last(r).stores > 0 && HasConn(Last(r)) && Calm(Last(r), now, k)
    ensures Real(cfg, r') && Last(r') == Last(r).(threads := Last(r).threads[h := Noticing]) && Calm(Last(r'), now, k)
    ensures HasConn(Last(r'))
  {
    r' := Plain(cfg, r, h, Act.Fail);
  }

  lemma Spawns2(cfg: PoolConfig, r: Trace, now: int, another: bool) returns (r': Trace)
    requires Real(cfg, r) && Calm(Last(r), now, 2) && !HasConn(Last(r)) && Last(r).flags == Flags(false, false)
    requires Last(r).stores == 1 && !Last(r).late
    requires Last(r).threads == if another then map[1 := Scheduling(1), 3 := Noticing] else map[1 := Scheduling(1)]
    ensures Real(cfg, r') && Calm(Last(r'), now, 2) && !HasConn(Last(r'))
    ensures var s := Last(r');
            s.threads == (if another then map[2 := Delaying, 3 := Noticing] else map[2 := Delaying])
            && s.flags == Flags(true, false) && s.stores == 1 && !s.late
  {
    r' := Plain(cfg, r, 1, Act.Schedule(2));
  }

  /** Loop 2 connects, up to the end of connect. */
  lemma Reconnects(cfg: PoolConfig, r: Trace, now: int, k: nat) returns (r': Trace)
    requires Real(cfg, r) && 2 in Last(r).threads && Last(r).threads[2].Delaying? && Calm(Last(r), now, k + 1)
    ensures Real(cfg, r') && Calm(Last(r'), now, k) && HasConn(Last(r'))
    ensures var s, s' := Last(r), Last(r');
            s' == s.(threads := s.threads[2 := Finishing], cs := ConnectionState.Open, stores := s.stores + 1,
                     again := false, late := false, slots := s'.slots)
  {
    var s := Last(r);
    hide Real;
    var r1 := Begins(cfg, r, 2);
    var before, r2 := Connects(cfg, r1, 2, now, k);
    r' := OpensUp(cfg, r2, 2);
    assert s.threads[2 := Entering(Loop)][2 := Stored(Loop)][2 := Finishing] == s.threads[2 := Finishing];
  }

  /** A loop connects over an address that is still bound. */
  lemma ConnectsOver(cfg: PoolConfig, r: Trace, t: nat, now: int) returns (r': Trace)
    requires Real(cfg, r) && t in Last(r).threads && Last(r).threads[t].Delaying? && Calm(Last(r), now, 1)
    requires HasConn(Last(r))
    ensures EndsInLeak(cfg, r') && |r'.es| < |r'.ss|
    ensures var s := r'.ss[|r'.es| - 1]; s.again == Last(r).again && s.late == Last(r).late
  {
    var r1 := Begins(cfg, r, t);
    StillCalm(Last(r), Last(r1), now, 1);
    hide Real, Calm;
    var before: Trace;
    before, r' := Connects(cfg, r1, t, now, 0);
    StoreLeaks(cfg, before, r', t);
    Lengths(cfg, before, r', t);
  }

  lemma StillCalm(s: Lifecycle.State, s': Lifecycle.State, now: int, k: nat)
    requires Calm(s, now, k) && s'.slots == s.slots
    ensures Calm(s', now, k)
  {
  }

  lemma Lengths(cfg: PoolConfig, before: Trace, r: Trace, t: nat)
    requires Real(cfg, before) && Real(cfg, r) && r.es == before.es + [Lifecycle.Event(t, Store)]
    requires r.ss[..|before.ss|] == before.ss
    ensures |r.es| < |r.ss| && |r.es| > 0 && r.ss[|r.es| - 1] == Last(before)
  {
    assert r.ss[|r.es| - 1] == r.ss[..|before.ss|][|r.es| - 1];
  }

  /** The loop goes round again: a failure of the connection it has just made has set the state but not closed yet when
      finishReconnect looks, so that returns false, and the next connect stores over the address of the first.  With
      any pool of three ports or more there is such a run, and its last store leaks for no other reason. */
  lemma ReloopLeaks(cfg: PoolConfig, now: int) returns (r: Trace)
    requires Check(cfg).Fine? && cfg.minPort + 1 < cfg.maxPort
    ensures EndsInLeak(cfg, r)
    ensures var n := |r.es| - 1;
            (exists k :: ReturnsFalse(r.es, r.ss, k, n)) && !exists k :: StartsLate(r.es, r.ss, k, n)
  {
    hide Real, Calm, EndsInLeak, ReturnsFalse, StartsLate;
    var r1 := LoopStarted(cfg, now, false);
    var r2 := Reconnects(cfg, r1, now, 1);
    var r3 := Befalls(cfg, r2, 3, now, 1);
    var r4 := GoesDown(cfg, r3, 3);
    var r5 := FinishesFalse(cfg, r4, now);
    r := ConnectsOver(cfg, r5, 2, now);
    History(cfg, r);
  }

  lemma FinishesFalse(cfg: PoolConfig, r: Trace, now: int) returns (r': Trace)
    requires Real(cfg, r) && HasConn(Last(r)) && Last(r).slots.acts == map[]
    requires NoneDue(Last(r).slots.pool, now) && |Last(r).slots.pool.free| >= 1
    requires Last(r).slots.bound[SLOT].n < |Last(r).slots.records|
    requires Last(r).threads == map[2 := Finishing, 3 := Closing] && Last(r).cs == Failed
    ensures Real(cfg, r') && Calm(Last(r'), now, 1) && HasConn(Last(r'))
    ensures var s, s' := Last(r), Last(r');
            s'.threads == map[2 := Delaying, 3 := Closing] && s'.again && s'.late == s.late
  {
    r' := Plain(cfg, r, 2, Act.Finish);
  }

  lemma History(cfg: PoolConfig, r: Trace)
    requires EndsInLeak(cfg, r)
    ensures |r.ss| == |r.es| + 1 && r.es != []
    ensures var n := |r.es| - 1;
            (r.ss[n].again <==> exists k :: ReturnsFalse(r.es, r.ss, k, n))
            && (r.ss[n].late <==> exists k :: StartsLate(r.es, r.ss, k, n))
  {
    HistoryMeans(cfg, r.es, r.ss, |r.es| - 1);
  }

  /** The other reason: a second failure of the old socket is handled while the loop dials.  It finds nothing to close,
      the loop connects, finds the state active and ends, and only then a second loop is started, over the connection
      that is up.  No finishReconnect has returned false. */
  lemma LateLoopLeaks(cfg: PoolConfig, now: int) returns (r: Trace)
    requires Check(cfg).Fine? && cfg.minPort + 1 < cfg.maxPort
    ensures EndsInLeak(cfg, r)
    ensures var n := |r.es| - 1;
            (exists k :: StartsLate(r.es, r.ss, k, n)) && !exists k :: ReturnsFalse(r.es, r.ss, k, n)
  {
    hide Real, Calm, EndsInLeak, ReturnsFalse, StartsLate;
    var r1 := LoopStarted(cfg, now, true);
    var r2 := DialsMeanwhile(cfg, r1, now);
    var r3 := Stores(cfg, r2, 2);
    var r4 := OpensUp(cfg, r3, 2);
    var r5 := FinishesTrue(cfg, r4, now);
    r := ConnectsOver(cfg, r5, 4, now);
    History(cfg, r);
  }

  lemma DialsMeanwhile(cfg: PoolConfig, r: Trace, now: int) returns (r': Trace)
    requires Real(cfg, r) && Calm(Last(r), now, 2) && !HasConn(Last(r)) && Last(r).flags == Flags(true, false)
    requires Last(r).threads == map[2 := Delaying, 3 := Noticing] && Last(r).stores == 1
    ensures Real(cfg, r')
    ensures var s := Last(r');
            s.threads == map[2 := Dialing(Loop), 3 := Scheduling(1)] && s.flags == Flags(true, false) && s.stores == 1
            && s.slots.acts.Keys == {2} && s.slots.acts[2].Dialing? && s.slots.acts[2].slot == SLOT
            && s.slots.acts[2].lease.n < |s.slots.records| && NoneDue(s.slots.pool, now) && |s.slots.pool.free| >= 1
  {
    hide Real;
    var r1 := Begins(cfg, r, 2);
    var r2 := Dials(cfg, r1, 2, now);
    var r3 := GoesDown(cfg, r2, 3);
    r' := TakesNothing(cfg, r3);
  }

  lemma TakesNothing(cfg: PoolConfig, r: Trace) returns (r': Trace)
    requires Real(cfg, r) && !HasConn(Last(r)) && 3 in Last(r).threads && Last(r).threads[3].Closing?
    ensures Real(cfg, r') && Last(r') == Last(r).(threads := Last(r).threads[3 := Scheduling(Last(r).stores)])
  {
    r' := Plain(cfg, r, 3, Take);
  }

  lemma FinishesTrue(cfg: PoolConfig, r: Trace, now: int) returns (r': Trace)
    requires Real(cfg, r) && HasConn(Last(r)) && Last(r).slots.acts == map[]
    requires NoneDue(Last(r).slots.pool, now) && |Last(r).slots.pool.free| >= 1
    requires Last(r).slots.bound[SLOT].n < |Last(r).slots.records|
    requires Last(r).threads == map[2 := Finishing, 3 := Scheduling(1)] && Last(r).cs == ConnectionState.Open
    requires Last(r).flags == Flags(true, false) && Last(r).stores == 2
    ensures Real(cfg, r') && Calm(Last(r'), now, 1) && HasConn(Last(r'))
    ensures var s, s' := Last(r), Last(r');
            s'.threads == map[4 := Delaying] && s'.late && s'.again == s.again
  {
    var r1 := Plain(cfg, r, 2, Act.Finish);
    assert Last(r1).threads == map[3 := Scheduling(1)];
    r' := Plain(cfg, r1, 3, Act.Schedule(4));
  }
}
