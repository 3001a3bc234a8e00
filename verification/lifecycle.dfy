/** One connection and the port it holds, step by step: Start, the reconnect loop and any number of calls of
    handleFailure, none of which waits for another.  Before Close, and before the context is cancelled.

    Outside Start, handleFailure is called only for a socket that has been stored: by the read loop of a socket, by the
    write loop after a write to one, and by the watchdog and the health check, which look at a state that only an open
    connection reaches. */
module Lifecycle {
  import opened Wrappers
  import opened PortPool
  import opened Reconnect
  import Slots

  /** The one slot of the connection. */
  const SLOT: nat := 0

  /** Who has called connect. */
  datatype Caller = Starter | Loop

  /** What a goroutine does next. */
  datatype Pc =
    // in connect
    | Entering(c: Caller)
    | Acquiring(c: Caller)
    | Dialing(c: Caller)
    | Stored(c: Caller)
    | Awaiting(c: Caller)
    | Opening(c: Caller)
    | Undoing(c: Caller)
    | UndoReturning(c: Caller)
    | Undone(c: Caller)
    // in the loop, outside connect
    | Delaying
    | Finishing
    // in handleFailure; closedAt is the number of stores there had been when it closed
    | Noticing
    | Checking(seen: ConnectionState)
    | Marking
    | Closing
    | Returning(closedAt: nat)
    | Scheduling(closedAt: nat)
  {
    predicate InConnect() {
      Entering? || Acquiring? || Dialing? || Stored? || Awaiting? || Opening? || Undoing? || UndoReturning? || Undone?
    }

    /** Is this the reconnect loop? */
    predicate IsLoop() {
      Delaying? || Finishing? || (InConnect() && c == Loop)
    }

    /** Is this Start, with its store ahead of it? */
    predicate StartConnects() {
      (Entering? || Acquiring? || Dialing?) && c == Starter
    }

    /** Is this the loop, with nothing of its own stored and a store ahead of it? */
    predicate WillStore() {
      IsLoop() && !Stored? && !Awaiting? && !Opening? && !Undoing? && !Finishing?
    }
  }

  /** slots holds the pool, the bound address and the ports in local variables; conn is nil exactly when no address is
      bound.  The history: how many stores there were, and whether since the last one a finishReconnect returned false
      (again), or a loop was started by a handleFailure that had closed before that store (late). */
  datatype State = State(
    slots: Slots.State,
    threads: map<nat, Pc>,
    cs: ConnectionState,
    flags: Flags,
    started: bool,
    stores: nat,
    again: bool,
    late: bool)

  datatype Act =
    | StartCalled
    | Fail
    | Watch(sent: bool)
    | Enter
    | Acquire(port: nat, now: int, pool: PoolState)
    | AcquireFails(now: int, pool: PoolState)
    | DialFails(now: int)
    | Store
    | SendCER
    | HandshakeWorks
    | HandshakeFails
    | Open
    | Take
    | Return(now: int)
    | MarkFailed
    | BeginAttempt
    | Finish
    | Notice
    | CheckConn
    | Schedule(l: nat)

  function Begin(cfg: PoolConfig): (s: State)
    requires Check(cfg).Fine?
  {
    State.State(Slots.Begin(cfg), map[], Disconnected, Flags(false, false), false, 0, false, false)
  }

  predicate HasConn(s: State) {
    SLOT in s.slots.bound
  }

  // --- the steps ---

  /** May a goroutine that is at pc do this? */
  predicate Fits(a: Act, pc: Pc) {
    match a
    case StartCalled => false
    case Fail => false
    case Watch(_) => false
    case Enter => pc.Entering?
    case Acquire(_, _, _) => pc.Acquiring?
    case AcquireFails(_, _) => pc.Acquiring?
    case DialFails(_) => pc.Dialing?
    case Store => pc.Dialing?
    case SendCER => pc.Stored?
    case HandshakeWorks => pc.Awaiting?
    case HandshakeFails => pc.Stored? || pc.Awaiting?
    case Open => pc.Opening?
    case Take => pc.Undoing? || pc.Closing?
    case Return(_) => pc.UndoReturning? || pc.Returning?
    case MarkFailed => pc.Undone? || pc.Marking?
    case BeginAttempt => pc.Delaying?
    case Finish => pc.Finishing?
    case Notice => pc.Noticing?
    case CheckConn => pc.Checking?
    case Schedule(_) => pc.Scheduling?
  }

  /** Watch is the watchdog, setting the state when it has sent a request or read an answer. */
  predicate Enabled(s: State, t: nat, a: Act) {
    match a
    case StartCalled => !s.started && t !in s.threads
    case Fail => t !in s.threads && s.stores > 0
    case Watch(_) => s.stores > 0
    case Schedule(l) => t in s.threads && Fits(a, s.threads[t]) && l !in s.threads
    case _ => t in s.threads && Fits(a, s.threads[t])
  }

  function Go(s: State, t: nat, pc: Pc): (r: State) {
    s.(threads := s.threads[t := pc])
  }

  function Quit(s: State, t: nat): (r: State) {
    s.(threads := s.threads - {t})
  }

  /** The control flow: where the goroutine at pc is after the step, or that it has ended. */
  function Next(s: State, pc: Pc, a: Act): (r: Option<Pc>)
    requires Fits(a, pc)
  {
    match a
    case Enter => Some(Acquiring(pc.c))
    case Acquire(_, _, _) => Some(Dialing(pc.c))
    case AcquireFails(_, _) => Some(Undone(pc.c))
    case DialFails(_) => Some(Undone(pc.c))
    case Store => Some(Stored(pc.c))
    case SendCER => Some(Awaiting(pc.c))
    case HandshakeWorks => Some(Opening(pc.c))
    case HandshakeFails => Some(Undoing(pc.c))
    case Open => if pc.c.Loop? then Some(Finishing) else None
    case Take =>
      Some(match pc
           case Undoing(c) => if HasConn(s) then UndoReturning(c) else Undone(c)
           case _ => if HasConn(s) then Returning(s.stores) else Scheduling(s.stores))
    case Return(_) =>
      Some(match pc
           case UndoReturning(c) => Undone(c)
           case _ => Scheduling(pc.closedAt))
    case MarkFailed =>
      Some(match pc
           case Undone(c) => if c.Loop? then Delaying else Noticing
           case _ => Closing)
    case BeginAttempt => Some(Entering(Loop))
    case Finish => if Ends(s.flags, true, s.cs.IsActive()) then None else Some(Delaying)
    case Notice => Some(Checking(s.cs))
    case CheckConn => if !HasConn(s) && (pc.seen.Failed? || pc.seen.Reconnecting?) then None else Some(Marking)
    case _ => None
  }

  /** What else changes when the goroutine at pc has moved on. */
  function Effects(s: State, pc: Pc, a: Act, moved: State): (r: State)
    requires Fits(a, pc)
  {
    match a
    case Enter => moved.(cs := Connecting)
    case Store => moved.(stores := s.stores + 1, again := false, late := false)
    case SendCER => moved.(cs := CERSent)
    case Open => moved.(cs := ConnectionState.Open)
    case MarkFailed => moved.(cs := Failed)
    case BeginAttempt => moved.(cs := Reconnecting)
    case Finish =>
      moved.(flags := AfterFinish(s.flags, true, s.cs.IsActive()),
             again := s.again || !Ends(s.flags, true, s.cs.IsActive()))
    case Schedule(l) =>
      if Spawns(s.flags) then
        Go(moved, l, Delaying).(flags := AfterSchedule(s.flags), late := s.late || pc.closedAt < s.stores)
      else
        moved.(flags := AfterSchedule(s.flags))
    case _ => moved
  }

  /** Everything but the port: the control flow, and with it the state, the flags and the history. */
  function Control(s: State, t: nat, a: Act): (r: State)
    requires Enabled(s, t, a)
  {
    if a.StartCalled? then Go(s, t, Entering(Starter)).(started := true)
    else if a.Fail? then Go(s, t, Noticing)
    else if a.Watch? then s.(cs := if a.sent then DWRSent else ConnectionState.Open)
    else
      var pc := s.threads[t];
      var next := Next(s, pc, a);
      Effects(s, pc, a, if next.Some? then Go(s, t, next.value) else Quit(s, t))
  }

  /** The step of the system of all slots that it is, if it has to do with a port. */
  function PortEvent(s: State, t: nat, a: Act): (e: Option<Slots.Event>) {
    match a
    case Acquire(port, now, pool) => Some(Slots.Acquire(t, SLOT, "", now, port, pool))
    case AcquireFails(now, pool) => Some(Slots.AcquireFails(SLOT, "", now, pool))
    case DialFails(now) => Some(Slots.DialFails(t, now))
    case Store => Some(Slots.Store(t))
    case Take => if HasConn(s) then Some(Slots.TakeBound(t, SLOT)) else None
    case Return(now) => Some(Slots.Return(t, now))
    case _ => None
  }

  ghost predicate PortPart(cfg: PoolConfig, s: State, e: Option<Slots.Event>, after: Slots.State) {
    if e.None? then after == s.slots else Slots.Step(cfg, s.slots, e.value, after)
  }

  ghost predicate Step(cfg: PoolConfig, s: State, t: nat, a: Act, s': State) {
    Enabled(s, t, a) && PortPart(cfg, s, PortEvent(s, t, a), s'.slots) && s' == Control(s, t, a).(slots := s'.slots)
  }

  datatype Event = Event(t: nat, a: Act)

  ghost predicate IsRun(cfg: PoolConfig, es: seq<Event>, ss: seq<State>) {
    Check(cfg).Fine? && |ss| == |es| + 1 && ss[0] == Begin(cfg)
    && forall n :: 0 <= n < |es| ==> Step(cfg, ss[n], es[n].t, es[n].a, ss[n + 1])
  }

  // --- what every run keeps ---

  /** The ports of the connection are all of its one slot. */
  predicate OneSlot(s: State) {
    forall a <- s.slots.acts :: s.slots.acts[a].Dialing? ==> s.slots.acts[a].slot == SLOT
  }

  /** The ownership of ports is that of the system of all slots. */
  lemma PortsKept(cfg: PoolConfig, s: State, t: nat, a: Act, s': State)
    requires Partition(cfg, s.slots.pool) && Slots.Ownership(s.slots) && OneSlot(s) && Step(cfg, s, t, a, s')
    ensures Partition(cfg, s'.slots.pool) && Slots.Ownership(s'.slots) && OneSlot(s')
    ensures HasConn(s') <==> a.Store? || (HasConn(s) && !a.Take?)
    ensures Slots.Leaked(s'.slots)
            == Slots.Leaked(s.slots) + if a.Store? && HasConn(s) then {s.slots.bound[SLOT].port} else {}
  {
    hide Partition, Slots.Ownership, Slots.Step, Slots.Leaked, Control, Enabled;
    var e := PortEvent(s, t, a);
    if e.Some? {
      Slots.OwnershipKept(cfg, s.slots, e.value, s'.slots);
      Slots.LeaksExactly(cfg, s.slots, e.value, s'.slots);
      Slots.BoundAfter(cfg, s.slots, e.value, s'.slots, SLOT);
      OneSlotKept(cfg, s, e.value, s');
      StoresHere(cfg, s, t, a, s');
    }
  }

  lemma OneSlotKept(cfg: PoolConfig, s: State, e: Slots.Event, s': State)
    requires OneSlot(s) && Slots.Step(cfg, s.slots, e, s'.slots) && (e.Acquire? ==> e.slot == SLOT)
    ensures OneSlot(s')
  {
    hide PoolStep, AfterRelease;
  }

  lemma StoresHere(cfg: PoolConfig, s: State, t: nat, a: Act, s': State)
    requires OneSlot(s) && PortPart(cfg, s, PortEvent(s, t, a), s'.slots) && PortEvent(s, t, a).Some?
    ensures var e := PortEvent(s, t, a).value;
            (Slots.Overwrites(s.slots, e) <==> a.Store? && HasConn(s))
            && (a.Store? ==> t in s.slots.acts && s.slots.acts[t].slot == SLOT)
            && (Slots.StoresOn(s.slots, e, SLOT) <==> a.Store?)
            && (Slots.ClosesOn(e, SLOT) <==> a.Take?)
  {
    hide PoolStep, AfterRelease;
  }

  lemma {:induction false} PortsAlways(cfg: PoolConfig, es: seq<Event>, ss: seq<State>, n: nat)
    requires IsRun(cfg, es, ss) && n <= |es|
    ensures Partition(cfg, ss[n].slots.pool) && Slots.Ownership(ss[n].slots) && OneSlot(ss[n])
  {
    hide Partition, Slots.Ownership, Step;
    if n == 0 {
      InitialPartition(cfg);
      Slots.OwnershipBegins(cfg);
    } else {
      PortsAlways(cfg, es, ss, n - 1);
      PortsKept(cfg, ss[n - 1], es[n - 1].t, es[n - 1].a, ss[n]);
    }
  }

  /** A run leaves a port in use that nobody holds if and only if some store of it found an address bound. */
  lemma {:induction false} LeaksExactly(cfg: PoolConfig, es: seq<Event>, ss: seq<State>, n: nat)
    requires IsRun(cfg, es, ss) && n <= |es|
    ensures Slots.Leaked(ss[n].slots) != {} <==> exists m :: 0 <= m < n && es[m].a.Store? && HasConn(ss[m])
  {
    hide Partition, Slots.Ownership, Step, Slots.HasHolder;
    if n == 0 {
      assert Slots.Leaked(ss[0].slots) == {};
    } else {
      LeaksExactly(cfg, es, ss, n - 1);
      PortsAlways(cfg, es, ss, n - 1);
      PortsKept(cfg, ss[n - 1], es[n - 1].t, es[n - 1].a, ss[n]);
    }
  }

  // --- the loop ---

  predicate LoopAt(s: State, t: nat) {
    t in s.threads && s.threads[t].IsLoop()
  }

  /** There is one loop exactly while the flag is set. */
  ghost predicate LoopFits(s: State) {
    && (forall t, u :: LoopAt(s, t) && LoopAt(s, u) ==> t == u)
    && (s.flags.reconnecting <==> exists t :: LoopAt(s, t))
  }

  /** Does the step end the loop? */
  predicate EndsLoop(s: State, a: Act) {
    a.Finish? && Ends(s.flags, true, s.cs.IsActive())
  }

  lemma NextLoops(s: State, pc: Pc, a: Act)
    requires Fits(a, pc)
    ensures var r := Next(s, pc, a);
            if r.Some? then r.value.IsLoop() == pc.IsLoop() else pc.IsLoop() == (a.Finish? && EndsLoop(s, a))
    ensures EndsLoop(s, a) ==> Next(s, pc, a).None?
  {
    hide AfterFinish, HasConn;
  }

  /** The goroutines after a step: one has moved on or ended, and one may have been started. */
  lemma ThreadsAfter(s: State, t: nat, a: Act)
    requires Enabled(s, t, a)
    ensures var r := Control(s, t, a).threads;
            if a.StartCalled? then r == s.threads[t := Entering(Starter)]
            else if a.Fail? then r == s.threads[t := Noticing]
            else if a.Watch? then r == s.threads
            else
              t in s.threads && Fits(a, s.threads[t])
              && var next := Next(s, s.threads[t], a);
                 var moved := if next.Some? then s.threads[t := next.value] else s.threads - {t};
                 r == if a.Schedule? && Spawns(s.flags) then moved[a.l := Delaying] else moved
  {
    hide Next, Fits, AfterFinish, AfterSchedule, Ends;
  }

  /** Loops come from scheduleReconnect and end in finishReconnect. */
  lemma LoopsAfter(s: State, t: nat, a: Act, u: nat)
    requires Enabled(s, t, a)
    ensures LoopAt(Control(s, t, a), u) <==>
              (LoopAt(s, u) && !(u == t && EndsLoop(s, a))) || (a.Schedule? && Spawns(s.flags) && u == a.l)
  {
    EnabledFresh(s, t, a);
    hide Control, Next, Fits, Enabled, EndsLoop, Spawns;
    ThreadsAfter(s, t, a);
    if !a.StartCalled? && !a.Fail? && !a.Watch? {
      NextLoops(s, s.threads[t], a);
    }
    EndsLoopIs(s, a);
  }

  lemma EnabledFresh(s: State, t: nat, a: Act)
    requires Enabled(s, t, a)
    ensures a.StartCalled? || a.Fail? ==> t !in s.threads
    ensures a.Schedule? ==> a.l !in s.threads
  {
  }

  lemma FlagsAfter(s: State, t: nat, a: Act)
    requires Enabled(s, t, a)
    ensures Control(s, t, a).flags.reconnecting
            == if EndsLoop(s, a) then false else s.flags.reconnecting || a.Schedule?
    ensures a.Finish? ==> LoopAt(s, t)
  {
  }

  lemma LoopKept(cfg: PoolConfig, s: State, t: nat, a: Act, s': State)
    requires LoopFits(s) && Step(cfg, s, t, a, s')
    ensures LoopFits(s')
  {
    assert Enabled(s, t, a) && s' == Control(s, t, a).(slots := s'.slots);
    FlagsAfter(s, t, a);
    forall u: nat
      ensures LoopAt(s', u) <==> LoopAt(Control(s, t, a), u)
    {
    }
    hide Control, Enabled, Step, EndsLoop, LoopAt;
    forall u: nat
      ensures LoopAt(s', u) <==>
                (LoopAt(s, u) && !(u == t && EndsLoop(s, a))) || (a.Schedule? && Spawns(s.flags) && u == a.l)
    {
      LoopsAfter(s, t, a, u);
    }
    EndsLoopIs(s, a);
    if u: nat :| LoopAt(s, u) {
      assert !EndsLoop(s, a) ==> LoopAt(s', u);
    }
    assert a.Schedule? && Spawns(s.flags) ==> LoopAt(s', a.l);
  }

  lemma EndsLoopIs(s: State, a: Act)
    ensures EndsLoop(s, a) ==> a.Finish?
  {
  }

  // --- one call at a time ---

  /** handleFailure with nothing in between, up to its close: a connection that is gone and known to be down is left
      alone, any other is marked as failed. */
  lemma HandlesFailure(s: State, t: nat)
    requires t in s.threads && s.threads[t].Noticing?
    ensures Enabled(s, t, Notice) && Enabled(Control(s, t, Notice), t, CheckConn)
    ensures var s2 := Control(Control(s, t, Notice), t, CheckConn);
            if !HasConn(s) && (s.cs.Failed? || s.cs.Reconnecting?) then s2 == s.(threads := s.threads - {t})
            else
              Enabled(s2, t, MarkFailed)
              && Control(s2, t, MarkFailed) == s.(threads := s.threads[t := Closing], cs := Failed)
  {
    var s1 := Control(s, t, Notice);
    assert s1 == s.(threads := s.threads[t := Checking(s.cs)]);
    assert s.threads[t := Checking(s.cs)] - {t} == s.threads - {t};
    assert s.threads[t := Checking(s.cs)][t := Marking] == s.threads[t := Marking];
    assert s.threads[t := Marking][t := Closing] == s.threads[t := Closing];
  }

  /** scheduleReconnect and finishReconnect, as each is one step. */
  lemma SchedulesAndFinishes(s: State, t: nat, l: nat)
    requires t in s.threads && l !in s.threads
    ensures s.threads[t].Scheduling? ==>
              Enabled(s, t, Act.Schedule(l))
              && var r := Control(s, t, Act.Schedule(l));
                 r.flags == Flags(true, s.flags.requested || s.flags.reconnecting)
                 && r.threads == (if s.flags.reconnecting then s.threads - {t} else (s.threads - {t})[l := Delaying])
    ensures s.threads[t].Finishing? ==>
              Enabled(s, t, Act.Finish)
              && var r := Control(s, t, Act.Finish);
                 if (s.cs.Open? || s.cs.DWRSent?) && !s.flags.requested
                 then r.flags == Flags(false, false) && r.threads == s.threads - {t}
                 else r.flags == s.flags.(requested := false) && r.threads == s.threads[t := Delaying]
  {
  }

  // --- before the first store ---

  /** Start on its way to its store, or past a connect that failed: its handleFailure finds the state failed. */
  predicate StartOnly(s: State, pc: Pc) {
    pc.StartConnects() || pc == Undone(Starter) || (pc.Noticing? && s.cs.Failed?) || pc == Checking(Failed)
  }

  /** Until the first store there is only Start, and from then on Start has its store behind it. */
  predicate Early(s: State) {
    && (!s.started ==> s.threads == map[] && s.stores == 0)
    && (s.stores == 0 ==>
          !HasConn(s) && (forall t <- s.threads, u <- s.threads :: t == u)
          && forall t <- s.threads :: StartOnly(s, s.threads[t]))
    && (s.stores > 0 ==> forall t <- s.threads :: !s.threads[t].StartConnects())
  }

  lemma EarlyKept(cfg: PoolConfig, s: State, t: nat, a: Act, s': State)
    requires Early(s) && Step(cfg, s, t, a, s')
    requires HasConn(s') <==> a.Store? || (HasConn(s) && !a.Take?)
    ensures Early(s')
  {
    ThreadsAfter(s, t, a);
    HistoryAfter(cfg, s, t, a, s');
    StartedKept(s, t, a);
    if t in s.threads && Fits(a, s.threads[t]) {
      if s.stores > 0 || a.Store? {
        NextConnects(s, s.threads[t], a);
      }
      if s.stores == 0 {
        StartGoesOn(s, t, a);
      }
    }
    hide Step, Control, Next, Fits, Enabled, HasConn;
  }

  lemma StartGoesOn(s: State, t: nat, a: Act)
    requires Enabled(s, t, a) && t in s.threads && Fits(a, s.threads[t]) && StartOnly(s, s.threads[t]) && !HasConn(s)
    ensures var s' := Control(s, t, a); !a.Store? && t in s'.threads ==> StartOnly(s', s'.threads[t])
    ensures a.Store? ==> s.threads[t] == Dialing(Starter)
    ensures !a.Schedule?
  {
    hide AfterFinish, AfterSchedule, Ends;
  }

  lemma StartedKept(s: State, t: nat, a: Act)
    requires Enabled(s, t, a)
    ensures s.started ==> Control(s, t, a).started
    ensures s.started ==> !a.StartCalled?
  {
  }

  lemma NextConnects(s: State, pc: Pc, a: Act)
    requires Fits(a, pc) && (pc.StartConnects() ==> a.Store?)
    ensures var r := Next(s, pc, a); r.Some? ==> !r.value.StartConnects()
  {
  }

  // --- why an address is still bound ---

  /** What a handleFailure that has closed knows: nothing is bound unless there has been a store since. */
  predicate ClosedFits(s: State, pc: Pc) {
    pc.Returning? || pc.Scheduling? ==> pc.closedAt <= s.stores && (pc.closedAt == s.stores ==> !HasConn(s))
  }

  /** If a loop goes towards its next store with an address bound there is a reason in the history. */
  predicate Excused(s: State, pc: Pc) {
    pc.WillStore() && HasConn(s) ==> s.again || s.late
  }

  predicate Reasons(s: State) {
    forall t {:trigger s.threads[t]} :: t in s.threads ==> ClosedFits(s, s.threads[t]) && Excused(s, s.threads[t])
  }

  lemma NextReasons(s: State, pc: Pc, a: Act)
    requires Fits(a, pc) && ClosedFits(s, pc) && Excused(s, pc)
    ensures var r, s' := Next(s, pc, a), s.(again := s.again || a.Finish?);
            r.Some? ==>
              (a.Take? ==> (r.value.Returning? || r.value.Scheduling? ==> r.value.closedAt == s.stores))
              && (!a.Take? && !a.Store? ==> ClosedFits(s, r.value) && Excused(s', r.value))
              && (a.Store? ==> !r.value.WillStore() && !r.value.Returning? && !r.value.Scheduling?)
  {
  }

  /** The goroutine that takes the step. */
  lemma OwnReasons(cfg: PoolConfig, s: State, t: nat, a: Act, s': State)
    requires Reasons(s) && Step(cfg, s, t, a, s')
    requires HasConn(s') <==> a.Store? || (HasConn(s) && !a.Take?)
    ensures t in s'.threads ==> ClosedFits(s', s'.threads[t]) && Excused(s', s'.threads[t])
    ensures a.Schedule? && a.l in s'.threads ==> ClosedFits(s', s'.threads[a.l]) && Excused(s', s'.threads[a.l])
  {
    assert Enabled(s, t, a) && s' == Control(s, t, a).(slots := s'.slots);
    EnabledFresh(s, t, a);
    ThreadsAfter(s, t, a);
    HistoryAfter(cfg, s, t, a, s');
    NotesAfter(cfg, s, t, a, s');
    hide Step, Control, Next, Fits, Enabled, HasConn, EndsLoop, Spawns;
    if !a.StartCalled? && !a.Fail? && !a.Watch? {
      var pc := s.threads[t];
      assert ClosedFits(s, pc) && Excused(s, pc);
      NextReasons(s, pc, a);
      NextLoops(s, pc, a);
    }
  }

  /** The history after a step, for everybody else. */
  lemma HistoryAfter(cfg: PoolConfig, s: State, t: nat, a: Act, s': State)
    requires Step(cfg, s, t, a, s')
    ensures a.Store? ==>
              t in s.threads && s.threads[t].Dialing? && s'.stores == s.stores + 1
    ensures !a.Store? ==>
              s'.stores == s.stores && (s.again ==> s'.again) && (s.late ==> s'.late)
    ensures forall u :: u in s'.threads && u != t && !(a.Schedule? && u == a.l) ==>
              u in s.threads && s'.threads[u] == s.threads[u]
  {
    ThreadsAfter(s, t, a);
    hide PortPart, PortEvent, AfterFinish, AfterSchedule, Ends, Next;
  }

  lemma ReasonsKept(cfg: PoolConfig, s: State, t: nat, a: Act, s': State)
    requires LoopFits(s) && Early(s) && Reasons(s) && Step(cfg, s, t, a, s')
    requires HasConn(s') <==> a.Store? || (HasConn(s) && !a.Take?)
    ensures Reasons(s')
  {
    OwnReasons(cfg, s, t, a, s');
    HistoryAfter(cfg, s, t, a, s');
    hide Step, HasConn;
    forall u | u in s'.threads
      ensures ClosedFits(s', s'.threads[u]) && Excused(s', s'.threads[u])
    {
      if u != t && !(a.Schedule? && u == a.l) {
        assert ClosedFits(s, s.threads[u]) && Excused(s, s.threads[u]);
        assert a.Store? ==> s.threads[t].c == Loop && LoopAt(s, t) && !LoopAt(s, u);
      }
    }
  }

  lemma {:induction false} ReasonsAlways(cfg: PoolConfig, es: seq<Event>, ss: seq<State>, n: nat)
    requires IsRun(cfg, es, ss) && n <= |es|
    ensures LoopFits(ss[n]) && Early(ss[n]) && Reasons(ss[n])
  {
    hide Partition, Slots.Ownership, Step, LoopFits, Early, Reasons, Slots.Leaked;
    if n == 0 {
      ReasonsBegin(cfg);
    } else {
      var t, a := es[n - 1].t, es[n - 1].a;
      ReasonsAlways(cfg, es, ss, n - 1);
      PortsAlways(cfg, es, ss, n - 1);
      PortsKept(cfg, ss[n - 1], t, a, ss[n]);
      LoopKept(cfg, ss[n - 1], t, a, ss[n]);
      EarlyKept(cfg, ss[n - 1], t, a, ss[n]);
      ReasonsKept(cfg, ss[n - 1], t, a, ss[n]);
    }
  }

  lemma ReasonsBegin(cfg: PoolConfig)
    requires Check(cfg).Fine?
    ensures LoopFits(Begin(cfg)) && Early(Begin(cfg)) && Reasons(Begin(cfg))
  {
  }

  /** A store leaks only if since the last store a finishReconnect has returned false, or a loop has been started by a
      handleFailure that had closed before that store. */
  lemma LeaksOnlyIf(cfg: PoolConfig, es: seq<Event>, ss: seq<State>, n: nat)
    requires IsRun(cfg, es, ss) && n < |es| && es[n].a.Store? && HasConn(ss[n])
    ensures ss[n].again || ss[n].late
  {
    ReasonsAlways(cfg, es, ss, n);
    assert Step(cfg, ss[n], es[n].t, es[n].a, ss[n + 1]);
    hide LoopFits, PortPart;
  }

  // --- the history, in terms of the steps ---

  /** Since step m nothing has been stored up to step n. */
  predicate NoStore(es: seq<Event>, m: nat, n: nat)
    requires n <= |es|
  {
    forall k :: m <= k < n ==> !es[k].a.Store?
  }

  /** Step k is a finishReconnect that returns false, the last store being before it. */
  predicate ReturnsFalse(es: seq<Event>, ss: seq<State>, k: nat, n: nat)
    requires |ss| == |es| + 1 && n <= |es|
  {
    k < n && es[k].a.Finish? && !EndsLoop(ss[k], es[k].a) && NoStore(es, k, n)
  }

  /** Step k starts a loop for a handleFailure that closed when there had been fewer stores. */
  predicate StartsLate(es: seq<Event>, ss: seq<State>, k: nat, n: nat)
    requires |ss| == |es| + 1 && n <= |es|
  {
    k < n && es[k].a.Schedule? && Spawns(ss[k].flags) && es[k].t in ss[k].threads && ss[k].threads[es[k].t].Scheduling?
    && ss[k].threads[es[k].t].closedAt < ss[k].stores && NoStore(es, k, n)
  }

  lemma NotesAfter(cfg: PoolConfig, s: State, t: nat, a: Act, s': State)
    requires Step(cfg, s, t, a, s')
    ensures s'.again <==> !a.Store? && (s.again || (a.Finish? && !EndsLoop(s, a)))
    ensures s'.late <==>
              !a.Store?
              && (s.late || (a.Schedule? && Spawns(s.flags) && t in s.threads && s.threads[t].Scheduling?
                             && s.threads[t].closedAt < s.stores))
  {
    hide PortPart, PortEvent, AfterFinish, AfterSchedule;
  }

  lemma {:induction false} HistoryMeans(cfg: PoolConfig, es: seq<Event>, ss: seq<State>, n: nat)
    requires IsRun(cfg, es, ss) && n <= |es|
    ensures ss[n].again <==> exists k :: ReturnsFalse(es, ss, k, n)
    ensures ss[n].late <==> exists k :: StartsLate(es, ss, k, n)
  {
    hide Step, EndsLoop, Spawns;
    if n > 0 {
      var m := n - 1;
      HistoryMeans(cfg, es, ss, m);
      NotesAfter(cfg, ss[m], es[m].t, es[m].a, ss[n]);
      if k: nat :| ReturnsFalse(es, ss, k, m) {
        assert !es[m].a.Store? ==> ReturnsFalse(es, ss, k, n);
      }
      if k: nat :| ReturnsFalse(es, ss, k, n) {
        assert k < m ==> ReturnsFalse(es, ss, k, m);
        assert !es[m].a.Store?;
      }
      assert es[m].a.Finish? && !EndsLoop(ss[m], es[m].a) ==> ReturnsFalse(es, ss, m, n);
      if k: nat :| StartsLate(es, ss, k, m) {
        assert !es[m].a.Store? ==> StartsLate(es, ss, k, n);
      }
      if k: nat :| StartsLate(es, ss, k, n) {
        assert k < m ==> StartsLate(es, ss, k, m);
        assert !es[m].a.Store?;
      }
      assert ss[n].late && !ss[m].late ==> StartsLate(es, ss, m, n);
    }
  }

  /** Step m is the last store before step n, and nothing has been closed since. */
  predicate StoredSince(es: seq<Event>, m: nat, n: nat)
    requires n <= |es|
  {
    m < n && es[m].a.Store? && forall k :: m < k < n ==> !es[k].a.Store? && !es[k].a.Take?
  }

  lemma {:induction false} BoundExactly(cfg: PoolConfig, es: seq<Event>, ss: seq<State>, n: nat)
    requires IsRun(cfg, es, ss) && n <= |es|
    ensures HasConn(ss[n]) <==> exists m :: StoredSince(es, m, n)
  {
    hide Step, HasConn, Slots.Leaked, Slots.Ownership, Partition;
    if n == 0 {
      NothingBound(cfg);
    } else {
      var before := n - 1;
      BoundExactly(cfg, es, ss, before);
      PortsAlways(cfg, es, ss, before);
      PortsKept(cfg, ss[before], es[before].t, es[before].a, ss[n]);
      if m: nat :| StoredSince(es, m, before) {
        assert !es[before].a.Store? && !es[before].a.Take? ==> StoredSince(es, m, n);
      }
      if m: nat :| StoredSince(es, m, n) {
        assert m < before ==> StoredSince(es, m, before);
      }
      assert es[before].a.Store? ==> StoredSince(es, before, n);
    }
  }

  lemma NothingBound(cfg: PoolConfig)
    requires Check(cfg).Fine?
    ensures !HasConn(Begin(cfg))
  {
  }

  /** When a store leaks: exactly when there has been a store before it, no close between them, and a reason for
      connecting again all the same.  Since the last store a finishReconnect has returned false, or a loop has been
      started by a handleFailure that had closed before it. */
  lemma LeaksWhen(cfg: PoolConfig, es: seq<Event>, ss: seq<State>, n: nat)
    requires IsRun(cfg, es, ss) && n < |es| && es[n].a.Store?
    ensures HasConn(ss[n]) <==>
              (exists m :: StoredSince(es, m, n))
              && ((exists k :: ReturnsFalse(es, ss, k, n)) || exists k :: StartsLate(es, ss, k, n))
    ensures HasConn(ss[n]) <==> Slots.Leaked(ss[n + 1].slots) != Slots.Leaked(ss[n].slots)
  {
    assert Step(cfg, ss[n], es[n].t, es[n].a, ss[n + 1]);
    hide Step, HasConn, Slots.Leaked, Slots.Ownership, Partition, StoredSince, ReturnsFalse, StartsLate;
    BoundExactly(cfg, es, ss, n);
    HistoryMeans(cfg, es, ss, n);
    if HasConn(ss[n]) {
      LeaksOnlyIf(cfg, es, ss, n);
    }
    PortsAlways(cfg, es, ss, n);
    PortsKept(cfg, ss[n], es[n].t, es[n].a, ss[n + 1]);
    BoundIsHeld(ss[n]);
  }

  lemma BoundIsHeld(s: State)
    ensures HasConn(s) ==> s.slots.bound[SLOT].port !in Slots.Leaked(s.slots)
  {
    if HasConn(s) {
      Slots.BoundNotLeaked(s.slots, SLOT);
    }
  }
}
