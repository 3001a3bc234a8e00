/** The reconnect loop of a connection: two flags under a mutex, and failures that arrive while the loop is at work. */
module Reconnect {
  import opened Wrappers

  datatype ConnectionState = Disconnected | Connecting | CERSent | Open | DWRSent | Failed | Reconnecting | Closed
  {
    predicate IsActive() {
      Open? || DWRSent?
    }
  }

  /** What reconnectMu guards. */
  datatype Flags = Flags(reconnecting: bool, requested: bool)

  /** Does scheduleReconnect start a loop?  Otherwise it leaves a request for the loop there is. */
  predicate Spawns(f: Flags) {
    !f.reconnecting
  }

  function AfterSchedule(f: Flags): (r: Flags) {
    if f.reconnecting then f.(requested := true) else f.(reconnecting := true)
  }

  /** Does finishReconnect let the loop end? */
  predicate Ends(f: Flags, success: bool, active: bool) {
    !success || (active && !f.requested)
  }

  function AfterFinish(f: Flags, success: bool, active: bool): (r: Flags) {
    if Ends(f, success, active) then Flags(false, false) else f.(requested := false)
  }

  // --- the methods of a connection ---

  class Connection {
    var state: ConnectionState
    var hasConn: bool
    var cancelled: bool
    var reconnectDisabled: bool
    var reconnecting: bool
    var reconnectRequested: bool

    constructor ()
      ensures state == Disconnected && !hasConn && !cancelled && !reconnectDisabled && View() == Flags(false, false)
    {
      state, hasConn, cancelled := Disconnected, false, false;
      reconnectDisabled, reconnecting, reconnectRequested := false, false, false;
    }

    function View(): (f: Flags)
      reads this
    {
      Flags(reconnecting, reconnectRequested)
    }

    method ScheduleReconnect() returns (spawned: bool)
      modifies this`reconnecting, this`reconnectRequested
      ensures View() == AfterSchedule(old(View())) && spawned == Spawns(old(View()))
      ensures spawned == !old(reconnecting) && reconnecting
      ensures reconnectRequested == (old(reconnectRequested) || old(reconnecting))
    {
      if reconnecting {
        reconnectRequested := true;
        return false;
      }
      reconnecting := true;
      return true;
    }

    method FinishReconnect(success: bool) returns (done: bool)
      modifies this`reconnecting, this`reconnectRequested
      ensures View() == AfterFinish(old(View()), success, state.IsActive())
              && done == Ends(old(View()), success, state.IsActive())
      ensures done <==> !success || ((state.Open? || state.DWRSent?) && !old(reconnectRequested))
      ensures !reconnectRequested && reconnecting == (old(reconnecting) && !done)
    {
      if !success || (state.IsActive() && !reconnectRequested) {
        reconnecting := false;
        reconnectRequested := false;
        return true;
      }
      reconnectRequested := false;
      return false;
    }

    /** handleFailure; it does nothing once the context is cancelled, and nothing for a failure of a connection that is
        already down. */
    method HandleFailure() returns (scheduled: bool, spawned: bool)
      modifies this
      ensures var ignored := old(cancelled) || old(state).Closed?
                             || (!old(hasConn) && (old(state).Failed? || old(state).Reconnecting?));
              scheduled == (!ignored && !reconnectDisabled)
              && (if ignored then state == old(state) && hasConn == old(hasConn) else state == Failed && !hasConn)
      ensures View() == if scheduled then AfterSchedule(old(View())) else old(View())
      ensures spawned == (scheduled && Spawns(old(View())))
      ensures spawned == (scheduled && !old(reconnecting)) && reconnecting == (old(reconnecting) || scheduled)
      ensures reconnectRequested == (old(reconnectRequested) || (scheduled && old(reconnecting)))
      ensures cancelled == old(cancelled) && reconnectDisabled == old(reconnectDisabled)
    {
      scheduled, spawned := false, false;
      if cancelled || state.Closed? {
        return;
      }
      if !hasConn && (state.Failed? || state.Reconnecting?) {
        return;
      }
      var reconnectEnabled := !reconnectDisabled;
      state := Failed;
      hasConn := false;
      if reconnectEnabled {
        spawned := ScheduleReconnect();
        scheduled := true;
      }
    }

    /** connect, undisturbed: the dial and the handshake succeed or not. */
    method Connect(dialOk: bool, handshakeOk: bool) returns (ok: bool)
      modifies this`state, this`hasConn
      ensures ok == (dialOk && handshakeOk)
      ensures ok ==> state == Open && hasConn
      ensures !ok ==> state == Failed && hasConn == (old(hasConn) && !dialOk)
    {
      state := Connecting;
      if !dialOk {
        state := Failed;
        return false;
      }
      hasConn := true;
      if !handshakeOk {
        hasConn := false;
        state := Failed;
        return false;
      }
      state := Open;
      return true;
    }

    /** Start, undisturbed.  A first connect that fails leaves the connection failed and without a socket, which is what
        handleFailure takes for a failure already handled: no reconnect loop starts. */
    method Start(dialOk: bool, handshakeOk: bool) returns (ok: bool, scheduled: bool)
      requires !hasConn
      modifies this
      ensures ok == (dialOk && handshakeOk)
      ensures !scheduled && View() == old(View())
      ensures !ok ==> state == Failed && !hasConn
    {
      scheduled := false;
      ok := Connect(dialOk, handshakeOk);
      if !ok {
        var spawned: bool;
        scheduled, spawned := HandleFailure();
      }
    }
  }

  // --- all interleavings ---

  /** Where a loop is: waiting for its delay, in connect, past a successful connect, or past a cancelled context. */
  datatype Phase = Waiting | Attempting | Succeeded | Stopping

  /** The flags, the live loops, and whether the last request for a reconnect is still without an attempt after it. */
  datatype State = State(flags: Flags, loops: map<nat, Phase>, cancelled: bool, unserved: bool)

  const INIT := State(Flags(false, false), map[], false, false)

  /** Schedule is a call of scheduleReconnect, l the loop it would start; Start is where an attempt begins. */
  datatype Event =
    | Schedule(l: nat)
    | Start(l: nat)
    | AttemptFails(l: nat)
    | AttemptSucceeds(l: nat)
    | Finish(l: nat, active: bool)
    | SeeCancelled(l: nat)
    | FinishCancelled(l: nat, active: bool)
    | Cancel

  predicate At(s: State, l: nat, p: Phase) {
    l in s.loops && s.loops[l] == p
  }

  predicate Enabled(s: State, e: Event) {
    match e
    case Schedule(l) => l !in s.loops
    case Start(l) => At(s, l, Waiting)
    case AttemptFails(l) => At(s, l, Attempting)
    case AttemptSucceeds(l) => At(s, l, Attempting)
    case Finish(l, _) => At(s, l, Succeeded)
    case SeeCancelled(l) => At(s, l, Waiting) && s.cancelled
    case FinishCancelled(l, _) => At(s, l, Stopping)
    case Cancel => true
  }

  function After(s: State, e: Event): (r: State)
    requires Enabled(s, e)
  {
    match e
    case Schedule(l) =>
      s.(flags := AfterSchedule(s.flags), unserved := true,
         loops := if Spawns(s.flags) then s.loops[l := Waiting] else s.loops)
    case Start(l) => s.(loops := s.loops[l := Attempting], unserved := false)
    case AttemptFails(l) => s.(loops := s.loops[l := Waiting])
    case AttemptSucceeds(l) => s.(loops := s.loops[l := Succeeded])
    case Finish(l, active) =>
      s.(flags := AfterFinish(s.flags, true, active),
         loops := if Ends(s.flags, true, active) then s.loops - {l} else s.loops[l := Waiting])
    case SeeCancelled(l) => s.(loops := s.loops[l := Stopping])
    case FinishCancelled(l, active) => s.(flags := AfterFinish(s.flags, false, active), loops := s.loops - {l})
    case Cancel => s.(cancelled := true)
  }

  /** The state after these events, or None when one of them could not happen. */
  function Run(es: seq<Event>): (r: Option<State>) {
    if es == [] then Some(INIT)
    else
      var before := Run(es[..|es| - 1]);
      if before.Some? && Enabled(before.value, es[|es| - 1]) then Some(After(before.value, es[|es| - 1])) else None
  }

  /** One loop exactly while the flag is set; a request without an attempt has a loop that will make one. */
  predicate Inv(s: State) {
    && (s.flags.reconnecting <==> s.loops != map[])
    && (forall l <- s.loops, m <- s.loops :: l == m)
    && (s.flags.requested ==> s.flags.reconnecting)
    && (forall l <- s.loops :: s.loops[l].Stopping? ==> s.cancelled)
    && (s.unserved && !s.cancelled ==>
          exists l <- s.loops ::
            s.loops[l].Waiting? || ((s.loops[l].Attempting? || s.loops[l].Succeeded?) && s.flags.requested))
  }

  lemma InvKept(s: State, e: Event)
    requires Inv(s) && Enabled(s, e)
    ensures Inv(After(s, e))
  {
    var s' := After(s, e);
    match e
    case Schedule(l) =>
      if !Spawns(s.flags) {
        var m :| m in s.loops;
        assert s.loops[m].Stopping? ==> s.cancelled;
      } else {
        assert l in s'.loops;
      }
    case Finish(l, active) =>
      assert s.loops.Keys == {l};
      if Ends(s.flags, true, active) {
        assert s'.loops == map[];
      } else {
        assert l in s'.loops;
      }
    case FinishCancelled(l, _) =>
      assert s.loops.Keys == {l};
      assert s'.loops == map[];
    case Cancel =>
    case _ =>
      assert e.l in s'.loops && s.loops.Keys == s'.loops.Keys;
  }

  lemma {:induction false} InvAlways(es: seq<Event>)
    requires Run(es).Some?
    ensures Inv(Run(es).value)
  {
    if es != [] {
      InvAlways(es[..|es| - 1]);
      hide Inv, Enabled, After;
      InvKept(Run(es[..|es| - 1]).value, es[|es| - 1]);
    }
  }

  /** The flag reconnecting holds exactly while a loop is live, and there is never a second one. */
  lemma OneLoop(es: seq<Event>)
    requires Run(es).Some?
    ensures var s := Run(es).value; |s.loops| == if s.flags.reconnecting then 1 else 0
  {
    InvAlways(es);
    var s := Run(es).value;
    if s.loops != map[] {
      var l :| l in s.loops;
      assert s.loops.Keys == {l};
      assert |s.loops| == |s.loops.Keys|;
    }
  }

  /** unserved is what it is meant to be: some call of scheduleReconnect has no attempt starting after it. */
  lemma {:induction false} UnservedMeans(es: seq<Event>)
    requires Run(es).Some?
    ensures Run(es).value.unserved <==> exists n :: Unanswered(es, n)
  {
    if es != [] {
      var before, e := es[..|es| - 1], es[|es| - 1];
      UnservedMeans(before);
      hide Enabled, After, Inv;
      StepUnserved(Run(before).value, e);
      if n: nat :| Unanswered(before, n) {
        assert !e.Start? ==> Unanswered(es, n);
      }
      if n: nat :| Unanswered(es, n) {
        assert n < |before| ==> es[n] == before[n] && Unanswered(before, n);
      }
      assert e.Schedule? ==> Unanswered(es, |es| - 1);
    }
  }

  predicate Unanswered(es: seq<Event>, n: nat) {
    n < |es| && es[n].Schedule? && forall m :: n < m < |es| ==> !es[m].Start?
  }

  lemma StepUnserved(s: State, e: Event)
    requires Enabled(s, e)
    ensures After(s, e).unserved == (e.Schedule? || (s.unserved && !e.Start?))
  {
  }

  /** How many of its own steps a loop is from starting an attempt. */
  function StepsToStart(p: Phase): (n: nat) {
    match p
    case Attempting => 3
    case Succeeded => 2
    case Waiting => 1
    case Stopping => 0
  }

  /** No reconnect request is lost: after a call of scheduleReconnect that no attempt has followed yet, while the
      context is not cancelled, there is a loop that can take a step, and each of its steps either starts an attempt
      or brings it nearer to one; in particular it does not end. */
  lemma RequestsAreServed(es: seq<Event>, n: nat) returns (l: nat)
    requires Run(es).Some? && Unanswered(es, n) && !Run(es).value.cancelled
    ensures var s := Run(es).value;
            l in s.loops && s.loops.Keys == {l} && (exists e :: Enabled(s, e) && Moves(e, l))
            && forall e :: Enabled(s, e) && Moves(e, l) ==>
                 var s' := After(s, e);
                 l in s'.loops && !s'.loops[l].Stopping?
                 && (e.Start? || StepsToStart(s'.loops[l]) < StepsToStart(s.loops[l]))
  {
    UnservedMeans(es);
    InvAlways(es);
    var s := Run(es).value;
    l :| l in s.loops
         && (s.loops[l].Waiting? || ((s.loops[l].Attempting? || s.loops[l].Succeeded?) && s.flags.requested));
    var e := match s.loops[l]
             case Waiting => Start(l)
             case Attempting => AttemptFails(l)
             case _ => Finish(l, true);
    assert Enabled(s, e) && Moves(e, l);
  }

  /** A step of loop l. */
  predicate Moves(e: Event, l: nat) {
    !e.Schedule? && !e.Cancel? && e.l == l
  }

  /** A loop ends only when no request is open or the context has been cancelled. */
  lemma LoopsEndServed(es: seq<Event>, e: Event)
    requires Run(es).Some? && Enabled(Run(es).value, e)
    requires Run(es).value.loops != map[] && After(Run(es).value, e).loops == map[]
    ensures Run(es).value.cancelled || forall n :: !Unanswered(es, n)
  {
    InvAlways(es);
    UnservedMeans(es);
    var s := Run(es).value;
    if e.Finish? {
      assert s.loops.Keys == {e.l};
    } else if !e.FinishCancelled? {
      EndsByFinish(s, e);
    }
  }

  lemma EndsByFinish(s: State, e: Event)
    requires Enabled(s, e) && s.loops != map[]
    ensures e.Finish? || e.FinishCancelled? || After(s, e).loops != map[]
  {
    if e.Start? || e.AttemptFails? || e.AttemptSucceeds? || e.SeeCancelled? {
      assert e.l in After(s, e).loops;
    }
  }
}
