/** How many replies a request gets, whatever the other peers do: it turns on what the take-back finds. */
module RelayReplies {
  import opened Wrappers
  import opened Bytes
  import opened Headers
  import opened Rewriter
  import opened RelayTables
  import opened ProtocolErrors
  import opened Relay
  import opened RelaySteps
  import opened RelaySafety
  import opened RelayRuns

  // --- the entry of a request that is being written ---

  predicate TakenBy(s: State, a: nat, id: u32) {
    a < |s.answers| && s.answers[a].phase.Took() && HopByHop(s.answers[a].msg) == id
  }

  /** A request stored and not yet reported sent has its entry in the table, or an answer has taken it. */
  ghost predicate HeldOrTaken(s: State, r: nat)
    requires r < |s.requests|
  {
    var g := s.requests[r].stage;
    g.Stored? || g.Unsent? ==> g.t.id in s.pending || exists a :: TakenBy(s, a, g.t.id)
  }

  ghost predicate EntriesAccounted(s: State) {
    forall r {:trigger HeldOrTaken(s, r)} :: 0 <= r < |s.requests| ==> HeldOrTaken(s, r)
  }

  /** How an entry leaves the table. */
  lemma LeavesBy(cfg: Config, s: State, e: Event, id: u32)
    requires Enabled(s, e) && id in s.pending && id !in After(cfg, s, e).pending
    ensures (e.Life? && e.l.Forget? && s.pending[id].origPeer == e.p && At(s, e.p, Closing))
            || (e.OnRequest? && e.q.TakeBack? && Busy(s, e.p) && StageOf(s, e.p).Unsent? && StageOf(s, e.p).t.id == id)
            || (e.OnAnswer? && e.x.Take? && Carrying(s, e.p) && AnswerOf(s, e.p).phase.Looking?
                && HopByHop(AnswerOf(s, e.p).msg) == id)
  {
    hide AfterLife, AfterRequest, AfterAnswer, RequestEnabled, EntryFor, HopByHop;
    match e
    case Stop =>
    case Life(p, l) => LifeTables(s, p, l);
    case OnRequest(p, q) => RequestTables(cfg, s, p, q);
    case OnAnswer(p, x) => AnswerTables(cfg, s, p, x);
  }

  /** Two requests with the same identifier are the same request. */
  lemma SameRequest(s: State, q: nat, r: nat)
    requires Shape(s) && NoWrap(s) && q < |s.requests| && r < |s.requests|
    requires s.requests[q].stage.Drawn().Some? && s.requests[r].stage.Drawn().Some?
    requires s.requests[q].stage.Drawn().value.id == s.requests[r].stage.Drawn().value.id
    ensures q == r
  {
    assert RequestFits(s, q) && RequestFits(s, r);
    SameDraw(s, s.requests[q].stage.Drawn().value.i, s.requests[r].stage.Drawn().value.i);
  }

  /** The peer an entry names is the sender of the request with its identifier, so it is not being cleaned up. */
  lemma EntryOfWorking(s: State, r: nat)
    requires Shape(s) && EntriesFit(s) && NoWrap(s) && r < |s.requests|
    requires s.requests[r].stage.Stored? || s.requests[r].stage.Unsent?
    requires s.requests[r].stage.t.id in s.pending
    ensures s.pending[s.requests[r].stage.t.id].origPeer == s.requests[r].from
    ensures s.requests[r].from in s.handlers && s.handlers[s.requests[r].from].Working?
  {
    var id := s.requests[r].stage.t.id;
    assert RequestFits(s, r) && EntryFits(s, id);
    var i: nat :| IssuedAs(s, i, id, s.pending[id]);
    assert DrawFits(s, i);
    SameRequest(s, s.issued[i], r);
  }

  /** An answer that takes an entry has taken it. */
  lemma TakesNow(cfg: Config, s: State, p: PeerId, x: AnswerStep)
    requires Enabled(s, OnAnswer(p, x)) && x.Take? && Carrying(s, p) && AnswerOf(s, p).phase.Looking?
    requires HopByHop(AnswerOf(s, p).msg) in s.pending
    ensures TakenBy(After(cfg, s, OnAnswer(p, x)), s.handlers[p].a, HopByHop(AnswerOf(s, p).msg))
  {
    hide HopByHop, Rewrite, ForwardBytes;
  }

  lemma TakenLater(s: State, s': State, id: u32)
    requires AnswersGrow(s, s') && exists a :: TakenBy(s, a, id)
    ensures exists a :: TakenBy(s', a, id)
  {
    hide HopByHop;
    var a :| TakenBy(s, a, id);
    assert TakenBy(s', a, id);
  }

  /** Where a request at Stored or Unsent was before the step. */
  lemma WasWriting(cfg: Config, s: State, e: Event, r: nat)
    requires Enabled(s, e) && r < |After(cfg, s, e).requests|
    requires After(cfg, s, e).requests[r].stage.Stored? || After(cfg, s, e).requests[r].stage.Unsent?
    ensures r < |s.requests|
    ensures var g, g' := s.requests[r].stage, After(cfg, s, e).requests[r].stage;
            ((g.Stored? || g.Unsent?) && g.t == g'.t && !(e.OnRequest? && e.q.TakeBack? && At(s, e.p, Working(r))))
            || (e.OnRequest? && e.q.Store? && Busy(s, e.p) && StageOf(s, e.p).Numbered? && g'.t == StageOf(s, e.p).t)
  {
    RequestsAfter(cfg, s, e);
    if e.OnRequest? && !e.q.ReadRequest? {
      WritingFrom(cfg, s, e.p, e.q);
    }
    hide Enabled, After, NextStage;
  }

  lemma WritingFrom(cfg: Config, s: State, p: PeerId, q: RequestStep)
    requires RequestEnabled(s, p, q) && !q.ReadRequest?
    ensures Busy(s, p)
    ensures var g, g' := StageOf(s, p), NextStage(cfg, s, p, q);
            (q.TakeBack? ==> !g'.Stored? && !g'.Unsent?)
            && (g'.Stored? || g'.Unsent? ==>
                  (g.Stored? && g'.t == g.t) || (q.Store? && g.Numbered? && g'.t == g.t))
  {
    hide Rewrite, Routing, RoutingTo, HostFound, RealmPicked;
  }

  lemma AccountedKept(cfg: Config, s: State, e: Event, r: nat)
    requires Shape(s) && EntriesFit(s) && EntriesAccounted(s) && NoWrap(s) && Enabled(s, e)
             && r < |After(cfg, s, e).requests|
    ensures HeldOrTaken(After(cfg, s, e), r)
  {
    var s' := After(cfg, s, e);
    var g' := s'.requests[r].stage;
    if g'.Stored? || g'.Unsent? {
      WasWriting(cfg, s, e, r);
      assert HeldOrTaken(s, r);
      hide Shape, EntriesFit, EntriesAccounted, Enabled, After, HopByHop, EntryFor, Busy, Carrying;
      if e.OnRequest? && e.q.Store? && Busy(s, e.p) && StageOf(s, e.p).Numbered? && g'.t == StageOf(s, e.p).t {
        StorePuts(cfg, s, e.p);
      } else {
        AnswersStepGrow(cfg, s, e);
        if exists a :: TakenBy(s, a, g'.t.id) {
          TakenLater(s, s', g'.t.id);
        } else if g'.t.id !in s'.pending {
          LeavesBy(cfg, s, e, g'.t.id);
          EntryOfWorking(s, r);
          if e.OnAnswer? {
            TakesNow(cfg, s, e.p, e.x);
          } else if e.OnRequest? {
            TakesBackOwn(s, e.p, r);
          }
        }
      }
    }
  }

  lemma StorePuts(cfg: Config, s: State, p: PeerId)
    requires Enabled(s, OnRequest(p, Store)) && Busy(s, p) && StageOf(s, p).Numbered?
    ensures StageOf(s, p).t.id in After(cfg, s, OnRequest(p, Store)).pending
  {
    hide AfterRequest, RequestEnabled;
    RequestTables(cfg, s, p, Store);
  }

  lemma TakesBackOwn(s: State, p: PeerId, r: nat)
    requires Shape(s) && NoWrap(s) && Busy(s, p) && StageOf(s, p).Unsent? && r < |s.requests|
    requires (s.requests[r].stage.Stored? || s.requests[r].stage.Unsent?)
             && s.requests[r].stage.t.id == StageOf(s, p).t.id
    ensures At(s, p, Working(r))
  {
    SameRequest(s, s.handlers[p].r, r);
  }

  lemma {:induction false} AccountedAlways(cfg: Config, es: seq<Event>, s: State)
    requires Reached(cfg, es, s) && NoWrap(s)
    ensures EntriesAccounted(s)
  {
    hide Enabled, After, Inv, HeldOrTaken;
    if es != [] {
      var e := es[|es| - 1];
      var s0 := Run(cfg, es[..|es| - 1]).value;
      IssuedAfter(cfg, s0, e);
      AccountedAlways(cfg, es[..|es| - 1], s0);
      InvAlways(cfg, es[..|es| - 1], s0);
      InvParts(cfg, s0);
      forall r | 0 <= r < |s.requests|
        ensures HeldOrTaken(s, r)
      {
        AccountedKept(cfg, s0, e, r);
      }
    }
  }

  lemma InvParts(cfg: Config, s: State)
    requires Inv(cfg, s)
    ensures Shape(s) && EntriesFit(s) && WireFits(cfg, s) && (NoWrap(s) ==> TakenOnce(s))
  {
  }

  /** Has an answer taken the entry of the request? */
  predicate AnswersTo(s: State, a: nat, r: nat) {
    a < |s.answers| && s.answers[a].phase.Took() && AnsweredRequest(s, a) == r
  }

  lemma AnswersByIdentifier(s: State, a: nat, r: nat)
    requires Shape(s) && EntriesFit(s) && NoWrap(s) && TakenOnce(s) && r < |s.requests|
             && s.requests[r].stage.Drawn().Some?
    ensures AnswersTo(s, a, r) <==> TakenBy(s, a, s.requests[r].stage.Drawn().value.id)
  {
    hide HopByHop, EntryFor, Shape, EntriesFit, AnsweredRequest, TakenOnce;
    if a < |s.answers| && s.answers[a].phase.Took() {
      MatchedRequest(s, a);
    }
  }

  /** The take that follows a failed write, whose result the source does not look at, finds no entry exactly when an
      answer has been matched to the request. */
  lemma TakeBackFinds(cfg: Config, es: seq<Event>, s: State, p: PeerId)
    requires Reached(cfg, es, s) && NoWrap(s) && Busy(s, p) && StageOf(s, p).Unsent?
    ensures StageOf(s, p).t.id !in s.pending <==> exists a :: AnswersTo(s, a, s.handlers[p].r)
  {
    var r, id := s.handlers[p].r, StageOf(s, p).t.id;
    AccountedAlways(cfg, es, s);
    InvAlways(cfg, es, s);
    InvParts(cfg, s);
    assert HeldOrTaken(s, r);
    hide Inv, Reached, HopByHop, Shape, EntriesFit, AnsweredRequest, EntriesAccounted, AnswersTo;
    if id !in s.pending {
      var a: nat :| TakenBy(s, a, id);
      AnswersByIdentifier(s, a, r);
    }
    if a: nat :| AnswersTo(s, a, r) {
      AnswersByIdentifier(s, a, r);
    }
  }

  // --- the steps that decide it ---

  /** At step k the handler of request r takes its entry back. */
  ghost predicate TakesBack(cfg: Config, es: seq<Event>, k: nat, r: nat) {
    k < |es| && Run(cfg, es[..k]).Some?
    && var s, e := Run(cfg, es[..k]).value, es[k];
       e.OnRequest? && e.q.TakeBack? && Enabled(s, e) && At(s, e.p, Working(r))
  }

  /** It finds the entry gone. */
  ghost predicate TakesBackLate(cfg: Config, es: seq<Event>, k: nat, r: nat) {
    TakesBack(cfg, es, k, r)
    && var s, p := Run(cfg, es[..k]).value, es[k].p;
       Busy(s, p) && StageOf(s, p).Unsent? && StageOf(s, p).t.id !in s.pending
  }

  /** At step k something is written for a cause. */
  ghost predicate WritesFor(cfg: Config, es: seq<Event>, k: nat, c: Cause) {
    k < |es| && Run(cfg, es[..k]).Some? && StepWrites(cfg, Run(cfg, es[..k]).value, es[k], c)
  }

  /** The step is a write that succeeds: of an error answer, of a request, or of an answer that could be rewritten. */
  ghost predicate StepWrites(cfg: Config, s: State, e: Event, c: Cause) {
    Enabled(s, e)
    && match c
       case ErrorFor(r) => e.OnRequest? && e.q == Refuse(true) && At(s, e.p, Working(r))
       case ForwardOf(r) => e.OnRequest? && e.q == Send(true) && At(s, e.p, Working(r))
       case AnswerFrom(a) =>
         e.OnAnswer? && e.x == Reply(true) && At(s, e.p, Relaying(a)) && Carrying(s, e.p)
         && Rewrite(AnswerOf(s, e.p).msg, cfg.host, cfg.realm).Rewritten?
  }

  ghost predicate OnWire(s: State, c: Cause) {
    exists n :: 0 <= n < |s.wire| && s.wire[n].cause == c
  }

  lemma StepWires(cfg: Config, s: State, e: Event, c: Cause)
    requires Enabled(s, e)
    ensures OnWire(After(cfg, s, e), c) <==> OnWire(s, c) || StepWrites(cfg, s, e, c)
  {
    var s' := After(cfg, s, e);
    WiresAfter(cfg, s, e);
    hide Enabled, After, Rewrite, ForwardBytes;
    if s'.wire != s.wire {
      var k := s'.wire[|s.wire|];
      assert s'.wire == s.wire + [k];
      assert k.cause == c ==> OnWire(s', c);
    }
    if n: nat :| n < |s.wire| && s.wire[n].cause == c {
      assert s'.wire[n].cause == c;
    }
  }

  /** The wire after a step, by what the step writes. */
  lemma WiresAfter(cfg: Config, s: State, e: Event)
    requires Enabled(s, e)
    ensures var s' := After(cfg, s, e);
            if s'.wire == s.wire then forall c :: !StepWrites(cfg, s, e, c)
            else |s'.wire| == |s.wire| + 1 && s'.wire[..|s.wire|] == s.wire
                 && forall c :: StepWrites(cfg, s, e, c) <==> c == s'.wire[|s.wire|].cause
  {
    hide AfterLife, AfterRequest, AfterAnswer, RequestEnabled, AnswerEnabled, Rewrite, LifeEnabled;
    match e
    case Stop =>
    case Life(p, l) => LifeHistory(s, p, l);
    case OnRequest(p, q) => RequestWires(cfg, s, p, q);
    case OnAnswer(p, x) => AnswerWires(cfg, s, p, x);
  }

  lemma RequestWires(cfg: Config, s: State, p: PeerId, q: RequestStep)
    requires RequestEnabled(s, p, q)
    ensures q == Refuse(true) || q == Send(true) ==> p in s.handlers && s.handlers[p].Working?
    ensures var t := AfterRequest(cfg, s, p, q).wire;
            if q == Refuse(true) || q == Send(true)
            then At(s, p, Working(s.handlers[p].r)) && |t| == |s.wire| + 1 && t[..|s.wire|] == s.wire
                 && t[|s.wire|].cause == if q == Refuse(true) then ErrorFor(s.handlers[p].r)
                    else ForwardOf(s.handlers[p].r)
            else t == s.wire
  {
    hide NextStage, Rewrite, ForwardBytes, ErrorAnswer, HostFound, RealmPicked, EntryFor, RoutingTo, ParseShallow,
         IsTraffic;
  }

  lemma AnswerWires(cfg: Config, s: State, p: PeerId, x: AnswerStep)
    requires AnswerEnabled(s, p, x)
    ensures var t := AfterAnswer(cfg, s, p, x).wire;
            if x == Reply(true) && Carrying(s, p) && Rewrite(AnswerOf(s, p).msg, cfg.host, cfg.realm).Rewritten?
            then |t| == |s.wire| + 1 && t[..|s.wire|] == s.wire && t[|s.wire|].cause == AnswerFrom(s.handlers[p].a)
            else t == s.wire
  {
    hide NextPhase, Rewrite, ForwardBytes, ParseShallow, IsTraffic, HopByHop;
  }

  /** Something is on the wire exactly when a step of the run has written it. */
  lemma {:induction false} OnWireExactly(cfg: Config, es: seq<Event>, s: State, c: Cause)
    requires Reached(cfg, es, s)
    ensures OnWire(s, c) <==> exists k :: WritesFor(cfg, es, k, c)
  {
    hide Enabled, After, StepWrites, OnWire;
    if es == [] {
      NothingOnWire(c);
    } else {
      var before, e := es[..|es| - 1], es[|es| - 1];
      var s0 := Run(cfg, before).value;
      OnWireExactly(cfg, before, s0, c);
      StepWires(cfg, s0, e, c);
      if k: nat :| WritesFor(cfg, before, k, c) {
        assert before[..k] == es[..k];
        assert WritesFor(cfg, es, k, c);
      }
      if k: nat :| WritesFor(cfg, es, k, c) {
        if k < |before| {
          assert before[..k] == es[..k];
          assert WritesFor(cfg, before, k, c);
        }
      }
      assert StepWrites(cfg, s0, e, c) ==> WritesFor(cfg, es, |before|, c);
    }
  }

  lemma NothingOnWire(c: Cause)
    ensures !OnWire(INIT, c)
  {
  }

  // --- after the take-back ---

  predicate TriedInVain(g: Stage) {
    (g.Refusing? || g.Refused?) && g.tried.Some?
  }

  /** A request is refused after a write was tried only by way of a take-back. */
  lemma {:induction false} TookBack(cfg: Config, es: seq<Event>, s: State, r: nat)
    requires Reached(cfg, es, s) && r < |s.requests| && TriedInVain(s.requests[r].stage)
    ensures exists k :: TakesBack(cfg, es, k, r)
  {
    hide Enabled, After, NextStage, TriedInVain;
    var before, e := es[..|es| - 1], es[|es| - 1];
    var s0 := Run(cfg, before).value;
    WasTried(cfg, s0, e, r);
    if e.OnRequest? && e.q.TakeBack? && At(s0, e.p, Working(r)) {
      assert TakesBack(cfg, es, |before|, r);
    } else {
      TookBack(cfg, before, s0, r);
      var k: nat :| TakesBack(cfg, before, k, r);
      assert before[..k] == es[..k];
      assert TakesBack(cfg, es, k, r);
    }
  }

  lemma WasTried(cfg: Config, s: State, e: Event, r: nat)
    requires Enabled(s, e) && r < |After(cfg, s, e).requests| && TriedInVain(After(cfg, s, e).requests[r].stage)
    ensures (e.OnRequest? && e.q.TakeBack? && At(s, e.p, Working(r)))
            || (r < |s.requests| && TriedInVain(s.requests[r].stage))
  {
    RequestsAfter(cfg, s, e);
    if e.OnRequest? && !e.q.ReadRequest? {
      TriedFrom(cfg, s, e.p, e.q);
    }
    hide Enabled, After, NextStage;
  }

  lemma TriedFrom(cfg: Config, s: State, p: PeerId, q: RequestStep)
    requires RequestEnabled(s, p, q) && !q.ReadRequest?
    ensures Busy(s, p) && (TriedInVain(NextStage(cfg, s, p, q)) ==> q.TakeBack? || TriedInVain(StageOf(s, p)))
  {
    hide Rewrite, Routing, RoutingTo, HostFound, RealmPicked;
  }

  /** The request is past its store, its identifier is not in the table and no answer has taken it. */
  ghost predicate Closed(s: State, r: nat, id: u32) {
    r < |s.requests| && s.requests[r].stage.Entered() && s.requests[r].stage.Drawn().value.id == id
    && id !in s.pending && !exists a :: TakenBy(s, a, id)
  }

  lemma ClosedKept(cfg: Config, s: State, e: Event, r: nat, id: u32)
    requires Shape(s) && NoWrap(s) && Enabled(s, e) && Closed(s, r, id)
    ensures Closed(After(cfg, s, e), r, id)
  {
    var s' := After(cfg, s, e);
    assert RequestFits(s, r);
    RequestsStepGrow(cfg, s, e);
    ShapeKept(cfg, s, e);
    assert RequestFits(s', r);
    DrawKept(cfg, s, e, r);
    PendingAfter(cfg, s, e, id);
    if e.OnRequest? && e.q.Store? && Busy(s, e.p) && StageOf(s, e.p).Numbered? && id == StageOf(s, e.p).t.id {
      SameRequest(s, s.handlers[e.p].r, r);
    }
    forall a: nat | TakenBy(s', a, id)
      ensures TakenBy(s, a, id)
    {
      TookAfter(cfg, s, e, a);
    }
    hide Enabled, After, Shape, HopByHop;
  }

  /** The number drawn for a request stays. */
  lemma DrawKept(cfg: Config, s: State, e: Event, r: nat)
    requires Shape(s) && Enabled(s, e) && r < |s.requests| && s.requests[r].stage.Drawn().Some?
    ensures r < |After(cfg, s, e).requests| && After(cfg, s, e).requests[r].stage.Drawn() == s.requests[r].stage.Drawn()
  {
    RequestsAfter(cfg, s, e);
    if e.OnRequest? && !e.q.ReadRequest? {
      NextDrawn(cfg, s, e.p, e.q);
    }
    hide Enabled, After, NextStage, Shape;
  }

  lemma {:induction false} ClosedStays(cfg: Config, es: seq<Event>, s: State, k: nat, r: nat, id: u32)
    requires Reached(cfg, es, s) && NoWrap(s) && k <= |es| && Run(cfg, es[..k]).Some?
             && Closed(Run(cfg, es[..k]).value, r, id)
    ensures Closed(s, r, id)
  {
    hide Enabled, After, Inv, Closed;
    if k == |es| {
      assert es[..k] == es;
    } else {
      var before, e := es[..|es| - 1], es[|es| - 1];
      var s0 := Run(cfg, before).value;
      assert before[..k] == es[..k];
      IssuedAfter(cfg, s0, e);
      ClosedStays(cfg, before, s0, k, r, id);
      InvAlways(cfg, before, s0);
      InvParts(cfg, s0);
      ClosedKept(cfg, s0, e, r, id);
    }
  }

  /** A take-back that finds the entry closes the request to every answer. */
  lemma TakesBackCloses(cfg: Config, s: State, p: PeerId)
    requires Shape(s) && EntriesFit(s) && TakenOnce(s) && Enabled(s, OnRequest(p, TakeBack)) && Busy(s, p)
    requires StageOf(s, p).Unsent? && StageOf(s, p).t.id in s.pending
    ensures Closed(After(cfg, s, OnRequest(p, TakeBack)), s.handlers[p].r, StageOf(s, p).t.id)
  {
    var e := OnRequest(p, TakeBack);
    var s', id := After(cfg, s, e), StageOf(s, p).t.id;
    RequestsAfter(cfg, s, e);
    AnswersAfter(cfg, s, e);
    BackFromTable(cfg, s, p);
    hide Enabled, After, Shape, EntriesFit, HopByHop;
    assert !exists a :: TakenBy(s', a, id);
  }

  lemma BackFromTable(cfg: Config, s: State, p: PeerId)
    requires Enabled(s, OnRequest(p, TakeBack))
    ensures var s' := After(cfg, s, OnRequest(p, TakeBack));
            Busy(s, p) && StageOf(s, p).Unsent? && StageOf(s, p).t.id !in s'.pending
            && NextStage(cfg, s, p, TakeBack) == Refusing(DIAMETER_UNABLE_TO_DELIVER, Some(StageOf(s, p).t))
            && s'.requests == s.requests[s.handlers[p].r := RequestOf(s, p).(stage := NextStage(cfg, s, p, TakeBack))]
  {
    hide Rewrite, EntryFor;
  }

  // --- how many replies ---

  /** A request whose take-back finds its entry gets at most one reply, whatever the other peers do. */
  lemma TakeBackInTime(cfg: Config, es: seq<Event>, s: State, k: nat, r: nat, m: nat, n: nat)
    requires Reached(cfg, es, s) && NoWrap(s) && TakesBack(cfg, es, k, r) && !TakesBackLate(cfg, es, k, r)
    requires m < |s.wire| && n < |s.wire| && RepliesTo(s, s.wire[m], r) && RepliesTo(s, s.wire[n], r)
    ensures m == n
  {
    hide Inv, Shape, EntriesFit, TakenOnce, WireFits, HopByHop, AnsweredRequest, Enabled, After, RepliesTo;
    if m != n {
      InvAlways(cfg, es, s);
      InvParts(cfg, s);
      ReplyCause(cfg, s, m, r);
      ReplyCause(cfg, s, n, r);
      TwoReplies(cfg, es, s, m, n, r);
      var a := if s.wire[m].cause.AnswerFrom? then s.wire[m].cause.a else s.wire[n].cause.a;
      LateIfAnswered(cfg, es, s, k, r, a);
    }
  }

  lemma LateIfAnswered(cfg: Config, es: seq<Event>, s: State, k: nat, r: nat, a: nat)
    requires Reached(cfg, es, s) && NoWrap(s) && TakesBack(cfg, es, k, r) && AnswersTo(s, a, r)
    ensures TakesBackLate(cfg, es, k, r)
  {
    hide Inv, HopByHop, AnsweredRequest, After, Shape, EntriesFit, TakenOnce, WireFits, AnswersTo;
    var s0, e := Run(cfg, es[..k]).value, es[k];
    var p := e.p;
    BackFromTable(cfg, s0, p);
    hide Enabled;
    var id := StageOf(s0, p).t.id;
    if id in s0.pending {
      NoWrapBefore(cfg, es, s, k);
      InvAlways(cfg, es[..k], s0);
      InvParts(cfg, s0);
      TakesBackCloses(cfg, s0, p);
      assert es[..k + 1][..k] == es[..k];
      ClosedStays(cfg, es, s, k + 1, r, id);
      InvAlways(cfg, es, s);
      InvParts(cfg, s);
      AnswersByIdentifier(s, a, r);
      assert false;
    }
  }

  lemma {:induction false} NoWrapBefore(cfg: Config, es: seq<Event>, s: State, k: nat)
    requires Reached(cfg, es, s) && NoWrap(s) && k <= |es| && Run(cfg, es[..k]).Some?
    ensures NoWrap(Run(cfg, es[..k]).value)
  {
    hide Enabled, After;
    if k == |es| {
      assert es[..k] == es;
    } else {
      var before := es[..|es| - 1];
      var s0 := Run(cfg, before).value;
      assert before[..k] == es[..k];
      IssuedAfter(cfg, s0, es[|es| - 1]);
      NoWrapBefore(cfg, before, s0, k);
    }
  }

  ghost predicate GetsTwoReplies(s: State, r: nat) {
    exists m, n :: 0 <= m < n < |s.wire| && RepliesTo(s, s.wire[m], r) && RepliesTo(s, s.wire[n], r)
  }

  ghost predicate EntryFoundGone(cfg: Config, es: seq<Event>, r: nat) {
    exists k :: TakesBackLate(cfg, es, k, r)
  }

  ghost predicate ErrorWritten(cfg: Config, es: seq<Event>, r: nat) {
    exists k :: WritesFor(cfg, es, k, ErrorFor(r))
  }

  /** An answer matched to the request has been written. */
  ghost predicate AnswerWritten(cfg: Config, es: seq<Event>, s: State, r: nat) {
    exists k, a :: WritesAnswer(cfg, es, s, r, k, a)
  }

  ghost predicate WritesAnswer(cfg: Config, es: seq<Event>, s: State, r: nat, k: nat, a: nat) {
    a < |s.answers| && AnsweredRequest(s, a) == r && WritesFor(cfg, es, k, AnswerFrom(a))
  }

  /** Before an identifier comes round again a request gets two replies if and only if its take-back finds the entry
      gone and both writes succeed: that of the error answer, and that of an answer matched to it. */
  lemma TwoRepliesExactly(cfg: Config, es: seq<Event>, s: State, r: nat)
    requires Reached(cfg, es, s) && NoWrap(s)
    ensures GetsTwoReplies(s, r)
            <==> EntryFoundGone(cfg, es, r) && ErrorWritten(cfg, es, r) && AnswerWritten(cfg, es, s, r)
  {
    hide Reached, EntryFoundGone, RepliesTo;
    if GetsTwoReplies(s, r) {
      var m: nat, n: nat :| m < n < |s.wire| && RepliesTo(s, s.wire[m], r) && RepliesTo(s, s.wire[n], r);
      TwoNeed(cfg, es, s, r, m, n);
    }
    if ErrorWritten(cfg, es, r) && AnswerWritten(cfg, es, s, r) {
      TwoCome(cfg, es, s, r);
    }
  }

  lemma TwoCome(cfg: Config, es: seq<Event>, s: State, r: nat)
    requires Reached(cfg, es, s) && ErrorWritten(cfg, es, r) && AnswerWritten(cfg, es, s, r)
    ensures GetsTwoReplies(s, r)
  {
    hide Reached, AnsweredRequest, WritesFor;
    var k: nat :| WritesFor(cfg, es, k, ErrorFor(r));
    var l: nat, a: nat :| WritesAnswer(cfg, es, s, r, l, a);
    OnWireExactly(cfg, es, s, ErrorFor(r));
    OnWireExactly(cfg, es, s, AnswerFrom(a));
    var m: nat :| m < |s.wire| && s.wire[m].cause == ErrorFor(r);
    var n: nat :| n < |s.wire| && s.wire[n].cause == AnswerFrom(a);
    assert RepliesTo(s, s.wire[m], r) && RepliesTo(s, s.wire[n], r);
    assert m < n || n < m;
  }

  lemma TwoNeed(cfg: Config, es: seq<Event>, s: State, r: nat, m: nat, n: nat)
    requires Reached(cfg, es, s) && NoWrap(s) && m < n < |s.wire| && RepliesTo(s, s.wire[m], r)
             && RepliesTo(s, s.wire[n], r)
    ensures EntryFoundGone(cfg, es, r) && ErrorWritten(cfg, es, r) && AnswerWritten(cfg, es, s, r)
  {
    hide Inv, HopByHop, AnsweredRequest, Enabled, After, TakesBack, TakesBackLate, WritesFor, Reached, RepliesTo,
         TriedInVain;
    InvAlways(cfg, es, s);
    ReplyCause(cfg, s, m, r);
    ReplyCause(cfg, s, n, r);
    TwoReplies(cfg, es, s, m, n, r);
    assert TriedInVain(s.requests[r].stage) by { TriedIs(s.requests[r].stage); }
    TookBack(cfg, es, s, r);
    var k: nat :| TakesBack(cfg, es, k, r);
    var a := if s.wire[m].cause.AnswerFrom? then s.wire[m].cause.a else s.wire[n].cause.a;
    LateIfAnswered(cfg, es, s, k, r, a);
    OnWireExactly(cfg, es, s, ErrorFor(r));
    OnWireExactly(cfg, es, s, AnswerFrom(a));
    var l: nat :| WritesFor(cfg, es, l, AnswerFrom(a));
    assert WritesAnswer(cfg, es, s, r, l, a);
  }

  lemma TriedIs(g: Stage)
    requires g.Refused? && g.tried.Some?
    ensures TriedInVain(g)
  {
  }
}
