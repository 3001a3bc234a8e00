/** One step of the relay: the shape every state has, and what a step can change. */
module RelaySteps {
  import opened Wrappers
  import opened Bytes
  import opened Headers
  import opened Rewriter
  import opened RelayTables
  import opened ProtocolErrors
  import opened Relay

  // --- identifiers and draws ---

  /** The identifier the i-th draw from the counter gives. */
  function IdOf(i: nat): (id: u32) {
    (i + 1) % 0x1_0000_0000
  }

  /** The first draw that gives an identifier. */
  function IssueOf(id: u32): (i: nat) {
    if id == 0 then 0xFFFF_FFFF else id - 1
  }

  /** Two draws give the same identifier exactly when they are a multiple of 2^32 apart. */
  lemma IdsCollide(i: nat, j: nat)
    ensures IdOf(i) == IdOf(j) <==> (j - i) % 0x1_0000_0000 == 0
  {
    var a, b := i + 1, j + 1;
    assert b - a == (b / 0x1_0000_0000 - a / 0x1_0000_0000) * 0x1_0000_0000 + (b % 0x1_0000_0000 - a % 0x1_0000_0000);
  }

  lemma IssueOfId(i: nat)
    requires i < U32_SPAN
    ensures IssueOf(IdOf(i)) == i
  {
  }

  // --- the shape of a state ---

  predicate RequestFits(s: State, r: nat)
    requires r < |s.requests|
  {
    var q := s.requests[r];
    && q.from in s.handlers && |q.msg| >= HEADER_LENGTH
    && (q.stage.Final() || s.handlers[q.from] == Working(r))
    && (q.stage.Drawn().Some? ==>
          var t := q.stage.Drawn().value;
          t.i < |s.issued| && s.issued[t.i] == r && t.id == IdOf(t.i))
  }

  predicate AnswerFits(s: State, a: nat)
    requires a < |s.answers|
  {
    var x := s.answers[a];
    x.from in s.handlers && |x.msg| >= HEADER_LENGTH && (x.phase.Final() || s.handlers[x.from] == Relaying(a))
  }

  predicate HandlerFits(s: State, p: PeerId)
    requires p in s.handlers
  {
    match s.handlers[p]
    case Working(r) => r < |s.requests| && s.requests[r].from == p && !s.requests[r].stage.Final()
    case Relaying(a) => a < |s.answers| && s.answers[a].from == p && !s.answers[a].phase.Final()
    case _ => true
  }

  predicate DrawFits(s: State, i: nat)
    requires i < |s.issued|
  {
    s.issued[i] < |s.requests| && s.requests[s.issued[i]].stage.Drawn() == Some(Ticket(i, IdOf(i)))
  }

  predicate Shape(s: State) {
    && s.hbhSeq == |s.issued| % 0x1_0000_0000
    && s.handlers.Keys == s.ids.Keys
    && (forall r {:trigger RequestFits(s, r)} :: 0 <= r < |s.requests| ==> RequestFits(s, r))
    && (forall a {:trigger AnswerFits(s, a)} :: 0 <= a < |s.answers| ==> AnswerFits(s, a))
    && (forall p {:trigger HandlerFits(s, p)} :: p in s.handlers ==> HandlerFits(s, p))
    && (forall i {:trigger DrawFits(s, i)} :: 0 <= i < |s.issued| ==> DrawFits(s, i))
  }

  /** A handler turns to something that is neither a request nor an answer. */
  lemma ShapeOfTurn(s: State, s': State, p: PeerId, h: Handler)
    requires Shape(s) && (p in s.handlers ==> !s.handlers[p].Working? && !s.handlers[p].Relaying?)
    requires !h.Working? && !h.Relaying?
    requires s'.handlers == s.handlers[p := h] && s'.ids.Keys == s.ids.Keys + {p}
    requires s'.requests == s.requests && s'.answers == s.answers && s'.issued == s.issued && s'.hbhSeq == s.hbhSeq
    ensures Shape(s')
  {
    forall r | 0 <= r < |s.requests| ensures RequestFits(s', r) { assert RequestFits(s, r); }
    forall a | 0 <= a < |s.answers| ensures AnswerFits(s', a) { assert AnswerFits(s, a); }
    forall q | q in s'.handlers ensures HandlerFits(s', q) { assert q in s.handlers ==> HandlerFits(s, q); }
    forall i | 0 <= i < |s.issued| ensures DrawFits(s', i) { assert DrawFits(s, i); }
  }

  lemma ShapeOfNewRequest(s: State, p: PeerId, msg: bytes)
    requires Shape(s) && At(s, p, Reading) && |msg| >= HEADER_LENGTH
    ensures Shape(Turn(s, p, Working(|s.requests|)).(requests := s.requests + [Request(p, msg, Read)]))
  {
    var s' := Turn(s, p, Working(|s.requests|)).(requests := s.requests + [Request(p, msg, Read)]);
    forall r | 0 <= r < |s'.requests| ensures RequestFits(s', r) { assert r < |s.requests| ==> RequestFits(s, r); }
    forall a | 0 <= a < |s.answers| ensures AnswerFits(s', a) { assert AnswerFits(s, a); }
    forall q | q in s'.handlers ensures HandlerFits(s', q) { assert HandlerFits(s, q); }
    forall i | 0 <= i < |s.issued| ensures DrawFits(s', i) { assert DrawFits(s, i); }
  }

  lemma ShapeOfNewAnswer(s: State, p: PeerId, msg: bytes)
    requires Shape(s) && At(s, p, Reading) && |msg| >= HEADER_LENGTH
    ensures Shape(Turn(s, p, Relaying(|s.answers|)).(answers := s.answers + [Answer(p, msg, Looking)]))
  {
    var s' := Turn(s, p, Relaying(|s.answers|)).(answers := s.answers + [Answer(p, msg, Looking)]);
    forall r | 0 <= r < |s.requests| ensures RequestFits(s', r) { assert RequestFits(s, r); }
    forall a | 0 <= a < |s'.answers| ensures AnswerFits(s', a) { assert a < |s.answers| ==> AnswerFits(s, a); }
    forall q | q in s'.handlers ensures HandlerFits(s', q) { assert HandlerFits(s, q); }
    forall i | 0 <= i < |s.issued| ensures DrawFits(s', i) { assert DrawFits(s, i); }
  }

  /** A request moves on and keeps the number drawn for it, if any. */
  lemma ShapeOfMove(s: State, p: PeerId, g: Stage)
    requires Shape(s) && Busy(s, p) && g.Drawn() == StageOf(s, p).Drawn()
    ensures Shape(Move(s, p, g))
  {
    var s' := Move(s, p, g);
    assert HandlerFits(s, p);
    forall r | 0 <= r < |s.requests| ensures RequestFits(s', r) { assert RequestFits(s, r); }
    forall a | 0 <= a < |s.answers| ensures AnswerFits(s', a) { assert AnswerFits(s, a); }
    forall q | q in s'.handlers ensures HandlerFits(s', q) { assert HandlerFits(s, q); }
    forall i | 0 <= i < |s.issued| ensures DrawFits(s', i) { assert DrawFits(s, i); }
  }

  lemma ShapeOfDraw(s: State, p: PeerId, to: PeerId)
    requires Shape(s) && Busy(s, p) && StageOf(s, p).Drawn().None?
    ensures var id: u32 := (s.hbhSeq + 1) % 0x1_0000_0000;
            id == IdOf(|s.issued|)
            && Shape(Move(s, p, Numbered(to, Ticket(|s.issued|, id))).(hbhSeq := id,
                                                                          issued := s.issued + [s.handlers[p].r]))
  {
    var id: u32 := (s.hbhSeq + 1) % 0x1_0000_0000;
    var s' := Move(s, p, Numbered(to, Ticket(|s.issued|, id))).(hbhSeq := id, issued := s.issued + [s.handlers[p].r]);
    assert id == IdOf(|s.issued|);
    assert HandlerFits(s, p);
    forall r | 0 <= r < |s.requests| ensures RequestFits(s', r) { assert RequestFits(s, r); }
    forall a | 0 <= a < |s.answers| ensures AnswerFits(s', a) { assert AnswerFits(s, a); }
    forall q | q in s'.handlers ensures HandlerFits(s', q) { assert HandlerFits(s, q); }
    forall i | 0 <= i < |s'.issued| ensures DrawFits(s', i) { assert i < |s.issued| ==> DrawFits(s, i); }
  }

  lemma ShapeOfMoveAnswer(s: State, p: PeerId, f: Phase)
    requires Shape(s) && Carrying(s, p)
    ensures Shape(MoveAnswer(s, p, f))
  {
    var s' := MoveAnswer(s, p, f);
    assert HandlerFits(s, p);
    forall r | 0 <= r < |s.requests| ensures RequestFits(s', r) { assert RequestFits(s, r); }
    forall a | 0 <= a < |s.answers| ensures AnswerFits(s', a) { assert AnswerFits(s, a); }
    forall q | q in s'.handlers ensures HandlerFits(s', q) { assert HandlerFits(s, q); }
    forall i | 0 <= i < |s.issued| ensures DrawFits(s', i) { assert DrawFits(s, i); }
  }

  /** The shape does not depend on the tables, the wire and the counts. */
  lemma ShapeElsewhere(s: State, s': State)
    requires Shape(s)
    requires s'.handlers == s.handlers && s'.ids == s.ids && s'.requests == s.requests && s'.answers == s.answers
    requires s'.issued == s.issued && s'.hbhSeq == s.hbhSeq
    ensures Shape(s')
  {
    forall r | 0 <= r < |s.requests| ensures RequestFits(s', r) { assert RequestFits(s, r); }
    forall a | 0 <= a < |s.answers| ensures AnswerFits(s', a) { assert AnswerFits(s, a); }
    forall q | q in s'.handlers ensures HandlerFits(s', q) { assert HandlerFits(s, q); }
    forall i | 0 <= i < |s.issued| ensures DrawFits(s', i) { assert DrawFits(s, i); }
  }

  lemma LifeShapeKept(s: State, p: PeerId, l: LifeStep)
    requires Shape(s) && LifeEnabled(s, p, l)
    ensures Shape(AfterLife(s, p, l))
  {
    assert s.handlers.Keys == s.ids.Keys;
    hide Shape, AfterLife, LifeEnabled, OneTurns, Turns;
    LifeTurns(s, p, l);
    LifeHistory(s, p, l);
    var s' := AfterLife(s, p, l);
    ShapeOfTurn(s, s', p, s'.handlers[p]);
  }

  lemma AnswerShapeKept(cfg: Config, s: State, p: PeerId, x: AnswerStep)
    requires Shape(s) && AnswerEnabled(s, p, x)
    ensures Shape(AfterAnswer(cfg, s, p, x))
  {
    hide Shape, Rewrite, ForwardBytes, HopByHop, MoveAnswer, NextPhase;
    var s' := AfterAnswer(cfg, s, p, x);
    if x.ReadAnswer? {
      ShapeOfNewAnswer(s, p, x.msg);
    } else {
      ShapeElsewhere(s, s.(crashed := true));
      ShapeOfMoveAnswer(s, p, NextPhase(s, p, x));
      if s' != s.(crashed := true) {
        ShapeElsewhere(MoveAnswer(s, p, NextPhase(s, p, x)), s');
      }
    }
  }

  lemma NextDrawn(cfg: Config, s: State, p: PeerId, q: RequestStep)
    requires Busy(s, p)
    ensures var g, now := NextStage(cfg, s, p, q), StageOf(s, p);
            g.Drawn() == now.Drawn()
            || (q.Number? && now.Chosen? && g == Numbered(now.to, Ticket(|s.issued|, (s.hbhSeq + 1) % 0x1_0000_0000))
                && !Rewrite(RequestOf(s, p).msg, cfg.host, cfg.realm).Rejected?)
  {
    hide Rewrite, Routing;
  }

  lemma RequestShapeKept(cfg: Config, s: State, p: PeerId, q: RequestStep)
    requires Shape(s) && RequestEnabled(s, p, q)
    ensures Shape(AfterRequest(cfg, s, p, q))
  {
    hide Shape, Rewrite, ForwardBytes, ErrorAnswer, HostFound, RealmPicked, EntryFor, RoutingTo, Move, NextStage,
         ParseShallow;
    var s' := AfterRequest(cfg, s, p, q);
    if q.ReadRequest? {
      ShapeOfNewRequest(s, p, q.msg);
    } else if q.Number? && !Rewrite(RequestOf(s, p).msg, cfg.host, cfg.realm).Rejected? {
      ShapeElsewhere(s, s.(crashed := true));
      NumberGoes(cfg, s, p);
      ShapeOfDraw(s, p, StageOf(s, p).to);
    } else {
      NextDrawn(cfg, s, p, q);
      ShapeOfMove(s, p, NextStage(cfg, s, p, q));
      ShapeElsewhere(Move(s, p, NextStage(cfg, s, p, q)), s');
    }
  }

  lemma NumberGoes(cfg: Config, s: State, p: PeerId)
    requires Busy(s, p) && StageOf(s, p).Chosen? && !Rewrite(RequestOf(s, p).msg, cfg.host, cfg.realm).Rejected?
    ensures NextStage(cfg, s, p, Number) == Numbered(StageOf(s, p).to,
                                                     Ticket(|s.issued|, (s.hbhSeq + 1) % 0x1_0000_0000))
    ensures StageOf(s, p).Drawn().None?
  {
  }

  lemma ShapeKept(cfg: Config, s: State, e: Event)
    requires Shape(s) && Enabled(s, e)
    ensures Shape(After(cfg, s, e))
  {
    hide Shape, LifeEnabled, RequestEnabled, AnswerEnabled, AfterLife, AfterRequest, AfterAnswer;
    match e
    case Stop => ShapeElsewhere(s, After(cfg, s, e));
    case Life(p, l) => LifeShapeKept(s, p, l);
    case OnRequest(p, q) => RequestShapeKept(cfg, s, p, q);
    case OnAnswer(p, x) => AnswerShapeKept(cfg, s, p, x);
  }

  // --- how a state changes ---

  predicate RequestsGrow(s: State, s': State) {
    && |s.requests| <= |s'.requests|
    && forall r :: 0 <= r < |s.requests| ==>
         var q, q' := s.requests[r], s'.requests[r];
         q'.from == q.from && q'.msg == q.msg && (q.stage.Final() ==> q' == q)
         && (q.stage.Entered() ==> q'.stage.Entered())
  }

  predicate AnswersGrow(s: State, s': State) {
    && |s.answers| <= |s'.answers|
    && forall a :: 0 <= a < |s.answers| ==>
         var x, x' := s.answers[a], s'.answers[a];
         x'.from == x.from && x'.msg == x.msg && (x.phase.Final() ==> x' == x)
         && (x.phase.Took() ==> x'.phase.Took() && x'.phase.e == x.phase.e)
  }

  predicate PeersGrow(s: State, s': State) {
    forall p <- s.handlers :: p in s'.handlers
      && (s.handlers[p].Cleaned() ==> s'.handlers[p].Cleaned())
      && (s.handlers[p].Known() && p in s.ids ==> s'.handlers[p].Known() && p in s'.ids && s'.ids[p] == s.ids[p])
  }

  /** What a later state keeps of an earlier one: who asked what, every final stage, every entry made and every
      match. */
  predicate Evolves(s: State, s': State) {
    s.issued <= s'.issued && RequestsGrow(s, s') && AnswersGrow(s, s') && PeersGrow(s, s')
  }

  /** The requests after a step: one more, or one of them further on, or the same. */
  lemma RequestsAfter(cfg: Config, s: State, e: Event)
    requires Enabled(s, e)
    ensures var s' := After(cfg, s, e);
            match e
            case OnRequest(p, ReadRequest(msg)) => s'.requests == s.requests + [Request(p, msg, Read)]
            case OnRequest(p, q) =>
              Busy(s, p)
              && (s'.requests == s.requests[s.handlers[p].r := RequestOf(s, p).(stage := NextStage(cfg, s, p, q))]
                  || (s'.requests == s.requests && s'.wire == s.wire && s'.pending == s.pending))
            case _ => s'.requests == s.requests
  {
    hide NextStage, Rewrite, ForwardBytes, ErrorAnswer, HostFound, RealmPicked, EntryFor, RoutingTo, ParseShallow,
         NextPhase, Forgotten, Without, IsTraffic, FirstStage;
  }

  lemma AnswersAfter(cfg: Config, s: State, e: Event)
    requires Enabled(s, e)
    ensures var s' := After(cfg, s, e);
            match e
            case OnAnswer(p, ReadAnswer(msg)) => s'.answers == s.answers + [Answer(p, msg, Looking)]
            case OnAnswer(p, x) =>
              Carrying(s, p)
              && (s'.answers == s.answers[s.handlers[p].a := AnswerOf(s, p).(phase := NextPhase(s, p, x))]
                  || (s'.answers == s.answers && s'.wire == s.wire && s'.pending == s.pending))
            case _ => s'.answers == s.answers
  {
    hide NextStage, Rewrite, ForwardBytes, ErrorAnswer, HostFound, RealmPicked, EntryFor, RoutingTo, ParseShallow,
         NextPhase, Forgotten, Without, IsTraffic, FirstStage;
  }

  /** The turns a handler takes in one step. */
  predicate Turns(h: Handler, h': Handler) {
    h' == h || match h
               case Greeting => h'.Joining? || h'.Closing?
               case Joining => h'.Reading?
               case Reading => h'.Working? || h'.Relaying? || h'.Closing?
               case Working(_) => h'.Reading?
               case Relaying(_) => h'.Reading?
               case Closing => h'.Removing?
               case Removing => h'.Gone?
               case Gone => false
  }

  /** At most one handler turns, and identities are set only before a peer joins. */
  predicate OneTurns(s: State, s': State, p: PeerId) {
    && p in s'.handlers && p in s'.ids
    && (s'.handlers == s.handlers || s'.handlers == s.handlers[p := s'.handlers[p]])
    && (if p in s.handlers then Turns(s.handlers[p], s'.handlers[p]) else s'.handlers[p].Greeting?)
    && (s'.ids == s.ids
        || (s'.ids == s.ids[p := s'.ids[p]] && (p in s.handlers ==> !s.handlers[p].Known())))
  }

  lemma HandlersAfter(cfg: Config, s: State, e: Event)
    requires Enabled(s, e) && s.handlers.Keys == s.ids.Keys
    ensures var s' := After(cfg, s, e);
            if e.Stop? then s'.handlers == s.handlers && s'.ids == s.ids
            else
              OneTurns(s, s', e.p)
              && (s'.handlers[e.p].Removing? ==> e.Life? && e.l.Forget?)
              && (s'.handlers[e.p].Gone? ==> e.Life? && e.l.Remove?)
              && (s'.ids == s.ids || (e.Life? && (e.l.Accept? || e.l.Greet?)))
  {
    match e
    case Stop =>
    case Life(p, l) => LifeTurns(s, p, l);
    case OnRequest(p, q) => RequestTurns(cfg, s, p, q);
    case OnAnswer(p, x) => AnswerTurns(cfg, s, p, x);
  }

  lemma LifeTurns(s: State, p: PeerId, l: LifeStep)
    requires LifeEnabled(s, p, l) && s.handlers.Keys == s.ids.Keys
    ensures var s' := AfterLife(s, p, l);
            p in s'.handlers && OneTurns(s, s', p) && (s'.handlers[p].Removing? ==> l.Forget?)
            && (s'.handlers[p].Gone? ==> l.Remove?)
            && (s'.ids == s.ids || l.Accept? || l.Greet?)
            && s'.ids.Keys == s.ids.Keys + {p} && s'.handlers == s.handlers[p := s'.handlers[p]]
            && !s'.handlers[p].Working? && !s'.handlers[p].Relaying?
  {
    hide Forgotten, Without, KeyOf;
    assert p in s.handlers ==> s.ids.Keys + {p} == s.ids.Keys;
  }

  lemma RequestTurns(cfg: Config, s: State, p: PeerId, q: RequestStep)
    requires RequestEnabled(s, p, q) && s.handlers.Keys == s.ids.Keys
    ensures var s' := AfterRequest(cfg, s, p, q);
            OneTurns(s, s', p) && !s'.handlers[p].Cleaned() && s'.ids == s.ids
  {
    hide NextStage, Rewrite, ForwardBytes, ErrorAnswer, HostFound, RealmPicked, EntryFor, RoutingTo, ParseShallow,
         IsTraffic;
  }

  lemma AnswerTurns(cfg: Config, s: State, p: PeerId, x: AnswerStep)
    requires AnswerEnabled(s, p, x) && s.handlers.Keys == s.ids.Keys
    ensures var s' := AfterAnswer(cfg, s, p, x);
            OneTurns(s, s', p) && !s'.handlers[p].Cleaned() && s'.ids == s.ids
  {
    hide NextPhase, Rewrite, ForwardBytes, ParseShallow, IsTraffic;
  }

  lemma IssuedAfter(cfg: Config, s: State, e: Event)
    requires Enabled(s, e)
    ensures var s' := After(cfg, s, e);
            s'.issued == s.issued
            || (e.OnRequest? && e.q.Number? && Busy(s, e.p) && s'.issued == s.issued + [s.handlers[e.p].r])
  {
    hide Busy;
    match e
    case Stop =>
    case Life(p, l) => LifeHistory(s, p, l);
    case OnRequest(p, q) => RequestIssues(cfg, s, p, q);
    case OnAnswer(p, x) => AnswerIssues(cfg, s, p, x);
  }

  lemma LifeHistory(s: State, p: PeerId, l: LifeStep)
    requires LifeEnabled(s, p, l)
    ensures var s' := AfterLife(s, p, l);
            s'.issued == s.issued && s'.requests == s.requests && s'.answers == s.answers && s'.hbhSeq == s.hbhSeq
            && s'.wire == s.wire
    ensures p in s.handlers ==> !s.handlers[p].Working? && !s.handlers[p].Relaying?
  {
    hide Forgotten, Without, KeyOf;
  }

  lemma RequestIssues(cfg: Config, s: State, p: PeerId, q: RequestStep)
    requires RequestEnabled(s, p, q)
    ensures var s' := AfterRequest(cfg, s, p, q);
            s'.peers == s.peers
            && (s'.issued == s.issued || (q.Number? && Busy(s, p) && s'.issued == s.issued + [s.handlers[p].r]))
  {
    hide NextStage, Rewrite, ForwardBytes, ErrorAnswer, HostFound, RealmPicked, EntryFor, RoutingTo, ParseShallow,
         IsTraffic;
  }

  lemma AnswerIssues(cfg: Config, s: State, p: PeerId, x: AnswerStep)
    requires AnswerEnabled(s, p, x)
    ensures AfterAnswer(cfg, s, p, x).issued == s.issued && AfterAnswer(cfg, s, p, x).peers == s.peers
  {
    hide NextPhase, Rewrite, ForwardBytes, ParseShallow, IsTraffic;
  }

  /** A stage that is final stays, and a request once entered in the table remains one that was. */
  lemma NextStageGrows(cfg: Config, s: State, p: PeerId, q: RequestStep)
    requires Busy(s, p) && !StageOf(s, p).Final()
    ensures StageOf(s, p).Entered() ==> NextStage(cfg, s, p, q).Entered()
  {
    hide Rewrite, FirstStage;
  }

  lemma RequestsStepGrow(cfg: Config, s: State, e: Event)
    requires Shape(s) && Enabled(s, e)
    ensures RequestsGrow(s, After(cfg, s, e))
  {
    assert forall p <- s.handlers :: HandlerFits(s, p);
    hide Enabled, After, NextStage, Shape;
    RequestsAfter(cfg, s, e);
    if e.OnRequest? && !e.q.ReadRequest? {
      NextStageGrows(cfg, s, e.p, e.q);
    }
  }

  lemma AnswersStepGrow(cfg: Config, s: State, e: Event)
    requires Shape(s) && Enabled(s, e)
    ensures AnswersGrow(s, After(cfg, s, e))
  {
    assert forall p <- s.handlers :: HandlerFits(s, p);
    hide Enabled, After, Shape, HopByHop;
    AnswersAfter(cfg, s, e);
  }

  lemma PeersStepGrow(cfg: Config, s: State, e: Event)
    requires s.handlers.Keys == s.ids.Keys && Enabled(s, e)
    ensures PeersGrow(s, After(cfg, s, e))
  {
    hide Enabled, After;
    HandlersAfter(cfg, s, e);
  }

  lemma StepEvolves(cfg: Config, s: State, e: Event)
    requires Shape(s) && Enabled(s, e)
    ensures Evolves(s, After(cfg, s, e))
  {
    assert s.handlers.Keys == s.ids.Keys;
    hide RequestsGrow, AnswersGrow, PeersGrow, Enabled, After, Shape;
    RequestsStepGrow(cfg, s, e);
    AnswersStepGrow(cfg, s, e);
    PeersStepGrow(cfg, s, e);
    IssuedAfter(cfg, s, e);
  }

  lemma LifePeers(s: State, p: PeerId, l: LifeStep)
    requires LifeEnabled(s, p, l)
    ensures l.Join? || l.Remove? ==> p in s.ids
    ensures AfterLife(s, p, l).peers
            == if l.Join? then s.peers[KeyOf(s.ids[p]) := p]
               else if l.Remove? then Without(s.peers, KeyOf(s.ids[p]), p)
               else s.peers
  {
    hide Forgotten, Without, KeyOf;
  }

  lemma PeersAfter(cfg: Config, s: State, e: Event)
    requires Enabled(s, e)
    ensures e.Life? && (e.l.Join? || e.l.Remove?) ==> e.p in s.ids
    ensures After(cfg, s, e).peers
            == if e.Stop? then map[]
               else if e.Life? && e.l.Join? then s.peers[KeyOf(s.ids[e.p]) := e.p]
               else if e.Life? && e.l.Remove? then Without(s.peers, KeyOf(s.ids[e.p]), e.p)
               else s.peers
  {
    hide AfterLife, AfterRequest, AfterAnswer, LifeEnabled, RequestEnabled, AnswerEnabled, KeyOf, Without;
    match e
    case Stop =>
    case Life(p, l) => LifePeers(s, p, l);
    case OnRequest(p, q) => RequestIssues(cfg, s, p, q);
    case OnAnswer(p, x) => AnswerIssues(cfg, s, p, x);
  }

  // --- the pending table and the wire ---

  lemma LifeTables(s: State, p: PeerId, l: LifeStep)
    requires LifeEnabled(s, p, l)
    ensures var s' := AfterLife(s, p, l);
            s'.puts == s.puts && s'.takes == s.takes && s'.overwritten == s.overwritten
            && s'.pending == (if l.Forget? then Forgotten(s.pending, p) else s.pending)
            && s'.forgotten == s.forgotten + if l.Forget? then |s.pending.Keys - Forgotten(s.pending, p).Keys| else 0
  {
    hide Forgotten, Without, KeyOf;
  }

  lemma RequestTables(cfg: Config, s: State, p: PeerId, q: RequestStep)
    requires RequestEnabled(s, p, q)
    ensures var s' := AfterRequest(cfg, s, p, q);
            s'.forgotten == s.forgotten
            && if q.Store? then
                 Busy(s, p) && StageOf(s, p).Numbered?
                 && var id := StageOf(s, p).t.id;
                    s'.pending == s.pending[id := EntryFor(p, RequestOf(s, p).msg)]
                    && s'.puts == s.puts + 1 && s'.takes == s.takes
                    && s'.overwritten == s.overwritten + if id in s.pending then 1 else 0
               else
                 s'.puts == s.puts && s'.overwritten == s.overwritten
                 && if q.TakeBack? then
                      Busy(s, p) && StageOf(s, p).Unsent?
                      && var id := StageOf(s, p).t.id;
                         s'.pending == s.pending - {id} && s'.takes == s.takes + if id in s.pending then 1 else 0
                    else
                      s'.pending == s.pending && s'.takes == s.takes
  {
    hide NextStage, Rewrite, ForwardBytes, ErrorAnswer, HostFound, RealmPicked, EntryFor, RoutingTo, ParseShallow,
         IsTraffic;
  }

  lemma AnswerTables(cfg: Config, s: State, p: PeerId, x: AnswerStep)
    requires AnswerEnabled(s, p, x)
    ensures var s' := AfterAnswer(cfg, s, p, x);
            s'.puts == s.puts && s'.overwritten == s.overwritten && s'.forgotten == s.forgotten
            && if x.Take? then
                 Carrying(s, p)
                 && var id := HopByHop(AnswerOf(s, p).msg);
                    s'.pending == s.pending - {id} && s'.takes == s.takes + if id in s.pending then 1 else 0
               else
                 s'.pending == s.pending && s'.takes == s.takes
  {
    hide NextPhase, Rewrite, ForwardBytes, ParseShallow, IsTraffic, HopByHop;
  }

  /** What a step of forwardRequest writes. */
  lemma RequestWrites(cfg: Config, s: State, p: PeerId, q: RequestStep)
    requires RequestEnabled(s, p, q)
    ensures var s' := AfterRequest(cfg, s, p, q);
            s'.wire == s.wire
            || (Busy(s, p)
                && var g, msg, r := StageOf(s, p), RequestOf(s, p).msg, s.handlers[p].r;
                   (g.Stored? && NextStage(cfg, s, p, q) == Forwarded(g.to, g.t)
                    && s'.wire == s.wire + [Packet(g.to, ForwardBytes(cfg, msg, g.t.id), ForwardOf(r))])
                   || (g.Refusing? && NextStage(cfg, s, p, q) == Refused(g.code, g.tried)
                       && s'.wire == s.wire + [Packet(p, ErrorAnswer(ParseShallow(msg), g.code, cfg.host, cfg.realm),
                                                      ErrorFor(r))]))
  {
    hide Rewrite, ForwardBytes, ErrorAnswer, HostFound, RealmPicked, EntryFor, RoutingTo, ParseShallow, IsTraffic,
         FirstStage;
  }

  lemma AnswerWrites(cfg: Config, s: State, p: PeerId, x: AnswerStep)
    requires AnswerEnabled(s, p, x)
    ensures var s' := AfterAnswer(cfg, s, p, x);
            s'.wire == s.wire
            || (Carrying(s, p)
                && var y, a := AnswerOf(s, p), s.handlers[p].a;
                   y.phase.Holding? && NextPhase(s, p, x) == Matched(y.phase.e)
                   && Rewrite(y.msg, cfg.host, cfg.realm).Rewritten?
                   && s'.wire == s.wire + [Packet(y.phase.e.origPeer, ForwardBytes(cfg, y.msg, y.phase.e.origHbH),
                                                  AnswerFrom(a))])
  {
    hide ForwardBytes, Rewrite, ParseShallow, IsTraffic, HopByHop;
  }
}
