/** What every run of the relay keeps. */
module RelaySafety {
  import opened Wrappers
  import opened Bytes
  import opened Headers
  import opened Avps
  import opened Rewriter
  import opened Rewriting
  import opened RelayTables
  import opened ProtocolErrors
  import opened Relay
  import opened RelaySteps

  // --- the registry ---

  predicate RowFits(s: State, k: Key)
    requires k in s.peers
  {
    var p := s.peers[k];
    p in s.handlers && s.handlers[p].Up() && p in s.ids && KeyOf(s.ids[p]) == k
  }

  /** The registry leads only to peers that have joined and not been removed, each under its own key. */
  predicate RegistryFits(s: State) {
    forall k {:trigger RowFits(s, k)} :: k in s.peers ==> RowFits(s, k)
  }

  lemma RegistryKept(cfg: Config, s: State, e: Event)
    requires Shape(s) && RegistryFits(s) && Enabled(s, e)
    ensures RegistryFits(After(cfg, s, e))
  {
    assert s.handlers.Keys == s.ids.Keys;
    hide Shape, Enabled, After, RowFits;
    forall k | k in After(cfg, s, e).peers
      ensures RowFits(After(cfg, s, e), k)
    {
      RowKept(cfg, s, e, k);
    }
  }

  lemma RowKept(cfg: Config, s: State, e: Event, k: Key)
    requires s.handlers.Keys == s.ids.Keys && Enabled(s, e) && k in After(cfg, s, e).peers
    requires k in s.peers ==> RowFits(s, k)
    ensures RowFits(After(cfg, s, e), k)
  {
    hide Enabled, After, KeyOf;
    PeersAfter(cfg, s, e);
    HandlersAfter(cfg, s, e);
    JoinsReading(cfg, s, e);
  }

  lemma JoinsReading(cfg: Config, s: State, e: Event)
    requires Enabled(s, e)
    ensures e.Life? && e.l.Join? ==> var s' := After(cfg, s, e); e.p in s'.handlers && s'.handlers[e.p].Reading?
    ensures e.Life? && (e.l.Accept? || e.l.Greet?) ==> e.p in s.handlers ==> s.handlers[e.p].Greeting?
  {
    hide AfterRequest, AfterAnswer, RequestEnabled, AnswerEnabled, KeyOf, Forgotten, Without;
  }

  lemma RegistryDomain(s: State)
    requires RegistryFits(s)
    ensures s.peers.Values <= s.ids.Keys
  {
    forall p | p in s.peers.Values
      ensures p in s.ids
    {
      var k :| k in s.peers && s.peers[k] == p;
      assert RowFits(s, k);
    }
  }

  // --- routing ---

  /** Can the message be routed at all? */
  predicate Routable(msg: bytes) {
    Routing(msg).Some? && RoutingTo(msg).destinationRealm != []
  }

  /** The only code a request can be refused with. */
  function RefusalCode(msg: bytes): (code: u32) {
    if Routing(msg).None? then DIAMETER_INVALID_AVP_VALUE
    else if RoutingTo(msg).destinationRealm == [] then DIAMETER_REALM_NOT_SERVED
    else DIAMETER_UNABLE_TO_DELIVER
  }

  /** A peer the request may go to: one that has joined, not its sender, of the host or the realm it names. */
  predicate Suits(s: State, q: Request, to: PeerId) {
    to != q.from && to in s.handlers && s.handlers[to].Known() && to in s.ids
    && ((RoutingTo(q.msg).destinationHost != [] && s.ids[to].host == RoutingTo(q.msg).destinationHost)
        || s.ids[to].realm == RoutingTo(q.msg).destinationRealm)
  }

  predicate Routed(s: State, q: Request) {
    match q.stage
    case Read => true
    case ByHost => Routable(q.msg) && RoutingTo(q.msg).destinationHost != []
    case ByRealm => Routable(q.msg)
    case Refusing(code, _) => code == RefusalCode(q.msg)
    case Refused(code, _) => code == RefusalCode(q.msg)
    case _ => Routable(q.msg) && Suits(s, q, q.stage.to)
  }

  predicate AllRouted(s: State) {
    forall q <- s.requests :: Routed(s, q)
  }

  /** Once extractRouting has succeeded the rewriting cannot fail: no request is ever refused as unable to comply. */
  lemma RoutableRewrites(msg: bytes, host: bytes, realm: bytes)
    requires Routing(msg).Some?
    ensures !Rewrite(msg, host, realm).Rejected?
  {
    RewriteOutcome(msg, host, realm);
  }

  lemma FoundSuits(s: State, q: Request, found: PeerId)
    requires RegistryFits(s) && Registered(s.peers, found) && found != q.from
    requires found in s.ids
    requires (RoutingTo(q.msg).destinationHost != [] && s.ids[found].host == RoutingTo(q.msg).destinationHost)
             || s.ids[found].realm == RoutingTo(q.msg).destinationRealm
    ensures Suits(s, q, found)
  {
    var k :| k in s.peers && s.peers[k] == found;
    assert RowFits(s, k);
  }

  lemma NextRouted(cfg: Config, s: State, p: PeerId, q: RequestStep)
    requires RegistryFits(s) && RequestEnabled(s, p, q) && Busy(s, p)
    requires RequestOf(s, p).from == p && Routed(s, RequestOf(s, p))
    ensures Routed(s, RequestOf(s, p).(stage := NextStage(cfg, s, p, q)))
  {
    var now := RequestOf(s, p);
    hide Rewrite, Routing, RoutingTo, RegistryFits;
    RegistryDomain(s);
    match (q, now.stage)
    case (FindHost(found), ByHost) =>
      if found.Some? && found.value != p {
        FoundSuits(s, now, found.value);
      }
    case (FindRealm(found), ByRealm) =>
      if found.Some? {
        FoundSuits(s, now, found.value);
      }
    case (Route, Read) =>
      FirstRouted(now.msg);
    case (Number, Chosen(_)) =>
      RoutableRewrites(now.msg, cfg.host, cfg.realm);
    case (TakeBack, Unsent(_, _)) =>
    case (_, _) =>
  }

  lemma FirstRouted(msg: bytes)
    ensures match FirstStage(msg)
            case Refusing(code, _) => code == RefusalCode(msg)
            case ByHost => Routable(msg) && RoutingTo(msg).destinationHost != []
            case ByRealm => Routable(msg)
            case _ => false
  {
    hide Routing;
  }

  lemma RoutingKept(cfg: Config, s: State, e: Event)
    requires Shape(s) && RegistryFits(s) && AllRouted(s) && Enabled(s, e)
    ensures AllRouted(After(cfg, s, e))
  {
    var s' := After(cfg, s, e);
    assert forall p <- s.handlers :: HandlerFits(s, p);
    if e.OnRequest? && !e.q.ReadRequest? {
      assert RequestEnabled(s, e.p, e.q);
      MovesRequest(s, e.p, e.q);
      assert RequestOf(s, e.p) in s.requests;
      NextRouted(cfg, s, e.p, e.q);
    }
    PeersStepGrow(cfg, s, e);
    RequestsAfter(cfg, s, e);
    hide Shape, Enabled, After, Routed, RegistryFits, PeersGrow, NextStage;
    forall r | 0 <= r < |s'.requests|
      ensures Routed(s', s'.requests[r])
    {
      RoutedRead(s', s'.requests[r]);
      RoutedAfter(s, s', s'.requests[r]);
    }
  }

  lemma MovesRequest(s: State, p: PeerId, q: RequestStep)
    requires RequestEnabled(s, p, q) && !q.ReadRequest?
    ensures Busy(s, p)
  {
  }

  lemma RoutedRead(s: State, q: Request)
    ensures q.stage.Read? ==> Routed(s, q)
  {
  }

  lemma RoutedAfter(s: State, s': State, q: Request)
    requires PeersGrow(s, s')
    ensures Routed(s, q) ==> Routed(s', q)
  {
    hide Routing, RoutingTo;
  }

  // --- table entries and the requests behind them ---

  /** The i-th draw gave this identifier, and its request made this entry. */
  predicate IssuedAs(s: State, i: nat, id: u32, e: Entry) {
    i < |s.issued| && IdOf(i) == id && s.issued[i] < |s.requests|
    && var q := s.requests[s.issued[i]];
       |q.msg| >= HEADER_LENGTH && q.stage.Entered() && e == EntryFor(q.from, q.msg)
  }

  ghost predicate Traced(s: State, id: u32, e: Entry) {
    exists i :: IssuedAs(s, i, id, e)
  }

  ghost predicate EntryFits(s: State, id: u32)
    requires id in s.pending
  {
    var e := s.pending[id];
    Traced(s, id, e) && e.origPeer in s.handlers && !s.handlers[e.origPeer].Cleaned()
  }

  ghost predicate MatchFits(s: State, a: nat)
    requires a < |s.answers|
  {
    s.answers[a].phase.Took() ==> Traced(s, HopByHop(s.answers[a].msg), s.answers[a].phase.e)
  }

  /** Every entry, in the table or taken by an answer, was made by a request whose identifier leads to it; and no
      entry in the table names a peer whose handler has run its cleanup. */
  ghost predicate EntriesFit(s: State) {
    && (forall id {:trigger EntryFits(s, id)} :: id in s.pending ==> EntryFits(s, id))
    && (forall a {:trigger MatchFits(s, a)} :: 0 <= a < |s.answers| ==> MatchFits(s, a))
  }

  lemma TracedLater(s: State, s': State, id: u32, e: Entry)
    requires Evolves(s, s') && Traced(s, id, e)
    ensures Traced(s', id, e)
  {
    hide EntryFor, AnswersGrow, PeersGrow;
    var i :| IssuedAs(s, i, id, e);
    assert IssuedAs(s', i, id, e);
  }

  /** Only Forget makes a peer one that has been cleaned up. */
  lemma CleanedByForget(cfg: Config, s: State, e: Event, p: PeerId)
    requires s.handlers.Keys == s.ids.Keys && Enabled(s, e) && p in s.handlers && !s.handlers[p].Cleaned()
    ensures var s' := After(cfg, s, e);
            p in s'.handlers && (s'.handlers[p].Cleaned() ==> e.Life? && e.l.Forget? && e.p == p)
  {
    hide Enabled, After;
    HandlersAfter(cfg, s, e);
  }

  lemma EntryKept(cfg: Config, s: State, e: Event, id: u32)
    requires Shape(s) && Enabled(s, e) && id in s.pending && EntryFits(s, id)
    requires !(e.Life? && e.l.Forget? && e.p == s.pending[id].origPeer)
    ensures var s' := After(cfg, s, e); id in s'.pending && s'.pending[id] == s.pending[id] ==> EntryFits(s', id)
  {
    assert s.handlers.Keys == s.ids.Keys;
    hide Shape, Enabled, After, Evolves, Traced;
    StepEvolves(cfg, s, e);
    TracedLater(s, After(cfg, s, e), id, s.pending[id]);
    CleanedByForget(cfg, s, e, s.pending[id].origPeer);
  }

  /** What is in the table after a step was there before, except for the entry a Store makes. */
  lemma PendingAfter(cfg: Config, s: State, e: Event, id: u32)
    requires Enabled(s, e)
    ensures var s' := After(cfg, s, e);
            id in s'.pending ==>
              (id in s.pending && s'.pending[id] == s.pending[id]
               && !(e.Life? && e.l.Forget? && s.pending[id].origPeer == e.p))
              || (e.OnRequest? && e.q.Store? && Busy(s, e.p) && StageOf(s, e.p).Numbered? && id == StageOf(s, e.p).t.id
                  && s'.pending[id] == EntryFor(e.p, RequestOf(s, e.p).msg))
  {
    hide AfterLife, AfterRequest, AfterAnswer, LifeEnabled, RequestEnabled, AnswerEnabled, EntryFor;
    match e
    case Stop =>
    case Life(p, l) => LifeTables(s, p, l);
    case OnRequest(p, q) => RequestTables(cfg, s, p, q);
    case OnAnswer(p, x) => AnswerTables(cfg, s, p, x);
  }

  lemma StoredTraced(cfg: Config, s: State, p: PeerId)
    requires Shape(s) && !s.crashed && RequestEnabled(s, p, Store)
    ensures Busy(s, p) && StageOf(s, p).Numbered?
    ensures var s' := After(cfg, s, OnRequest(p, Store));
            Traced(s', StageOf(s, p).t.id, EntryFor(p, RequestOf(s, p).msg))
            && p in s'.handlers && !s'.handlers[p].Cleaned()
  {
    var e := OnRequest(p, Store);
    assert HandlerFits(s, p) && RequestFits(s, s.handlers[p].r) && s.handlers.Keys == s.ids.Keys;
    assert Enabled(s, e) && NextStage(cfg, s, p, Store).Stored? && NextStage(cfg, s, p, Store).t == StageOf(s, p).t;
    assert RequestOf(s, p).from == p;
    hide Shape, Enabled, After, RequestEnabled, NextStage, Traced, RequestFits, HandlerFits;
    RequestsAfter(cfg, s, e);
    IssuedAfter(cfg, s, e);
    CleanedByForget(cfg, s, e, p);
    StoredIssued(s, After(cfg, s, e), p, NextStage(cfg, s, p, Store));
  }

  lemma StoredIssued(s: State, s': State, p: PeerId, g: Stage)
    requires Busy(s, p) && RequestFits(s, s.handlers[p].r) && StageOf(s, p).Numbered? && g.Stored?
             && g.t == StageOf(s, p).t
    requires s'.issued == s.issued && RequestOf(s, p).from == p
    requires s'.requests == s.requests[s.handlers[p].r := RequestOf(s, p).(stage := g)]
             || (s'.requests == s.requests && s'.pending == s.pending)
    ensures s'.requests != s.requests ==> Traced(s', g.t.id, EntryFor(p, RequestOf(s, p).msg))
  {
    hide EntryFor;
    if s'.requests != s.requests {
      assert IssuedAs(s', g.t.i, g.t.id, EntryFor(p, RequestOf(s, p).msg));
    }
  }

  lemma PendingKept(cfg: Config, s: State, e: Event, id: u32)
    requires Shape(s) && EntriesFit(s) && Enabled(s, e) && id in After(cfg, s, e).pending
    ensures EntryFits(After(cfg, s, e), id)
  {
    assert id in s.pending ==> EntryFits(s, id);
    assert e.OnRequest? ==> RequestEnabled(s, e.p, e.q) && !s.crashed;
    hide Shape, Enabled, After, EntriesFit, RequestEnabled, EntryFor, Traced, Busy;
    PendingAfter(cfg, s, e, id);
    if id in s.pending && !(e.Life? && e.l.Forget? && s.pending[id].origPeer == e.p) {
      EntryKept(cfg, s, e, id);
    }
    if e.OnRequest? && e.q.Store? {
      StoredTraced(cfg, s, e.p);
    }
  }

  lemma MatchKept(cfg: Config, s: State, e: Event, a: nat)
    requires Shape(s) && EntriesFit(s) && Enabled(s, e) && a < |After(cfg, s, e).answers|
    ensures MatchFits(After(cfg, s, e), a)
  {
    var s' := After(cfg, s, e);
    assert a < |s.answers| ==> MatchFits(s, a);
    StepEvolves(cfg, s, e);
    AnswersAfter(cfg, s, e);
    if s'.answers[a].phase.Took() {
      var id, entry := HopByHop(s'.answers[a].msg), s'.answers[a].phase.e;
      if a < |s.answers| && s.answers[a].phase.Took() {
        TracedLater(s, s', id, entry);
      } else {
        assert EntryFits(s, id);
        TracedLater(s, s', id, entry);
      }
    }
  }

  lemma EntriesKept(cfg: Config, s: State, e: Event)
    requires Shape(s) && EntriesFit(s) && Enabled(s, e)
    ensures EntriesFit(After(cfg, s, e))
  {
    hide Shape, Enabled, After, EntryFits, MatchFits;
    var s' := After(cfg, s, e);
    forall id | id in s'.pending ensures EntryFits(s', id) { PendingKept(cfg, s, e, id); }
    forall a | 0 <= a < |s'.answers| ensures MatchFits(s', a) { MatchKept(cfg, s, e, a); }
  }

  // --- while no identifier has come round again ---

  predicate NoWrap(s: State) {
    |s.issued| <= U32_SPAN
  }

  /** Nothing is taken twice: an identifier an answer has taken is not in the table, and no two answers take the
      same. */
  predicate TakenOnce(s: State) {
    && s.overwritten == 0
    && (forall a :: 0 <= a < |s.answers| && s.answers[a].phase.Took() ==> HopByHop(s.answers[a].msg) !in s.pending)
    && (forall a, b :: 0 <= a < b < |s.answers| && s.answers[a].phase.Took() && s.answers[b].phase.Took()
                       ==> HopByHop(s.answers[a].msg) != HopByHop(s.answers[b].msg))
  }

  lemma SameDraw(s: State, i: nat, j: nat)
    requires NoWrap(s) && i < |s.issued| && j < |s.issued| && IdOf(i) == IdOf(j)
    ensures i == j
  {
    IssueOfId(i);
    IssueOfId(j);
  }

  /** An identifier drawn but not yet stored has never been in the table. */
  lemma DrawnIsNew(s: State, p: PeerId, e: Entry)
    requires Shape(s) && NoWrap(s) && Busy(s, p) && StageOf(s, p).Numbered?
    ensures !Traced(s, StageOf(s, p).t.id, e)
  {
    var t := StageOf(s, p).t;
    assert HandlerFits(s, p) && RequestFits(s, s.handlers[p].r);
    if i :| IssuedAs(s, i, t.id, e) {
      SameDraw(s, i, t.i);
    }
  }

  lemma StoreIsNew(s: State, p: PeerId)
    requires Shape(s) && EntriesFit(s) && NoWrap(s) && Busy(s, p) && StageOf(s, p).Numbered?
    ensures var id := StageOf(s, p).t.id;
            id !in s.pending
            && forall a :: 0 <= a < |s.answers| && s.answers[a].phase.Took() ==> HopByHop(s.answers[a].msg) != id
  {
    var id := StageOf(s, p).t.id;
    hide Shape;
    if id in s.pending {
      assert EntryFits(s, id);
      DrawnIsNew(s, p, s.pending[id]);
    }
    forall a | 0 <= a < |s.answers| && s.answers[a].phase.Took()
      ensures HopByHop(s.answers[a].msg) != id
    {
      assert MatchFits(s, a);
      DrawnIsNew(s, p, s.answers[a].phase.e);
    }
  }

  lemma OverwrittenAfter(cfg: Config, s: State, e: Event)
    requires Enabled(s, e)
    ensures After(cfg, s, e).overwritten == s.overwritten
            || (e.OnRequest? && e.q.Store? && Busy(s, e.p) && StageOf(s, e.p).Numbered?
                && StageOf(s, e.p).t.id in s.pending)
  {
    hide AfterLife, AfterRequest, AfterAnswer, LifeEnabled, RequestEnabled, AnswerEnabled, EntryFor;
    match e
    case Stop =>
    case Life(p, l) => LifeTables(s, p, l);
    case OnRequest(p, q) => RequestTables(cfg, s, p, q);
    case OnAnswer(p, x) => AnswerTables(cfg, s, p, x);
  }

  /** An answer that takes an entry takes it out of the table. */
  lemma TakesOut(cfg: Config, s: State, p: PeerId, x: AnswerStep)
    requires Enabled(s, OnAnswer(p, x)) && Carrying(s, p) && AnswerOf(s, p).phase.Looking? && NextPhase(s, p, x).Took()
    ensures var id := HopByHop(AnswerOf(s, p).msg);
            id in s.pending && id !in After(cfg, s, OnAnswer(p, x)).pending
  {
    hide HopByHop, Rewrite, ForwardBytes;
    AnswerTables(cfg, s, p, x);
  }

  /** Which answers have taken an entry after a step: those that had, and perhaps one that has just done so. */
  lemma TookAfter(cfg: Config, s: State, e: Event, a: nat)
    requires Shape(s) && Enabled(s, e) && a < |After(cfg, s, e).answers| && After(cfg, s, e).answers[a].phase.Took()
    ensures var s', id := After(cfg, s, e), HopByHop(After(cfg, s, e).answers[a].msg);
            a < |s.answers| && s.answers[a].msg == s'.answers[a].msg
            && (s.answers[a].phase.Took()
                || (e.OnAnswer? && At(s, e.p, Relaying(a)) && id in s.pending && id !in s'.pending))
  {
    AnswersAfter(cfg, s, e);
    assert forall p <- s.handlers :: HandlerFits(s, p);
    if e.OnAnswer? && Carrying(s, e.p) && AnswerOf(s, e.p).phase.Looking? && NextPhase(s, e.p, e.x).Took() {
      TakesOut(cfg, s, e.p, e.x);
    }
    hide Enabled, After, Shape, HopByHop;
  }

  lemma TakenOnceKept(cfg: Config, s: State, e: Event)
    requires Shape(s) && EntriesFit(s) && NoWrap(s) && TakenOnce(s) && Enabled(s, e)
    ensures TakenOnce(After(cfg, s, e))
  {
    var s' := After(cfg, s, e);
    hide Shape, EntriesFit, Enabled, After, NoWrap, HopByHop, EntryFor, Busy;
    OverwrittenAfter(cfg, s, e);
    if e.OnRequest? && e.q.Store? && Busy(s, e.p) && StageOf(s, e.p).Numbered? {
      StoreIsNew(s, e.p);
    }
    forall a | 0 <= a < |s'.answers| && s'.answers[a].phase.Took()
      ensures HopByHop(s'.answers[a].msg) !in s'.pending
    {
      TookAfter(cfg, s, e, a);
      PendingAfter(cfg, s, e, HopByHop(s'.answers[a].msg));
    }
    forall a, b | 0 <= a < b < |s'.answers| && s'.answers[a].phase.Took() && s'.answers[b].phase.Took()
      ensures HopByHop(s'.answers[a].msg) != HopByHop(s'.answers[b].msg)
    {
      TookAfter(cfg, s, e, a);
      TookAfter(cfg, s, e, b);
    }
  }

  // --- conservation ---

  predicate Conserved(s: State) {
    s.puts == |s.pending| + s.takes + s.forgotten + s.overwritten
  }

  lemma ConservedKept(cfg: Config, s: State, e: Event)
    requires Conserved(s) && Enabled(s, e)
    ensures Conserved(After(cfg, s, e))
  {
    hide AfterLife, AfterRequest, AfterAnswer, LifeEnabled, RequestEnabled, AnswerEnabled;
    match e
    case Stop =>
    case Life(p, l) => LifeConserves(s, p, l);
    case OnRequest(p, q) => RequestConserves(cfg, s, p, q);
    case OnAnswer(p, x) => AnswerConserves(cfg, s, p, x);
  }

  lemma LifeConserves(s: State, p: PeerId, l: LifeStep)
    requires Conserved(s) && LifeEnabled(s, p, l)
    ensures Conserved(AfterLife(s, p, l))
  {
    hide AfterLife, LifeEnabled, Forgotten;
    LifeTables(s, p, l);
    ForgottenCount(s.pending, p);
  }

  lemma RequestConserves(cfg: Config, s: State, p: PeerId, q: RequestStep)
    requires Conserved(s) && RequestEnabled(s, p, q)
    ensures Conserved(AfterRequest(cfg, s, p, q))
  {
    hide AfterRequest, RequestEnabled, EntryFor;
    RequestTables(cfg, s, p, q);
    if q.Store? {
      PutCount(s.pending, StageOf(s, p).t.id, EntryFor(p, RequestOf(s, p).msg));
    } else if q.TakeBack? {
      TakeCount(s.pending, StageOf(s, p).t.id);
    }
  }

  lemma AnswerConserves(cfg: Config, s: State, p: PeerId, x: AnswerStep)
    requires Conserved(s) && AnswerEnabled(s, p, x)
    ensures Conserved(AfterAnswer(cfg, s, p, x))
  {
    hide AfterAnswer, AnswerEnabled, HopByHop;
    AnswerTables(cfg, s, p, x);
    if x.Take? {
      TakeCount(s.pending, HopByHop(AnswerOf(s, p).msg));
    }
  }

  lemma PutCount(m: map<u32, Entry>, id: u32, e: Entry)
    ensures |m[id := e]| == |m| + if id in m then 0 else 1
  {
    assert m[id := e].Keys == m.Keys + {id};
  }

  lemma TakeCount(m: map<u32, Entry>, id: u32)
    ensures |m - {id}| == |m| - if id in m then 1 else 0
  {
    assert (m - {id}).Keys == m.Keys - {id};
  }

  lemma ForgottenCount(m: map<u32, Entry>, p: PeerId)
    ensures |Forgotten(m, p)| + |m.Keys - Forgotten(m, p).Keys| == |m|
  {
    assert m.Keys == Forgotten(m, p).Keys + (m.Keys - Forgotten(m, p).Keys);
  }
}
