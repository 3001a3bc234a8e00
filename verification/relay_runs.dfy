/** The theorems about whole runs of the relay: what was written, to whom, for which request, and how often. */
module RelayRuns {
  import opened Wrappers
  import opened Bytes
  import opened Headers
  import opened Avps
  import opened Rewriter
  import opened Rewriting
  import opened RelayTables
  import opened ProtocolErrors
  import opened Relay
  import opened RelaySteps
  import opened RelaySafety

  // --- what has been written ---

  /** A message on the wire is what its cause calls for: a forwarded request, an error answer or a relayed answer. */
  predicate PacketFits(cfg: Config, s: State, k: Packet) {
    match k.cause
    case ForwardOf(r) =>
      r < |s.requests|
      && var q := s.requests[r];
         q.stage.Forwarded? && k.to == q.stage.to && k.out == ForwardBytes(cfg, q.msg, q.stage.t.id)
    case ErrorFor(r) =>
      r < |s.requests| && |s.requests[r].msg| >= HEADER_LENGTH
      && var q := s.requests[r];
         q.stage.Refused? && k.to == q.from
         && k.out == ErrorAnswer(ParseShallow(q.msg), q.stage.code, cfg.host, cfg.realm)
    case AnswerFrom(a) =>
      a < |s.answers|
      && var x := s.answers[a];
         x.phase.Matched? && Rewrite(x.msg, cfg.host, cfg.realm).Rewritten?
         && k.to == x.phase.e.origPeer && k.out == ForwardBytes(cfg, x.msg, x.phase.e.origHbH)
  }

  /** Every message on the wire has its cause, and no two have the same. */
  predicate WireFits(cfg: Config, s: State) {
    && (forall k <- s.wire :: PacketFits(cfg, s, k))
    && (forall m, n :: 0 <= m < n < |s.wire| ==> s.wire[m].cause != s.wire[n].cause)
  }

  lemma PacketLater(cfg: Config, s: State, s': State, k: Packet)
    requires Evolves(s, s') && PacketFits(cfg, s, k)
    ensures PacketFits(cfg, s', k)
  {
    hide ForwardBytes, ErrorAnswer, Rewrite, ParseShallow, PeersGrow;
  }

  /** Has the cause of a packet been seen to the end? */
  predicate Settled(s: State, c: Cause) {
    match c
    case ForwardOf(r) => r < |s.requests| && s.requests[r].stage.Final()
    case ErrorFor(r) => r < |s.requests| && s.requests[r].stage.Final()
    case AnswerFrom(a) => a < |s.answers| && s.answers[a].phase.Final()
  }

  lemma WrittenSettled(cfg: Config, s: State, k: Packet)
    requires PacketFits(cfg, s, k)
    ensures Settled(s, k.cause)
  {
    hide ForwardBytes, ErrorAnswer, Rewrite, ParseShallow;
  }

  /** A step writes nothing, or one message whose cause is settled by the same step. */
  ghost predicate WritesOne(cfg: Config, s: State, s': State) {
    s'.wire == s.wire || exists k :: s'.wire == s.wire + [k] && PacketFits(cfg, s', k) && !Settled(s, k.cause)
  }

  lemma RequestWriteFits(cfg: Config, s: State, p: PeerId, q: RequestStep)
    requires Shape(s) && Enabled(s, OnRequest(p, q))
    ensures WritesOne(cfg, s, After(cfg, s, OnRequest(p, q)))
  {
    var s' := After(cfg, s, OnRequest(p, q));
    assert Busy(s, p) ==> HandlerFits(s, p);
    RequestsAfter(cfg, s, OnRequest(p, q));
    RequestWrites(cfg, s, p, q);
    assert s' == AfterRequest(cfg, s, p, q);
    hide ForwardBytes, ErrorAnswer, ParseShallow, After, AfterRequest, NextStage, Shape, Enabled, RequestEnabled,
         PacketFits, Settled;
    if s'.wire != s.wire {
      var k, r := s'.wire[|s.wire|], s.handlers[p].r;
      StageFits(cfg, s, s', r, NextStage(cfg, s, p, q), k);
      assert s'.wire == s.wire + [k];
    }
  }

  /** The message that a request's last stage calls for. */
  lemma StageFits(cfg: Config, s: State, s': State, r: nat, g: Stage, k: Packet)
    requires r < |s.requests| && s'.requests == s.requests[r := s.requests[r].(stage := g)]
    requires |s.requests[r].msg| >= HEADER_LENGTH && !s.requests[r].stage.Final()
    requires var q := s.requests[r];
             (g.Forwarded? && k == Packet(g.to, ForwardBytes(cfg, q.msg, g.t.id), ForwardOf(r)))
             || (g.Refused?
                 && k == Packet(q.from, ErrorAnswer(ParseShallow(q.msg), g.code, cfg.host, cfg.realm), ErrorFor(r)))
    ensures PacketFits(cfg, s', k) && !Settled(s, k.cause)
  {
    hide ForwardBytes, ErrorAnswer, ParseShallow;
  }

  lemma AnswerWriteFits(cfg: Config, s: State, p: PeerId, x: AnswerStep)
    requires Shape(s) && Enabled(s, OnAnswer(p, x))
    ensures WritesOne(cfg, s, After(cfg, s, OnAnswer(p, x)))
  {
    var s' := After(cfg, s, OnAnswer(p, x));
    assert Carrying(s, p) ==> HandlerFits(s, p);
    AnswersAfter(cfg, s, OnAnswer(p, x));
    AnswerWrites(cfg, s, p, x);
    assert s' == AfterAnswer(cfg, s, p, x);
    hide ForwardBytes, Rewrite, ParseShallow, After, AfterAnswer, NextPhase, Shape, Enabled, AnswerEnabled, PacketFits,
         Settled;
    if s'.wire != s.wire {
      var k, a := s'.wire[|s.wire|], s.handlers[p].a;
      PhaseFits(cfg, s, s', a, NextPhase(s, p, x), k);
      assert s'.wire == s.wire + [k];
    }
  }

  /** The message that an answer's last phase calls for. */
  lemma PhaseFits(cfg: Config, s: State, s': State, a: nat, f: Phase, k: Packet)
    requires a < |s.answers| && s'.answers == s.answers[a := s.answers[a].(phase := f)] && f.Matched?
    requires Rewrite(s.answers[a].msg, cfg.host, cfg.realm).Rewritten? && !s.answers[a].phase.Final()
    requires k == Packet(f.e.origPeer, ForwardBytes(cfg, s.answers[a].msg, f.e.origHbH), AnswerFrom(a))
    ensures PacketFits(cfg, s', k) && !Settled(s, k.cause)
  {
    hide ForwardBytes, Rewrite;
  }

  lemma WriteFits(cfg: Config, s: State, e: Event)
    requires Shape(s) && Enabled(s, e)
    ensures WritesOne(cfg, s, After(cfg, s, e))
  {
    hide AfterLife, AfterRequest, AfterAnswer, LifeEnabled, RequestEnabled, AnswerEnabled, Shape;
    match e
    case Stop =>
    case Life(p, l) => LifeHistory(s, p, l);
    case OnRequest(p, q) => RequestWriteFits(cfg, s, p, q);
    case OnAnswer(p, x) => AnswerWriteFits(cfg, s, p, x);
  }

  lemma WireKept(cfg: Config, s: State, e: Event)
    requires Shape(s) && WireFits(cfg, s) && Enabled(s, e)
    ensures WireFits(cfg, After(cfg, s, e))
  {
    var s' := After(cfg, s, e);
    hide Shape, Enabled, After, PacketFits, Settled, Evolves, ForwardBytes, Rewrite, ParseShallow;
    StepEvolves(cfg, s, e);
    WriteFits(cfg, s, e);
    forall k | k in s.wire
      ensures PacketFits(cfg, s', k) && Settled(s, k.cause)
    {
      PacketLater(cfg, s, s', k);
      WrittenSettled(cfg, s, k);
    }
  }

  // --- all runs ---

  ghost predicate Inv(cfg: Config, s: State) {
    && Shape(s) && RegistryFits(s) && AllRouted(s) && EntriesFit(s) && Conserved(s) && WireFits(cfg, s)
    && (NoWrap(s) ==> TakenOnce(s))
  }

  lemma InvInit(cfg: Config)
    ensures Inv(cfg, INIT)
  {
  }

  lemma InvKept(cfg: Config, s: State, e: Event)
    requires Inv(cfg, s) && Enabled(s, e)
    ensures Inv(cfg, After(cfg, s, e))
  {
    hide Shape, RegistryFits, AllRouted, EntriesFit, Conserved, WireFits, TakenOnce, Enabled, After, Busy;
    ShapeKept(cfg, s, e);
    RegistryKept(cfg, s, e);
    RoutingKept(cfg, s, e);
    EntriesKept(cfg, s, e);
    ConservedKept(cfg, s, e);
    WireKept(cfg, s, e);
    IssuedAfter(cfg, s, e);
    if NoWrap(After(cfg, s, e)) {
      TakenOnceKept(cfg, s, e);
    }
  }

  ghost predicate Reached(cfg: Config, es: seq<Event>, s: State) {
    Run(cfg, es) == Some(s)
  }

  lemma {:induction false} InvAlways(cfg: Config, es: seq<Event>, s: State)
    requires Reached(cfg, es, s)
    ensures Inv(cfg, s)
  {
    hide Inv, Enabled, After;
    if es == [] {
      InvInit(cfg);
    } else {
      var s0 := Run(cfg, es[..|es| - 1]).value;
      InvAlways(cfg, es[..|es| - 1], s0);
      InvKept(cfg, s0, es[|es| - 1]);
    }
  }

  // --- correlation ---

  /** The request whose identifier an answer used. */
  function AnsweredRequest(s: State, a: nat): (r: nat)
    requires a < |s.answers|
  {
    var i := IssueOf(HopByHop(s.answers[a].msg));
    if i < |s.issued| then s.issued[i] else |s.requests|
  }

  lemma ForwardBytesRead(cfg: Config, msg: bytes, id: u32)
    requires Rewrite(msg, cfg.host, cfg.realm).Rewritten?
    ensures HopByHop(ForwardBytes(cfg, msg, id)) == id
  {
    HopByHopReplaced(Rewrite(msg, cfg.host, cfg.realm).out, id);
    hide Rewrite, WithHopByHop, ParseShallow;
  }

  lemma AnswerTraced(cfg: Config, es: seq<Event>, s: State, n: nat)
    requires Reached(cfg, es, s) && n < |s.wire| && s.wire[n].cause.AnswerFrom?
    ensures s.wire[n].cause.a < |s.answers|
    ensures var k := s.wire[n];
            var x := s.answers[k.cause.a];
            x.phase.Matched? && Rewrite(x.msg, cfg.host, cfg.realm).Rewritten?
            && k.out == ForwardBytes(cfg, x.msg, x.phase.e.origHbH) && HopByHop(k.out) == x.phase.e.origHbH
            && k.to == x.phase.e.origPeer && Traced(s, HopByHop(x.msg), x.phase.e)
  {
    InvAlways(cfg, es, s);
    var k := s.wire[n];
    assert PacketFits(cfg, s, k) && MatchFits(s, k.cause.a);
    var x := s.answers[k.cause.a];
    hide Rewrite, ForwardBytes, Traced, HopByHop, Inv;
    ForwardBytesRead(cfg, x.msg, x.phase.e.origHbH);
  }

  /** In every run, however long: an answer goes to a peer that earlier had a request stored under the identifier the
      answer uses, and carries the Hop-by-Hop identifier of that request. */
  lemma AnswersGoHome(cfg: Config, es: seq<Event>, s: State, n: nat)
    requires Reached(cfg, es, s) && n < |s.wire| && s.wire[n].cause.AnswerFrom?
    ensures s.wire[n].cause.a < |s.answers|
    ensures exists i: nat ::
              i < |s.issued| && IdOf(i) == HopByHop(s.answers[s.wire[n].cause.a].msg) && s.issued[i] < |s.requests|
              && var q := s.requests[s.issued[i]];
                 q.stage.Entered() && q.from == s.wire[n].to && HopByHop(q.msg) == HopByHop(s.wire[n].out)
  {
    AnswerTraced(cfg, es, s, n);
    var x := s.answers[s.wire[n].cause.a];
    var i :| IssuedAs(s, i, HopByHop(x.msg), x.phase.e);
    hide ForwardBytes, Rewrite, Reached;
  }

  /** Correlation: while no identifier has come round again, each answer written to a peer matches exactly one stored
      request, that peer's own with that Hop-by-Hop identifier, and no request is matched by two answers. */
  lemma Correlation(cfg: Config, es: seq<Event>, s: State, n: nat)
    requires Reached(cfg, es, s) && NoWrap(s) && n < |s.wire| && s.wire[n].cause.AnswerFrom?
    ensures s.wire[n].cause.a < |s.answers| && AnsweredRequest(s, s.wire[n].cause.a) < |s.requests|
    ensures var k := s.wire[n];
            var q, id := s.requests[AnsweredRequest(s, k.cause.a)], HopByHop(s.answers[k.cause.a].msg);
            q.from == k.to && HopByHop(q.msg) == HopByHop(k.out)
            && q.stage.Entered() && q.stage.Drawn().value.id == id
            && (forall r :: 0 <= r < |s.requests| ==>
                  s.requests[r].stage.Drawn().Some? && s.requests[r].stage.Drawn().value.id == id ==>
                    r == AnsweredRequest(s, k.cause.a))
            && (forall m :: 0 <= m < |s.wire| && m != n && s.wire[m].cause.AnswerFrom?
                  ==> s.wire[m].cause.a < |s.answers|
                      && AnsweredRequest(s, s.wire[m].cause.a) != AnsweredRequest(s, k.cause.a))
  {
    InvAlways(cfg, es, s);
    var k := s.wire[n];
    AnswerTraced(cfg, es, s, n);
    MatchedRequest(s, k.cause.a);
    hide ForwardBytes, Rewrite, Reached, Inv, Traced, HopByHop, EntryFor, EntriesFit, AnsweredRequest;
    forall m | 0 <= m < |s.wire| && m != n && s.wire[m].cause.AnswerFrom?
      ensures s.wire[m].cause.a < |s.answers| && AnsweredRequest(s, s.wire[m].cause.a) != AnsweredRequest(s, k.cause.a)
    {
      AnswerTraced(cfg, es, s, m);
      DifferentCauses(cfg, s, m, n);
      MatchedRequest(s, s.wire[m].cause.a);
    }
  }

  lemma DifferentCauses(cfg: Config, s: State, m: nat, n: nat)
    requires WireFits(cfg, s) && m < |s.wire| && n < |s.wire| && m != n
    ensures s.wire[m].cause != s.wire[n].cause
  {
    hide PacketFits;
  }

  /** The request an answer has taken the entry of. */
  lemma MatchedRequest(s: State, a: nat)
    requires Shape(s) && EntriesFit(s) && NoWrap(s) && TakenOnce(s) && a < |s.answers| && s.answers[a].phase.Took()
    ensures AnsweredRequest(s, a) < |s.requests|
    ensures var q, id, e := s.requests[AnsweredRequest(s, a)], HopByHop(s.answers[a].msg), s.answers[a].phase.e;
            |q.msg| >= HEADER_LENGTH && e == EntryFor(q.from, q.msg) && q.stage.Entered()
            && q.stage.Drawn().value.id == id
            && (forall r :: 0 <= r < |s.requests| ==>
                  s.requests[r].stage.Drawn().Some? && s.requests[r].stage.Drawn().value.id == id ==>
                    r == AnsweredRequest(s, a))
    ensures forall b :: 0 <= b < |s.answers| && b != a && s.answers[b].phase.Took()
                        && AnsweredRequest(s, b) < |s.requests| ==>
              AnsweredRequest(s, b) != AnsweredRequest(s, a)
  {
    hide HopByHop, EntryFor;
    var id := HopByHop(s.answers[a].msg);
    assert MatchFits(s, a);
    var i: nat :| IssuedAs(s, i, id, s.answers[a].phase.e);
    IssueOfId(i);
    assert DrawFits(s, i);
    forall r | 0 <= r < |s.requests| && s.requests[r].stage.Drawn().Some? && s.requests[r].stage.Drawn().value.id == id
      ensures r == s.issued[i]
    {
      assert RequestFits(s, r);
      SameDraw(s, s.requests[r].stage.Drawn().value.i, i);
    }
    forall b | 0 <= b < |s.answers| && b != a && s.answers[b].phase.Took()
      ensures AnsweredRequest(s, b) != AnsweredRequest(s, a)
    {
      assert MatchFits(s, b);
      var j: nat :| IssuedAs(s, j, HopByHop(s.answers[b].msg), s.answers[b].phase.e);
      IssueOfId(j);
      assert DrawFits(s, j);
    }
  }

  // --- at most one reply ---

  /** Is a message on the wire a reply to request r?  An error answer is; an answer is if it used r's identifier. */
  predicate RepliesTo(s: State, k: Packet, r: nat) {
    match k.cause
    case ErrorFor(r') => r' == r
    case AnswerFrom(a) => a < |s.answers| && AnsweredRequest(s, a) == r
    case ForwardOf(_) => false
  }

  /** Whatever the peers do: a request gets two replies only if one is a relayed answer and the other the error
      answer the relay sent after writing the request had failed. */
  lemma TwoReplies(cfg: Config, es: seq<Event>, s: State, m: nat, n: nat, r: nat)
    requires Reached(cfg, es, s) && NoWrap(s) && m < |s.wire| && n < |s.wire| && m != n
    requires RepliesTo(s, s.wire[m], r) && RepliesTo(s, s.wire[n], r)
    ensures r < |s.requests| && s.requests[r].stage.Refused? && s.requests[r].stage.tried.Some?
    ensures (s.wire[m].cause.ErrorFor? && s.wire[n].cause.AnswerFrom?)
            || (s.wire[n].cause.ErrorFor? && s.wire[m].cause.AnswerFrom?)
  {
    InvAlways(cfg, es, s);
    hide Reached, HopByHop, ForwardBytes, Rewrite, ErrorAnswer, ParseShallow, AnsweredRequest, Shape, RegistryFits,
         AllRouted, EntriesFit, Conserved, WireFits, TakenOnce, RepliesTo;
    DifferentCauses(cfg, s, m, n);
    ReplyCause(cfg, s, m, r);
    ReplyCause(cfg, s, n, r);
    if s.wire[m].cause.AnswerFrom? && s.wire[n].cause.AnswerFrom? {
      MatchedRequest(s, s.wire[m].cause.a);
    }
  }

  lemma ReplyCause(cfg: Config, s: State, n: nat, r: nat)
    requires Inv(cfg, s) && NoWrap(s) && n < |s.wire| && RepliesTo(s, s.wire[n], r)
    ensures r < |s.requests|
    ensures match s.wire[n].cause
            case ErrorFor(r') => r' == r && s.requests[r].stage.Refused?
            case AnswerFrom(a) =>
              a < |s.answers| && s.answers[a].phase.Took() && s.requests[r].stage.Entered()
              && AnsweredRequest(s, a) == r
            case ForwardOf(_) => false
  {
    hide HopByHop, ForwardBytes, Rewrite, ErrorAnswer, ParseShallow, AnsweredRequest, Shape, RegistryFits, AllRouted,
         EntriesFit, Conserved, TakenOnce;
    assert PacketFits(cfg, s, s.wire[n]);
    if s.wire[n].cause.AnswerFrom? {
      MatchedRequest(s, s.wire[n].cause.a);
    }
  }

  /** Was the request with this identifier written to p? */
  predicate ForwardedAs(s: State, r: nat, p: PeerId, id: u32) {
    r < |s.requests| && s.requests[r].stage.Forwarded? && s.requests[r].stage.to == p && s.requests[r].stage.t.id == id
  }

  ghost predicate SentTo(s: State, p: PeerId, id: u32) {
    exists r :: ForwardedAs(s, r, p, id)
  }

  /** A step that does not break the assumption about the other peers: they answer only identifiers written to them,
      and a write that failed delivered nothing. */
  ghost predicate Honest(s: State, e: Event) {
    e.OnAnswer? && e.x.ReadAnswer? ==> SentTo(s, e.p, HopByHop(e.x.msg))
  }

  ghost predicate HonestRun(cfg: Config, es: seq<Event>) {
    forall n: nat | n < |es| :: Run(cfg, es[..n]).Some? ==> Honest(Run(cfg, es[..n]).value, es[n])
  }

  ghost predicate AnswersHonest(s: State) {
    forall x <- s.answers :: SentTo(s, x.from, HopByHop(x.msg))
  }

  lemma SentLater(s: State, s': State, p: PeerId, id: u32)
    requires RequestsGrow(s, s') && SentTo(s, p, id)
    ensures SentTo(s', p, id)
  {
    var r :| ForwardedAs(s, r, p, id);
    assert ForwardedAs(s', r, p, id);
  }

  lemma HonestKept(cfg: Config, s: State, e: Event)
    requires Shape(s) && AnswersHonest(s) && Enabled(s, e) && Honest(s, e)
    ensures AnswersHonest(After(cfg, s, e))
  {
    var s' := After(cfg, s, e);
    hide Shape, Enabled, After, SentTo, HopByHop, RequestsGrow;
    RequestsStepGrow(cfg, s, e);
    AnswersAfter(cfg, s, e);
    forall x | x in s'.answers
      ensures SentTo(s', x.from, HopByHop(x.msg))
    {
      var y :| (y in s.answers || (e.OnAnswer? && e.x.ReadAnswer? && y == Answer(e.p, e.x.msg, Looking)))
               && y.from == x.from && y.msg == x.msg;
      SentLater(s, s', x.from, HopByHop(x.msg));
    }
  }

  lemma {:induction false} HonestAlways(cfg: Config, es: seq<Event>, s: State)
    requires Reached(cfg, es, s) && HonestRun(cfg, es)
    ensures AnswersHonest(s)
  {
    hide Enabled, After, Honest, Inv;
    if es != [] {
      var before := es[..|es| - 1];
      var s0 := Run(cfg, before).value;
      forall n: nat | n < |before|
        ensures before[..n] == es[..n]
      {
      }
      HonestAlways(cfg, before, s0);
      InvAlways(cfg, before, s0);
      InvShape(cfg, s0);
      HonestKept(cfg, s0, es[|es| - 1]);
    }
  }

  lemma InvShape(cfg: Config, s: State)
    requires Inv(cfg, s)
    ensures Shape(s)
  {
  }

  /** If peers answer only what was written to them, a failed write delivers nothing and no identifier has come round
      again, the sender of a request gets at most one reply to it, and an answer comes from the peer it went to. */
  lemma AtMostOneReply(cfg: Config, es: seq<Event>, s: State, m: nat, n: nat, r: nat)
    requires Reached(cfg, es, s) && NoWrap(s) && HonestRun(cfg, es)
    requires m < |s.wire| && n < |s.wire| && RepliesTo(s, s.wire[m], r) && RepliesTo(s, s.wire[n], r)
    ensures m == n
    ensures s.wire[m].cause.AnswerFrom? ==>
              r < |s.requests| && s.wire[m].cause.a < |s.answers|
              && s.requests[r].stage.Forwarded? && s.requests[r].stage.to == s.answers[s.wire[m].cause.a].from
  {
    hide Inv, Reached, HopByHop, ForwardBytes, Rewrite, ErrorAnswer, ParseShallow, AnsweredRequest, HonestRun;
    InvAlways(cfg, es, s);
    HonestAlways(cfg, es, s);
    forall l | l in {m, n} && s.wire[l].cause.AnswerFrom?
      ensures var a := s.wire[l].cause.a;
              a < |s.answers| && r < |s.requests| && s.requests[r].stage.Forwarded?
              && s.requests[r].stage.to == s.answers[a].from
    {
      AnswerMatchesForward(cfg, es, s, l);
    }
    if m != n {
      TwoReplies(cfg, es, s, m, n, r);
    }
  }

  lemma AnswerMatchesForward(cfg: Config, es: seq<Event>, s: State, l: nat)
    requires Reached(cfg, es, s) && NoWrap(s) && AnswersHonest(s) && l < |s.wire| && s.wire[l].cause.AnswerFrom?
    ensures s.wire[l].cause.a < |s.answers|
    ensures var a := s.wire[l].cause.a;
            AnsweredRequest(s, a) < |s.requests|
            && var g := s.requests[AnsweredRequest(s, a)].stage; g.Forwarded? && g.to == s.answers[a].from
  {
    hide Reached, HopByHop, ForwardBytes, Rewrite, AnsweredRequest;
    AnswerTraced(cfg, es, s, l);
    InvAlways(cfg, es, s);
    var x := s.answers[s.wire[l].cause.a];
    MatchedRequest(s, s.wire[l].cause.a);
    assert SentTo(s, x.from, HopByHop(x.msg));
    var r': nat :| ForwardedAs(s, r', x.from, HopByHop(x.msg));
    assert s.requests[r'].stage.Drawn().Some?;
  }

  // --- what becomes of a request ---

  /** Every request is either still in the hands of its sender's handler, or refused, or forwarded, and never two of
      these; at most one message on the wire is its error answer or its forwarded form, and which one it is fits. */
  lemma OneFate(cfg: Config, es: seq<Event>, s: State, r: nat)
    requires Reached(cfg, es, s) && r < |s.requests|
    ensures var q := s.requests[r];
            q.from in s.handlers
            && (s.handlers[q.from] == Working(r) <==> !q.stage.Refused? && !q.stage.Forwarded?)
            && (q.stage.Refused? ==> q.stage.code == RefusalCode(q.msg))
            && (q.stage.Forwarded? ==> Suits(s, q, q.stage.to))
    ensures forall n :: 0 <= n < |s.wire| && s.wire[n].cause == ForwardOf(r) ==> s.requests[r].stage.Forwarded?
    ensures forall n :: 0 <= n < |s.wire| && s.wire[n].cause == ErrorFor(r) ==> s.requests[r].stage.Refused?
    ensures forall m, n ::
              0 <= m < n < |s.wire| && s.wire[m].cause in {ForwardOf(r), ErrorFor(r)}
              ==> s.wire[n].cause !in {ForwardOf(r), ErrorFor(r)}
  {
    InvAlways(cfg, es, s);
    assert RequestFits(s, r) && Routed(s, s.requests[r]);
    assert s.handlers[s.requests[r].from] == Working(r) ==> HandlerFits(s, s.requests[r].from);
    forall n | 0 <= n < |s.wire|
      ensures PacketFits(cfg, s, s.wire[n])
    {
    }
    hide Inv, Reached, ForwardBytes, Rewrite, ErrorAnswer, ParseShallow, RefusalCode, Suits, Routing, RoutingTo, Shape;
  }

  /** What becomes of a message on its way through the relay: the Hop-by-Hop identifier is the given one, the length the
      true one, and the rest of the header as it was; if the message was made of whole words, every AVP but the Origin
      AVPs is as it was, and those name the relay. */
  predicate Relayed(cfg: Config, msg: bytes, id: u32, out: bytes) {
    && |msg| >= HEADER_LENGTH && |out| >= HEADER_LENGTH
    && ParseShallow(out) == ParseShallow(msg).(hopByHop := id, length := |out| % 0x100_0000)
    && (Proper(msg) && NamesFit(cfg.host, cfg.realm) ==>
          var before, after := Walk(msg[HEADER_LENGTH..]).chunks, Walk(out[HEADER_LENGTH..]).chunks;
          Replaced(before, after, cfg.host, cfg.realm)
          && Others(after) == Others(before) && Renamed(after, cfg.host, cfg.realm)
          && Has(after, ORIGIN_HOST) && Has(after, ORIGIN_REALM))
  }

  lemma ForwardBytesRelayed(cfg: Config, msg: bytes, id: u32)
    requires |msg| >= HEADER_LENGTH && Rewrite(msg, cfg.host, cfg.realm).Rewritten?
    ensures Relayed(cfg, msg, id, ForwardBytes(cfg, msg, id))
  {
    hide Rewrite, Walk, Others, Renamed, Replaced, Has, Proper, NamesFit, WithHopByHop, HeaderFits, ParseShallow;
    RewriteKeepsHeader(msg, cfg.host, cfg.realm);
    HopByHopReplaced(Rewrite(msg, cfg.host, cfg.realm).out, id);
    if Proper(msg) && NamesFit(cfg.host, cfg.realm) {
      RewriteOnTheWire(msg, cfg.host, cfg.realm);
      RewritePlaces(msg, cfg.host, cfg.realm);
    }
  }

  /** A forwarded request on the wire goes to a peer it suits, under the identifier drawn for it. */
  lemma ForwardedOnTheWire(cfg: Config, es: seq<Event>, s: State, n: nat)
    requires Reached(cfg, es, s) && n < |s.wire| && s.wire[n].cause.ForwardOf?
    ensures s.wire[n].cause.r < |s.requests|
    ensures var k, q := s.wire[n], s.requests[s.wire[n].cause.r];
            q.stage.Forwarded? && Suits(s, q, k.to) && Relayed(cfg, q.msg, IdOf(q.stage.t.i), k.out)
            && q.stage.t.i < |s.issued| && s.issued[q.stage.t.i] == k.cause.r
  {
    hide Reached, Rewrite, Routing, RoutingTo, Suits, Relayed, ForwardBytes, EntriesFit, Conserved, TakenOnce,
         RegistryFits;
    InvAlways(cfg, es, s);
    var k := s.wire[n];
    assert PacketFits(cfg, s, k);
    var r := k.cause.r;
    var q := s.requests[r];
    assert RequestFits(s, r) && Routed(s, q);
    RoutableRewrites(q.msg, cfg.host, cfg.realm);
    AllRewrote(cfg, es, s);
    assert s.requests[r] in s.requests;
    ForwardBytesRelayed(cfg, q.msg, q.stage.t.id);
  }

  /** A relayed answer on the wire is the answer taken in, under the identifier of the request it goes back to. */
  lemma AnsweredOnTheWire(cfg: Config, es: seq<Event>, s: State, n: nat)
    requires Reached(cfg, es, s) && n < |s.wire| && s.wire[n].cause.AnswerFrom?
    ensures s.wire[n].cause.a < |s.answers| && s.answers[s.wire[n].cause.a].phase.Matched?
    ensures var k, x := s.wire[n], s.answers[s.wire[n].cause.a];
            k.to == x.phase.e.origPeer && Relayed(cfg, x.msg, x.phase.e.origHbH, k.out)
  {
    hide Reached, Rewrite, Relayed, ForwardBytes, HopByHop, EntriesFit, Conserved, TakenOnce, RegistryFits, AllRouted;
    InvAlways(cfg, es, s);
    AnswerTraced(cfg, es, s, n);
    var a := s.wire[n].cause.a;
    assert AnswerFits(s, a);
    ForwardBytesRelayed(cfg, s.answers[a].msg, s.answers[a].phase.e.origHbH);
  }

  /** A number is drawn only for a message that could be rewritten. */
  predicate DrawnRewrote(cfg: Config, q: Request) {
    q.stage.Drawn().Some? ==> Rewrite(q.msg, cfg.host, cfg.realm).Rewritten?
  }

  lemma DrawnRewroteKept(cfg: Config, s: State, e: Event)
    requires Shape(s) && Enabled(s, e) && forall q <- s.requests :: DrawnRewrote(cfg, q)
    ensures forall q <- After(cfg, s, e).requests :: DrawnRewrote(cfg, q)
  {
    var s' := After(cfg, s, e);
    RequestsAfter(cfg, s, e);
    if e.OnRequest? && !e.q.ReadRequest? {
      NextDrawn(cfg, s, e.p, e.q);
      NumberStops(cfg, s, e.p, e.q);
      assert RequestOf(s, e.p) in s.requests;
    }
    hide Shape, Enabled, After, Rewrite, NextStage;
  }

  lemma NumberStops(cfg: Config, s: State, p: PeerId, q: RequestStep)
    requires !s.crashed && RequestEnabled(s, p, q)
    ensures q.Number? && Busy(s, p) && Rewrite(RequestOf(s, p).msg, cfg.host, cfg.realm).Panicked?
            ==> After(cfg, s, OnRequest(p, q)).requests == s.requests
  {
    hide Rewrite, ForwardBytes, ErrorAnswer, NextStage, ParseShallow, HostFound, RealmPicked, RoutingTo;
  }

  lemma {:induction false} AllRewrote(cfg: Config, es: seq<Event>, s: State)
    requires Reached(cfg, es, s)
    ensures forall q <- s.requests :: DrawnRewrote(cfg, q)
  {
    hide Enabled, After, Inv, DrawnRewrote;
    if es != [] {
      var s0 := Run(cfg, es[..|es| - 1]).value;
      AllRewrote(cfg, es[..|es| - 1], s0);
      InvAlways(cfg, es[..|es| - 1], s0);
      InvShape(cfg, s0);
      DrawnRewroteKept(cfg, s0, es[|es| - 1]);
    }
  }

  /** An error answer on the wire goes to the sender of the request, with the sender's own identifiers, the error bit
      and the one code the request can be refused with. */
  lemma RefusedOnTheWire(cfg: Config, es: seq<Event>, s: State, n: nat)
    requires Reached(cfg, es, s) && n < |s.wire| && s.wire[n].cause.ErrorFor?
    requires PrintedLength(0, cfg.host) < U24_SPAN && PrintedLength(0, cfg.realm) < U24_SPAN
    ensures s.wire[n].cause.r < |s.requests| && |s.wire[n].out| >= HEADER_LENGTH
    ensures |s.requests[s.wire[n].cause.r].msg| >= HEADER_LENGTH
    ensures var k, q := s.wire[n], s.requests[s.wire[n].cause.r];
            var answer, asked := ReadHeader(k.out), ReadHeader(q.msg);
            k.to == q.from && !answer.flags.request && answer.flags.error
            && answer.flags.proxiable == asked.flags.proxiable
            && answer.command == asked.command && answer.application == asked.application
            && answer.hopByHop == asked.hopByHop && answer.endToEnd == asked.endToEnd
            && var w := Walk(k.out[HEADER_LENGTH..]);
               w.stop == Clean && |w.chunks| == 3
               && Seen(w.chunks[0]) == View(RESULT_CODE, 0, Put32(RefusalCode(q.msg)))
  {
    hide Reached, Rewrite, Walk, Routing, RoutingTo, ErrorAnswer, Seen, RefusalCode, HeaderFits, PrintedLength, Put32,
         ReadHeader, ParseShallow, Bit, RegistryFits, EntriesFit, Conserved, TakenOnce;
    InvAlways(cfg, es, s);
    var k := s.wire[n];
    assert PacketFits(cfg, s, k);
    var q := s.requests[k.cause.r];
    assert RequestFits(s, k.cause.r) && Routed(s, q);
    ShallowAgrees(q.msg);
    ProxiableAgrees(q.msg);
    ErrorAnswerRead(ParseShallow(q.msg), q.stage.code, cfg.host, cfg.realm);
  }

  lemma ProxiableAgrees(msg: bytes)
    requires |msg| >= HEADER_LENGTH
    ensures ReadHeader(msg).flags.proxiable == Bit(ParseShallow(msg).flags, 0x40)
            && ParseShallow(msg).command < U24_SPAN
  {
  }

  // --- the pending table over a run ---

  /** Entries in the table, taken and forgotten add up to the entries put, as long as none was overwritten, and before
      an identifier comes round again none is. */
  lemma Conservation(cfg: Config, es: seq<Event>, s: State)
    requires Reached(cfg, es, s)
    ensures s.puts == |s.pending| + s.takes + s.forgotten + s.overwritten
    ensures NoWrap(s) ==> s.overwritten == 0
  {
    InvAlways(cfg, es, s);
  }

  lemma {:induction false} RunCut(cfg: Config, es: seq<Event>, n: nat)
    requires n <= |es| && Run(cfg, es).Some?
    ensures Run(cfg, es[..n]).Some?
  {
    hide Enabled, After;
    if n < |es| {
      var before := es[..|es| - 1];
      RunCut(cfg, before, n);
      assert before[..n] == es[..n];
    } else {
      assert es[..n] == es;
    }
  }

  lemma {:induction false} StaysClean(cfg: Config, es: seq<Event>, n: nat, p: PeerId)
    requires n <= |es| && Run(cfg, es).Some? && Run(cfg, es[..n]).Some?
    requires var h := Run(cfg, es[..n]).value.handlers; p in h && h[p].Cleaned()
    ensures var h := Run(cfg, es).value.handlers; p in h && h[p].Cleaned()
  {
    hide Enabled, After, Inv;
    if n < |es| {
      var before := es[..|es| - 1];
      assert before[..n] == es[..n];
      StaysClean(cfg, before, n, p);
      var s0 := Run(cfg, before).value;
      InvAlways(cfg, before, s0);
      InvShape(cfg, s0);
      PeersStepGrow(cfg, s0, es[|es| - 1]);
    } else {
      assert es[..n] == es;
    }
  }

  /** Once the handler of a peer has run its cleanup, no entry names that peer, then or at any later time. */
  lemma NoLateEntries(cfg: Config, es: seq<Event>, n: nat, p: PeerId, id: u32)
    requires n <= |es| && Run(cfg, es).Some? && Run(cfg, es[..n]).Some?
    requires var h := Run(cfg, es[..n]).value.handlers; p in h && h[p].Cleaned()
    ensures var m := Run(cfg, es).value.pending; id in m ==> m[id].origPeer != p
  {
    hide Run, Enabled, After;
    StaysClean(cfg, es, n, p);
    var s := Run(cfg, es).value;
    InvAlways(cfg, es, s);
    assert id in s.pending ==> EntryFits(s, id);
  }

  // --- progress ---

  /** How many steps of its own handler a request is from its end. */
  function StepsLeft(g: Stage): (n: nat) {
    match g
    case Read => 8
    case ByHost => 7
    case ByRealm => 6
    case Chosen(_) => 5
    case Numbered(_, _) => 4
    case Stored(_, _) => 3
    case Unsent(_, _) => 2
    case Refusing(_, _) => 1
    case _ => 0
  }

  lemma LookupsAnswer(s: State, host: bytes, realm: bytes, from: PeerId)
    requires s.peers.Values <= s.ids.Keys
    ensures exists r :: HostFound(s.peers, s.ids, host, r)
    ensures exists r :: RealmPicked(s.peers, s.ids, realm, from, r)
  {
    if k :| k in s.peers && s.ids[s.peers[k]].host == host {
      assert HostFound(s.peers, s.ids, host, Some(s.peers[k]));
    } else {
      assert HostFound(s.peers, s.ids, host, None);
    }
    if p :| Candidate(s.peers, s.ids, realm, from, p) {
      assert RealmPicked(s.peers, s.ids, realm, from, Some(p));
    } else {
      assert RealmPicked(s.peers, s.ids, realm, from, None);
    }
  }

  /** A handler with a request in its hands can always take a step. */
  lemma NeverStuck(cfg: Config, es: seq<Event>, s: State, p: PeerId)
    requires Reached(cfg, es, s) && !s.crashed && p in s.handlers && s.handlers[p].Working?
    ensures exists q :: Enabled(s, OnRequest(p, q))
  {
    hide Reached, RoutingTo, HostFound, RealmPicked, IsTraffic, ParseShallow, EntriesFit, AllRouted, Conserved,
         WireFits, TakenOnce;
    InvAlways(cfg, es, s);
    RegistryDomain(s);
    assert HandlerFits(s, p) && RequestFits(s, s.handlers[p].r);
    hide Inv, Shape, RegistryFits;
    CanMove(s, p);
  }

  lemma CanMove(s: State, p: PeerId)
    requires !s.crashed && Busy(s, p) && !StageOf(s, p).Final() && s.peers.Values <= s.ids.Keys
    ensures exists q :: Enabled(s, OnRequest(p, q))
  {
    var rv := RoutingTo(RequestOf(s, p).msg);
    hide RoutingTo, HostFound, RealmPicked, IsTraffic, ParseShallow;
    LookupsAnswer(s, rv.destinationHost, rv.destinationRealm, p);
    var found :| HostFound(s.peers, s.ids, rv.destinationHost, found);
    var picked :| RealmPicked(s.peers, s.ids, rv.destinationRealm, p, picked);
    var q := match StageOf(s, p)
             case Read => Route
             case ByHost => FindHost(found)
             case ByRealm => FindRealm(picked)
             case Chosen(_) => Number
             case Numbered(_, _) => Store
             case Stored(_, _) => Send(true)
             case Unsent(_, _) => TakeBack
             case _ => Refuse(true);
    assert Enabled(s, OnRequest(p, q));
  }

  /** Each step of its own handler brings a request nearer to its end and no other step moves it, so a request is
      refused or forwarded after at most eight steps of the handler that read it. */
  lemma OwnStepsFinish(cfg: Config, es: seq<Event>, s: State, e: Event, r: nat)
    requires Reached(cfg, es, s) && Enabled(s, e) && r < |s.requests| && !s.requests[r].stage.Final()
    ensures var s' := After(cfg, s, e);
            r < |s'.requests|
            && if e.OnRequest? && e.p == s.requests[r].from
               then s'.crashed || StepsLeft(s'.requests[r].stage) < StepsLeft(s.requests[r].stage)
               else s'.requests[r] == s.requests[r]
  {
    InvAlways(cfg, es, s);
    assert RequestFits(s, r);
    assert forall p <- s.handlers :: HandlerFits(s, p);
    RequestsAfter(cfg, s, e);
    hide Inv, Reached, Shape, After, NextStage;
    if e.OnRequest? && e.p == s.requests[r].from {
      MovesOn(cfg, s, e.p, e.q);
    }
  }

  lemma MovesOn(cfg: Config, s: State, p: PeerId, q: RequestStep)
    requires !s.crashed && RequestEnabled(s, p, q) && p in s.handlers && s.handlers[p].Working?
    ensures Busy(s, p) && StepsLeft(NextStage(cfg, s, p, q)) < StepsLeft(StageOf(s, p))
    ensures var s' := After(cfg, s, OnRequest(p, q));
            s'.crashed
            || s'.requests == s.requests[s.handlers[p].r := RequestOf(s, p).(stage := NextStage(cfg, s, p, q))]
  {
    hide Rewrite, ForwardBytes, ErrorAnswer, ParseShallow, HostFound, RealmPicked, RoutingTo, Routing, EntryFor;
  }

  // --- no crash ---

  /** A step brings the relay down exactly when the rewriting in it does not come back. */
  lemma CrashSteps(cfg: Config, s: State, e: Event)
    requires Enabled(s, e)
    ensures After(cfg, s, e).crashed <==>
              (e.OnRequest? && e.q.Number? && Busy(s, e.p)
               && Rewrite(RequestOf(s, e.p).msg, cfg.host, cfg.realm).Panicked?)
              || (e.OnAnswer? && e.x.Reply? && Carrying(s, e.p)
                  && Rewrite(AnswerOf(s, e.p).msg, cfg.host, cfg.realm).Panicked?)
  {
    hide Rewrite, ForwardBytes, ErrorAnswer, ParseShallow, HostFound, RealmPicked, RoutingTo, EntryFor, NextStage,
         NextPhase, Forgotten, Without, KeyOf, HopByHop, IsTraffic;
    match e
    case Stop =>
    case Life(_, _) =>
    case OnRequest(_, _) =>
    case OnAnswer(_, _) =>
  }

  /** The relay dies in a step exactly when it rewrites there a message that ends inside the padding of an AVP that is
      copied. */
  lemma CrashesWhen(cfg: Config, s: State, e: Event)
    requires Enabled(s, e)
    ensures After(cfg, s, e).crashed <==>
              (e.OnRequest? && e.q.Number? && Busy(s, e.p) && RunsPastEnd(RequestOf(s, e.p).msg))
              || (e.OnAnswer? && e.x.Reply? && Carrying(s, e.p) && RunsPastEnd(AnswerOf(s, e.p).msg))
  {
    hide Enabled, After, Rewrite, RunsPastEnd, Iterate;
    CrashSteps(cfg, s, e);
    if e.OnRequest? && Busy(s, e.p) {
      RewriteOutcome(RequestOf(s, e.p).msg, cfg.host, cfg.realm);
    }
    if e.OnAnswer? && Carrying(s, e.p) {
      RewriteOutcome(AnswerOf(s, e.p).msg, cfg.host, cfg.realm);
    }
  }

  /** What this event takes in, if anything, does not end inside the padding of an AVP that would be copied. */
  predicate Harmless(e: Event) {
    (e.OnRequest? && e.q.ReadRequest? ==> !RunsPastEnd(e.q.msg))
    && (e.OnAnswer? && e.x.ReadAnswer? ==> !RunsPastEnd(e.x.msg))
  }

  predicate HoldsHarmless(s: State) {
    (forall q <- s.requests :: !RunsPastEnd(q.msg)) && (forall x <- s.answers :: !RunsPastEnd(x.msg))
  }

  lemma HarmlessKept(cfg: Config, s: State, e: Event)
    requires HoldsHarmless(s) && Enabled(s, e) && Harmless(e)
    ensures HoldsHarmless(After(cfg, s, e)) && !After(cfg, s, e).crashed
  {
    hide Enabled, After, HopByHop, RunsPastEnd;
    RequestsAfter(cfg, s, e);
    AnswersAfter(cfg, s, e);
    CrashesWhen(cfg, s, e);
    assert e.OnRequest? && Busy(s, e.p) ==> RequestOf(s, e.p) in s.requests;
    assert e.OnAnswer? && Carrying(s, e.p) ==> AnswerOf(s, e.p) in s.answers;
  }

  /** Only such a message brings the relay down: no run over others does. */
  lemma {:induction false} NeverCrashes(cfg: Config, es: seq<Event>, s: State)
    requires Reached(cfg, es, s) && forall e <- es :: Harmless(e)
    ensures !s.crashed && HoldsHarmless(s)
  {
    hide Enabled, After, HoldsHarmless, Harmless;
    if es == [] {
      NothingHeld();
    } else {
      var before := es[..|es| - 1];
      var s0, e := Run(cfg, before).value, es[|es| - 1];
      NeverCrashes(cfg, before, s0);
      HarmlessKept(cfg, s0, e);
    }
  }

  lemma NothingHeld()
    ensures HoldsHarmless(INIT)
  {
  }

  /** A message made of whole 32-bit words, as section 3 of RFC 6733 has it, is none of these. */
  lemma WholeWordsHarmless(msg: bytes)
    requires |msg| % 4 == 0
    ensures !RunsPastEnd(msg)
  {
    if |msg| >= HEADER_LENGTH {
      hide Iterate, Rewrite, RunsPastEnd;
      RewriteOutcome(msg, [], []);
      WholeWordsRewrite(msg, [], []);
    }
  }

  lemma WholeWordsRewrite(msg: bytes, host: bytes, realm: bytes)
    requires |msg| >= HEADER_LENGTH && |msg| % 4 == 0
    ensures !Rewrite(msg, host, realm).Panicked?
  {
    hide Walk, Rewrite, HeaderFits, IsOrigin, Concat, NewRow, WithLength;
    RewriteCases(msg, host, realm);
    AlignedNotRagged(msg[HEADER_LENGTH..]);
  }
}
