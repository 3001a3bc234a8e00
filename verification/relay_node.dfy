/** The relay's node and its two handlers, run without interruption: each is one path through the system of steps. */
module RelayNode {
  import opened Wrappers
  import opened Bytes
  import opened Headers
  import opened Rewriter
  import opened RelayTables
  import opened ProtocolErrors
  import opened Relay
  import opened RelaySteps
  import RelaySafety

  /** A handler taking some steps in a row. */
  ghost function Walks(cfg: Config, s: State, p: PeerId, qs: seq<RequestStep>): (r: Option<State>) {
    if qs == [] then Some(s)
    else
      var before, q := Walks(cfg, s, p, qs[..|qs| - 1]), qs[|qs| - 1];
      if before.Some? && Enabled(before.value, OnRequest(p, q)) then Some(After(cfg, before.value, OnRequest(p, q)))
      else None
  }

  lemma OneMore(cfg: Config, s: State, p: PeerId, qs: seq<RequestStep>, t: State, q: RequestStep)
    requires Walks(cfg, s, p, qs) == Some(t) && Enabled(t, OnRequest(p, q))
    ensures Walks(cfg, s, p, qs + [q]) == Some(After(cfg, t, OnRequest(p, q)))
  {
    assert (qs + [q])[..|qs|] == qs;
    hide Enabled, After;
  }

  /** Where a request is after a step of its handler that does not bring the relay down. */
  lemma Moved(cfg: Config, s: State, p: PeerId, q: RequestStep)
    requires !s.crashed && RequestEnabled(s, p, q) && Busy(s, p) && !q.ReadRequest?
    requires q.Number? ==> !Rewrite(RequestOf(s, p).msg, cfg.host, cfg.realm).Panicked?
    ensures var s', g := AfterRequest(cfg, s, p, q), NextStage(cfg, s, p, q);
            s'.peers == s.peers && s'.ids == s.ids && !s'.crashed
            && (if g.Final() then At(s', p, Reading)
                else Busy(s', p) && RequestOf(s', p) == RequestOf(s, p).(stage := g) && s'.handlers[p] == s.handlers[p])
            && s'.hbhSeq == if q.Number? && Rewrite(RequestOf(s, p).msg, cfg.host, cfg.realm).Rewritten?
                            then (s.hbhSeq + 1) % 0x1_0000_0000 else s.hbhSeq
  {
    hide NextStage, Rewrite, ForwardBytes, ErrorAnswer, HostFound, RealmPicked, EntryFor, RoutingTo, ParseShallow,
         IsTraffic;
  }

  /** After the steps qs the handler of p, still with the request it had at s, has brought it to stage g in state t. */
  ghost predicate Here(cfg: Config, s: State, p: PeerId, qs: seq<RequestStep>, t: State, g: Stage) {
    Walks(cfg, s, p, qs) == Some(t) && !t.crashed && Busy(s, p) && Busy(t, p) && t.handlers[p] == s.handlers[p]
    && RequestOf(t, p) == RequestOf(s, p).(stage := g) && t.wire == s.wire
  }

  /** The request has been seen to the end; the handler reads again. */
  ghost predicate Over(cfg: Config, s: State, p: PeerId, qs: seq<RequestStep>, t: State) {
    Walks(cfg, s, p, qs) == Some(t) && !t.crashed && At(t, p, Reading)
  }

  predicate SameTables(t: State, t': State) {
    t'.peers == t.peers && t'.ids == t.ids && t'.pending == t.pending && t'.hbhSeq == t.hbhSeq
  }

  lemma Routes(cfg: Config, s: State, p: PeerId)
    requires !s.crashed && Busy(s, p) && StageOf(s, p).Read?
    ensures var t := After(cfg, s, OnRequest(p, Route));
            Enabled(s, OnRequest(p, Route)) && Here(cfg, s, p, [Route], t, FirstStage(RequestOf(s, p).msg))
            && SameTables(s, t)
  {
    hide Routing;
    OneMore(cfg, s, p, [], s, Route);
    assert [] + [Route] == [Route];
    Moved(cfg, s, p, Route);
    RequestTables(cfg, s, p, Route);
    RequestWrites(cfg, s, p, Route);
    hide After, Walks, AfterRequest, FirstStage;
  }

  lemma {:induction false} Goes(cfg: Config, s: State, p: PeerId, qs: seq<RequestStep>, t: State, g: Stage,
                                q: RequestStep)
    requires Here(cfg, s, p, qs, t, g) && RequestEnabled(t, p, q) && !q.ReadRequest? && !NextStage(cfg, t, p, q).Final()
    requires q.Number? ==> !Rewrite(RequestOf(s, p).msg, cfg.host, cfg.realm).Panicked?
    ensures var t' := After(cfg, t, OnRequest(p, q));
            Here(cfg, s, p, qs + [q], t', NextStage(cfg, t, p, q))
            && t'.peers == t.peers && t'.ids == t.ids
            && t'.hbhSeq == (if q.Number? && Rewrite(RequestOf(s, p).msg, cfg.host, cfg.realm).Rewritten?
                             then (t.hbhSeq + 1) % 0x1_0000_0000 else t.hbhSeq)
            && t'.pending == (if q.Store? && g.Numbered? then t.pending[g.t.id := EntryFor(p, RequestOf(s, p).msg)]
                              else if q.TakeBack? && g.Unsent? then t.pending - {g.t.id} else t.pending)
  {
    OneMore(cfg, s, p, qs, t, q);
    Moved(cfg, t, p, q);
    RequestTables(cfg, t, p, q);
    RequestWrites(cfg, t, p, q);
    hide Walks, AfterRequest, NextStage, Rewrite, EntryFor, ForwardBytes, ErrorAnswer, RequestEnabled, ParseShallow;
  }

  /** The step that sees a request to its end, and what it writes. */
  lemma {:induction false} Ends(cfg: Config, s: State, p: PeerId, qs: seq<RequestStep>, t: State, g: Stage,
                                q: RequestStep)
    requires Here(cfg, s, p, qs, t, g) && ((g.Refusing? && q.Refuse?) || (g.Stored? && q == Send(true)))
    requires Enabled(t, OnRequest(p, q))
    ensures var t', r, msg := After(cfg, t, OnRequest(p, q)), s.handlers[p].r, RequestOf(s, p).msg;
            Over(cfg, s, p, qs + [q], t') && SameTables(t, t')
            && t'.wire == s.wire + if !q.ok then []
                                   else if g.Refusing?
                                   then [Packet(p, ErrorAnswer(ParseShallow(msg), g.code, cfg.host, cfg.realm),
                                                ErrorFor(r))]
                                   else [Packet(g.to, ForwardBytes(cfg, msg, g.t.id), ForwardOf(r))]
  {
    hide Walks, Rewrite, EntryFor, ForwardBytes, ErrorAnswer, ParseShallow, Routing;
    OneMore(cfg, s, p, qs, t, q);
    Moved(cfg, t, p, q);
    RequestTables(cfg, t, p, q);
  }

  /** In most stages the next step depends on nothing else. */
  lemma {:induction false} MayGo(cfg: Config, s: State, p: PeerId, qs: seq<RequestStep>, t: State, g: Stage,
                                 q: RequestStep)
    requires Here(cfg, s, p, qs, t, g)
    requires match q
             case Number => g.Chosen?
             case Store => g.Numbered?
             case Send(_) => g.Stored?
             case TakeBack => g.Unsent?
             case Refuse(_) => g.Refusing?
             case _ => false
    ensures RequestEnabled(t, p, q) && Enabled(t, OnRequest(p, q))
    ensures Rewrite(RequestOf(s, p).msg, cfg.host, cfg.realm).Rewritten? ==>
              NextStage(cfg, t, p, q)
              == match q
                 case Number => Numbered(g.to, Ticket(|t.issued|, (t.hbhSeq + 1) % 0x1_0000_0000))
                 case Store => Stored(g.to, g.t)
                 case Send(ok) => if ok then Forwarded(g.to, g.t) else Unsent(g.to, g.t)
                 case TakeBack => Refusing(DIAMETER_UNABLE_TO_DELIVER, Some(g.t))
                 case Refuse(_) => Refused(g.code, g.tried)
                 case _ => g
    ensures q.Number? && Rewrite(RequestOf(s, p).msg, cfg.host, cfg.realm).Rejected? ==>
              NextStage(cfg, t, p, q) == Refusing(DIAMETER_UNABLE_TO_COMPLY, None)
  {
    hide Walks, Rewrite;
  }

  /** The rewriting panics: the step brings the relay down. */
  lemma {:induction false} Dies(cfg: Config, s: State, p: PeerId, qs: seq<RequestStep>, t: State, g: Stage)
    requires Here(cfg, s, p, qs, t, g) && g.Chosen? && Enabled(t, OnRequest(p, Number))
    requires Rewrite(RequestOf(s, p).msg, cfg.host, cfg.realm).Panicked?
    ensures var t' := After(cfg, t, OnRequest(p, Number));
            Walks(cfg, s, p, qs + [Number]) == Some(t') && t'.crashed && SameTables(t, t') && t'.wire == s.wire
  {
    hide Walks, Rewrite;
    OneMore(cfg, s, p, qs, t, Number);
  }

  lemma FirstStageIs(msg: bytes)
    requires |msg| >= HEADER_LENGTH
    ensures var i := Iterate(msg, HEADER_LENGTH);
            var rv := RoutingOf(i.visits);
            FirstStage(msg) == (if !i.ok then Refusing(DIAMETER_INVALID_AVP_VALUE, None)
                                else if rv.destinationRealm == [] then Refusing(DIAMETER_REALM_NOT_SERVED, None)
                                else if rv.destinationHost == [] then ByRealm else ByHost)
            && (i.ok ==> Routing(msg).Some? && RoutingTo(msg) == rv)
  {
  }

  lemma ByHostExactly(msg: bytes)
    ensures FirstStage(msg).ByHost? ==> RoutingTo(msg).destinationHost != []
    ensures FirstStage(msg).ByRealm? ==> RoutingTo(msg).destinationHost == []
  {
  }

  /** The lookups of pickPeer are steps of the system. */
  lemma {:induction false} Picks(cfg: Config, s: State, p: PeerId, qs: seq<RequestStep>, t: State, g: Stage,
                                 found: Option<PeerId>)
      returns (steps: seq<RequestStep>, last: State)
    requires Here(cfg, s, p, qs, t, g) && g == FirstStage(RequestOf(s, p).msg) && (g.ByHost? || g.ByRealm?)
    requires t.peers.Values <= t.ids.Keys && Picked(t.peers, t.ids, RoutingTo(RequestOf(s, p).msg), p, found)
    ensures Here(cfg, s, p, steps, last,
                 if found.Some? then Chosen(found.value) else Refusing(DIAMETER_UNABLE_TO_DELIVER, None))
    ensures SameTables(t, last)
  {
    hide HostFound, RealmPicked, RoutingTo, Routing, Walks, FirstStage, EntryFor, Rewrite, After;
    var rv := RoutingTo(RequestOf(s, p).msg);
    ByHostExactly(RequestOf(s, p).msg);
    steps, last := qs, t;
    var viaRealm := g.ByRealm?;
    if !viaRealm {
      var h: Option<PeerId>;
      if found.Some? && found.value != p && HostFound(t.peers, t.ids, rv.destinationHost, found) {
        h := found;
      } else {
        h :| HostFound(t.peers, t.ids, rv.destinationHost, h) && (h == None || h == Some(p));
        viaRealm := true;
      }
      Goes(cfg, s, p, qs, t, g, FindHost(h));
      steps, last := qs + [FindHost(h)], After(cfg, t, OnRequest(p, FindHost(h)));
    }
    if viaRealm {
      var now := last;
      Goes(cfg, s, p, steps, now, ByRealm, FindRealm(found));
      steps, last := steps + [FindRealm(found)], After(cfg, now, OnRequest(p, FindRealm(found)));
    }
  }

  /** The steps of forwardAnswer. */
  lemma Takes(cfg: Config, s: State, p: PeerId)
    requires !s.crashed && Carrying(s, p) && AnswerOf(s, p).phase.Looking?
    ensures Enabled(s, OnAnswer(p, Take))
    ensures var id, t := HopByHop(AnswerOf(s, p).msg), After(cfg, s, OnAnswer(p, Take));
            !t.crashed && t.peers == s.peers && t.ids == s.ids && t.hbhSeq == s.hbhSeq
            && t.pending == s.pending - {id} && t.wire == s.wire
            && if id in s.pending
               then Carrying(t, p) && AnswerOf(t, p) == AnswerOf(s, p).(phase := Holding(s.pending[id]))
                    && t.handlers[p] == s.handlers[p]
               else At(t, p, Reading)
  {
    hide HopByHop, Rewrite, ForwardBytes;
    AnswerTables(cfg, s, p, Take);
  }

  lemma RepliesStep(cfg: Config, s: State, p: PeerId, ok: bool)
    requires !s.crashed && Carrying(s, p) && AnswerOf(s, p).phase.Holding?
    ensures Enabled(s, OnAnswer(p, Reply(ok)))
    ensures var x, t := AnswerOf(s, p), After(cfg, s, OnAnswer(p, Reply(ok)));
            var w := Rewrite(x.msg, cfg.host, cfg.realm);
            SameTables(s, t) && t.crashed == w.Panicked?
            && (!w.Panicked? ==> At(t, p, Reading))
            && t.wire == s.wire + if ok && w.Rewritten?
                                  then [Packet(x.phase.e.origPeer, ForwardBytes(cfg, x.msg, x.phase.e.origHbH),
                                               AnswerFrom(s.handlers[p].a))]
                                  else []
  {
    hide HopByHop, Rewrite, ForwardBytes;
    AnswerTables(cfg, s, p, Reply(ok));
  }

  /** What has been added to the wire. */
  predicate Writes(s: State, t: State, written: seq<(PeerId, bytes)>) {
    |t.wire| == |s.wire| + |written| && s.wire <= t.wire
    && forall n :: 0 <= n < |written| ==> written[n] == (t.wire[|s.wire| + n].to, t.wire[|s.wire| + n].out)
  }

  lemma HereBusy(cfg: Config, s: State, p: PeerId, qs: seq<RequestStep>, t: State, g: Stage)
    requires Here(cfg, s, p, qs, t, g)
    ensures Busy(s, p)
  {
  }

  lemma PickedOther(peers: map<Key, PeerId>, ids: map<PeerId, Identity>, rv: RoutingView, from: PeerId,
                    r: Option<PeerId>)
    requires peers.Values <= ids.Keys && Picked(peers, ids, rv, from, r)
    ensures r.Some? ==> r.value != from
  {
  }

  lemma EntryIs(from: PeerId, msg: bytes)
    requires |msg| >= HEADER_LENGTH
    ensures var h := ParseShallow(msg); EntryFor(from, msg) == Entry(from, h.hopByHop, h.endToEnd, h.command)
  {
  }

  lemma CommandFits(msg: bytes)
    requires |msg| >= HEADER_LENGTH
    ensures ParseShallow(msg).command < U24_SPAN
  {
  }

  class Node {
    const host: bytes
    const realm: bytes
    const registry: Registry
    const pending: PendingTable
    var hbhSeq: u32

    constructor (host: bytes, realm: bytes, registry: Registry, pending: PendingTable)
      ensures this.host == host && this.realm == realm && this.registry == registry && this.pending == pending
              && hbhSeq == 0
    {
      this.host, this.realm, this.registry, this.pending, hbhSeq := host, realm, registry, pending, 0;
    }

    predicate Matches(s: State)
      reads this, registry, pending
    {
      registry.Valid() && s.peers == registry.peers && s.ids == registry.identity && s.pending == pending.m
      && s.hbhSeq == hbhSeq
    }

    lemma SameMatches(s: State, t: State)
      requires Matches(s) && SameTables(s, t)
      ensures Matches(t)
    {
    }

    ghost function Name(): (cfg: Config) {
      Config(host, realm)
    }

    /** The error answer to the sender of a request, if it can be written. */
    function Refusal(to: PeerId, msg: bytes, resultCode: u32, ok: bool): (written: seq<(PeerId, bytes)>)
      requires |msg| >= HEADER_LENGTH
    {
      if ok then [(to, ErrorAnswer(ParseShallow(msg), resultCode, host, realm))] else []
    }

    /** atomic.AddUint32: the counter wraps. */
    method NextHbH() returns (id: u32)
      modifies this`hbhSeq
      ensures id == hbhSeq == (old(hbhSeq) + 1) % 0x1_0000_0000
    {
      hbhSeq := (hbhSeq + 1) % 0x1_0000_0000;
      id := hbhSeq;
    }

    /** sendProtocolError, the last step of a refused request. */
    method SendProtocolError(to: PeerId, msg: bytes, resultCode: u32, ok: bool,
                             ghost s: State, ghost qs0: seq<RequestStep>, ghost t0: State, ghost g: Stage)
        returns (written: seq<(PeerId, bytes)>, ghost qs: seq<RequestStep>, ghost t: State)
      requires Here(Name(), s, to, qs0, t0, g) && g.Refusing? && g.code == resultCode && Matches(t0)
      requires RequestOf(s, to).msg == msg && |msg| >= HEADER_LENGTH
      ensures written == Refusal(to, msg, resultCode, ok)
      ensures Over(Name(), s, to, qs, t) && SameTables(t0, t) && Matches(t) && Writes(s, t, written)
    {
      hide Here, Over, Enabled, After, ErrorAnswer, ParseShallow, RequestEnabled, NextStage;
      assert ParseShallow(msg).command < U24_SPAN by { CommandFits(msg); }
      var out := BuildProtocolError(ParseShallow(msg), resultCode, host, realm);
      written := if ok then [(to, out)] else [];
      HereBusy(Name(), s, to, qs0, t0, g);
      MayGo(Name(), s, to, qs0, t0, g, Refuse(ok));
      Ends(Name(), s, to, qs0, t0, g, Refuse(ok));
      qs, t := qs0 + [Refuse(ok)], After(Name(), t0, OnRequest(to, Refuse(ok)));
    }

    /** The second half of forwardRequest: store the entry and send, or take it back. */
    method StoreAndSend(from: PeerId, to: PeerId, msg: bytes, renamed: bytes, newHbH: u32, sendOk: bool, errorOk: bool,
                        ghost s: State, ghost qs1: seq<RequestStep>, ghost t1: State, ghost g: Stage)
        returns (written: seq<(PeerId, bytes)>, ghost qs: seq<RequestStep>, ghost t: State)
      requires Here(Name(), s, from, qs1, t1, g) && Matches(t1) && g.Numbered? && g.to == to && g.t.id == newHbH
      requires RequestOf(s, from).msg == msg && |msg| >= HEADER_LENGTH
               && Rewrite(msg, host, realm) == Rewritten(renamed)
      modifies pending
      ensures Over(Name(), s, from, qs, t) && Matches(t) && Writes(s, t, written)
      ensures if sendOk
              then written == [(to, ForwardBytes(Name(), msg, newHbH))]
                   && pending.m == old(pending.m)[newHbH := EntryFor(from, msg)]
              else written == Refusal(from, msg, DIAMETER_UNABLE_TO_DELIVER, errorOk)
                   && pending.m == old(pending.m) - {newHbH}
    {
      hide Here, Enabled, After, Walks, Over, Rewrite, ErrorAnswer, ParseShallow, EntryFor, RequestEnabled, NextStage,
           WithHopByHop;
      ghost var cfg := Name();
      HereBusy(cfg, s, from, qs1, t1, g);
      var rewritten := new byte[|renamed|](i requires 0 <= i < |renamed| => renamed[i]);
      assert rewritten[..] == renamed;
      SetHopByHop(rewritten, newHbH);
      var h := ParseShallow(msg);
      pending.Put(newHbH, Entry(from, h.hopByHop, h.endToEnd, h.command));
      EntryIs(from, msg);
      MayGo(cfg, s, from, qs1, t1, g, Store);
      Goes(cfg, s, from, qs1, t1, g, Store);
      ghost var t2, qs2, g2 := After(cfg, t1, OnRequest(from, Store)), qs1 + [Store], Stored(to, g.t);
      MayGo(cfg, s, from, qs2, t2, g2, Send(sendOk));
      qs, t := qs2 + [Send(sendOk)], After(cfg, t2, OnRequest(from, Send(sendOk)));
      if sendOk {
        Ends(cfg, s, from, qs2, t2, g2, Send(true));
        written := [(to, rewritten[..])];
        return;
      }
      Goes(cfg, s, from, qs2, t2, g2, Send(false));
      ghost var t3, qs3, g3 := t, qs, Unsent(to, g.t);
      var _ := pending.Take(newHbH);
      assert old(pending.m)[newHbH := EntryFor(from, msg)] - {newHbH} == old(pending.m) - {newHbH};
      MayGo(cfg, s, from, qs3, t3, g3, TakeBack);
      Goes(cfg, s, from, qs3, t3, g3, TakeBack);
      qs, t := qs3 + [TakeBack], After(cfg, t3, OnRequest(from, TakeBack));
      written, qs, t := SendProtocolError(from, msg, DIAMETER_UNABLE_TO_DELIVER, errorOk, s, qs, t,
                                          Refusing(DIAMETER_UNABLE_TO_DELIVER, Some(g.t)));
    }

    /** forwardRequest once a peer is chosen: rewrite, draw a number, store and send. */
    method Dispatch(from: PeerId, to: PeerId, msg: bytes, sendOk: bool, errorOk: bool,
                    ghost s: State, ghost qs0: seq<RequestStep>, ghost t0: State)
        returns (written: seq<(PeerId, bytes)>, crashed: bool, ghost qs: seq<RequestStep>, ghost t: State)
      requires Here(Name(), s, from, qs0, t0, Chosen(to)) && Matches(t0)
      requires RequestOf(s, from).msg == msg && |msg| >= HEADER_LENGTH
      modifies this`hbhSeq, pending
      ensures Walks(Name(), s, from, qs) == Some(t) && crashed == t.crashed && Matches(t) && Writes(s, t, written)
      ensures !crashed ==> At(t, from, Reading)
      ensures crashed <==> Rewrite(msg, host, realm).Panicked?
      ensures forall i :: 0 <= i < |written| ==> written[i].0 in {from, to}
      ensures Rewrite(msg, host, realm).Rewritten? ==>
                var id := (old(hbhSeq) + 1) % 0x1_0000_0000;
                hbhSeq == id
                && (if sendOk
                    then written == [(to, ForwardBytes(Name(), msg, id))]
                         && pending.m == old(pending.m)[id := EntryFor(from, msg)]
                    else written == Refusal(from, msg, DIAMETER_UNABLE_TO_DELIVER, errorOk)
                         && pending.m == old(pending.m) - {id})
    {
      hide Here, Enabled, After, Walks, Rewrite, ErrorAnswer, ParseShallow, EntryFor, RequestEnabled, NextStage,
           WithHopByHop;
      ghost var cfg := Name();
      crashed := false;
      HereBusy(cfg, s, from, qs0, t0, Chosen(to));
      var w := RewriteOriginHostRealm(msg, host, realm);
      MayGo(cfg, s, from, qs0, t0, Chosen(to), Number);
      qs, t := qs0 + [Number], After(cfg, t0, OnRequest(from, Number));
      if w.Panicked? {
        Dies(cfg, s, from, qs0, t0, Chosen(to));
        return [], true, qs, t;
      }
      Goes(cfg, s, from, qs0, t0, Chosen(to), Number);
      if w.Rejected? {
        written, qs, t := SendProtocolError(from, msg, DIAMETER_UNABLE_TO_COMPLY, errorOk, s, qs, t,
                                            Refusing(DIAMETER_UNABLE_TO_COMPLY, None));
        return;
      }
      var newHbH := NextHbH();
      written, qs, t := StoreAndSend(from, to, msg, w.out, newHbH, sendOk, errorOk, s, qs, t,
                                     Numbered(to, Ticket(|t0.issued|, newHbH)));
      crashed := false;
    }

    /** forwardRequest from start to end; which writes succeed is up to the connections.  What it leaves in the tables
        and what it writes is what some steps of the handler leave and write. */
    method ForwardRequest(from: PeerId, msg: bytes, sendOk: bool, errorOk: bool, ghost s: State)
        returns (written: seq<(PeerId, bytes)>, crashed: bool, ghost qs: seq<RequestStep>, ghost t: State)
      requires Matches(s) && !s.crashed && Busy(s, from) && RequestOf(s, from) == Request(from, msg, Read)
      modifies this`hbhSeq, registry`rrCounter, pending
      ensures Walks(Name(), s, from, qs) == Some(t) && crashed == t.crashed && Matches(t) && Writes(s, t, written)
      ensures !crashed ==> At(t, from, Reading)
      ensures FirstStage(msg).Refusing? ==>
                !crashed && written == Refusal(from, msg, FirstStage(msg).code, errorOk)
                && pending.m == old(pending.m) && hbhSeq == old(hbhSeq)
      ensures FirstStage(msg).Refusing? || crashed
              || (exists to :: written == [(to, ForwardBytes(Name(), msg, hbhSeq))] && to != from
                               && pending.m == old(pending.m)[hbhSeq := EntryFor(from, msg)])
              || written == Refusal(from, msg, DIAMETER_UNABLE_TO_DELIVER, errorOk)
      ensures forall i :: 0 <= i < |written| && written[i].0 != from ==>
                PickedWell(registry.peers, registry.identity, RoutingOf(Iterate(msg, HEADER_LENGTH).visits), from,
                           Some(written[i].0))
    {
      hide Here, SameTables, Enabled, After, Walks, Rewrite, ErrorAnswer, ParseShallow, Iterate, RoutingOf, EntryFor,
           Writes, RequestEnabled, NextStage, FirstStage, WithHopByHop, HostFound, RealmPicked, PickedWell, LastGives;
      crashed := false;
      ghost var cfg := Name();
      var rv, ok := ExtractRouting(msg);
      FirstStageIs(msg);
      Routes(cfg, s, from);
      qs, t := [Route], After(cfg, s, OnRequest(from, Route));
      assert Matches(t) by { SameMatches(s, t); }
      if !ok {
        written, qs, t := SendProtocolError(from, msg, DIAMETER_INVALID_AVP_VALUE, errorOk, s, qs, t, FirstStage(msg));
        return;
      }
      if rv.destinationRealm == [] {
        written, qs, t := SendProtocolError(from, msg, DIAMETER_REALM_NOT_SERVED, errorOk, s, qs, t, FirstStage(msg));
        return;
      }
      var to := registry.PickPeer(rv, from);
      assert to.Some? ==> to.value != from by { PickedOther(registry.peers, registry.identity, rv, from, to); }
      ghost var t1 := t;
      qs, t := Picks(cfg, s, from, qs, t, FirstStage(msg), to);
      assert Matches(t) by { SameMatches(t1, t); }
      if to.None? {
        written, qs, t := SendProtocolError(from, msg, DIAMETER_UNABLE_TO_DELIVER, errorOk, s, qs, t,
                                            Refusing(DIAMETER_UNABLE_TO_DELIVER, None));
        return;
      }
      RelaySafety.RoutableRewrites(msg, host, realm);
      written, crashed, qs, t := Dispatch(from, to.value, msg, sendOk, errorOk, s, qs, t);
    }

    /** forwardAnswer from start to end. */
    method ForwardAnswer(from: PeerId, msg: bytes, ok: bool, ghost s: State)
        returns (written: seq<(PeerId, bytes)>, crashed: bool, ghost t: State)
      requires Matches(s) && !s.crashed && Carrying(s, from) && AnswerOf(s, from) == Answer(from, msg, Looking)
      modifies pending
      ensures Enabled(s, OnAnswer(from, Take))
      ensures var t1 := After(Name(), s, OnAnswer(from, Take));
              if HopByHop(msg) in s.pending
              then Enabled(t1, OnAnswer(from, Reply(ok))) && t == After(Name(), t1, OnAnswer(from, Reply(ok)))
              else t == t1
      ensures crashed == t.crashed && Matches(t) && Writes(s, t, written)
      ensures !crashed ==> At(t, from, Reading)
    {
      hide Enabled, After, Rewrite, ParseShallow, WithHopByHop, AnswerEnabled, NextPhase;
      ghost var cfg := Name();
      crashed := false;
      Takes(cfg, s, from);
      t := After(cfg, s, OnAnswer(from, Take));
      var entry := pending.Take(ParseShallow(msg).hopByHop);
      if entry.None? {
        return [], false, t;
      }
      ghost var t1 := t;
      RepliesStep(cfg, t1, from, ok);
      t := After(cfg, t1, OnAnswer(from, Reply(ok)));
      var w := RewriteOriginHostRealm(msg, host, realm);
      if w.Panicked? {
        return [], true, t;
      }
      if w.Rejected? {
        return [], false, t;
      }
      var rewritten := new byte[|w.out|](i requires 0 <= i < |w.out| => w.out[i]);
      assert rewritten[..] == w.out;
      SetHopByHop(rewritten, entry.value.origHbH);
      written := if ok then [(entry.value.origPeer, rewritten[..])] else [];
    }
  }
}
