/** Where requests go, in terms of the AVPs they carry. */
module RelayRouting {
  import opened Wrappers
  import opened Bytes
  import opened Headers
  import opened Rewriter
  import opened RelayTables
  import opened ProtocolErrors
  import opened Relay
  import opened RelaySteps
  import opened RelaySafety
  import opened RelayRuns

  /** The relay can walk the message, and the last AVP of the code without vendor holds the value; with no such AVP the
      value is empty. */
  predicate Says(msg: bytes, code: u32, value: bytes) {
    |msg| >= HEADER_LENGTH && Iterate(msg, HEADER_LENGTH).ok
    && LastGives(Iterate(msg, HEADER_LENGTH).visits, code, value)
  }

  lemma SaysWhere(msg: bytes, code: u32, value: bytes)
    requires Says(msg, code, value)
    ensures Routing(msg).Some?
    ensures code == 283 ==> RoutingTo(msg).destinationRealm == value
    ensures code == 293 ==> RoutingTo(msg).destinationHost == value
  {
    hide Iterate, LastGives, LastOf;
    LastGivesOne(Iterate(msg, HEADER_LENGTH).visits, code, value);
  }

  // --- by the message alone ---

  /** A request is refused at once if its AVPs cannot be walked, with 5004, or name no Destination-Realm (283), with
      3003; otherwise it is looked up by its Destination-Host (293), if it names one, and by its realm. */
  lemma FirstStageExactly(msg: bytes, realm: bytes, host: bytes)
    requires Says(msg, 283, realm) && Says(msg, 293, host)
    ensures FirstStage(msg) == if realm == [] then Refusing(3003, None) else if host == [] then ByRealm else ByHost
    ensures RefusalCode(msg) == if realm == [] then 3003 else 3002
  {
    SaysWhere(msg, 283, realm);
    SaysWhere(msg, 293, host);
    hide Routing;
  }

  lemma UnwalkableRefused(msg: bytes)
    requires |msg| >= HEADER_LENGTH && !Iterate(msg, HEADER_LENGTH).ok
    ensures FirstStage(msg) == Refusing(5004, None) && RefusalCode(msg) == 5004
  {
    hide Iterate;
  }

  /** The relay's traffic, in bytes: version 1, the length its own, between 20 and 2^20, and a command other than 280
      and 282. */
  lemma TrafficExactly(msg: bytes)
    ensures IsTraffic(msg) <==>
              20 <= |msg| <= 1048576 && msg[0] == 1
              && msg[1] as int * 0x1_0000 + msg[2] as int * 0x100 + msg[3] == |msg|
              && msg[5] as int * 0x1_0000 + msg[6] as int * 0x100 + msg[7] !in {280, 282}
    ensures |msg| >= 20 ==> (ParseShallow(msg).IsRequest() <==> msg[4] >= 128)
  {
    if |msg| >= 20 {
      assert msg[1..4] == [msg[1], msg[2], msg[3]] && msg[5..8] == [msg[5], msg[6], msg[7]];
    }
  }

  // --- in every run ---

  /** Step k looks up the host of request r, with this result. */
  ghost predicate LooksUp(cfg: Config, es: seq<Event>, k: nat, r: nat, found: Option<PeerId>) {
    k < |es| && Run(cfg, es[..k]).Some?
    && es[k].OnRequest? && es[k].q == FindHost(found) && At(Run(cfg, es[..k]).value, es[k].p, Working(r))
    && Enabled(Run(cfg, es[..k]).value, es[k])
  }

  /** Is it another peer than the sender? */
  predicate Useful(q: Request, found: Option<PeerId>) {
    found.Some? && found.value != q.from
  }

  /** A request that names a host has been looked up by it: to no avail if it is to go by its realm, and if it has a
      peer to go to then that is the one found, unless that was to no avail. */
  ghost predicate LookedUp(cfg: Config, es: seq<Event>, r: nat, q: Request) {
    match q.stage
    case Read => true
    case ByHost => true
    case Refusing(_, _) => true
    case Refused(_, _) => true
    case ByRealm => exists k, found :: LooksUp(cfg, es, k, r, found) && !Useful(q, found)
    case _ => exists k, found :: LooksUp(cfg, es, k, r, found) && (Useful(q, found) ==> q.stage.to == found.value)
  }

  ghost predicate NamesHost(q: Request) {
    exists host :: host != [] && Says(q.msg, 293, host)
  }

  lemma LooksUpLater(cfg: Config, es: seq<Event>, e: Event, k: nat, r: nat, found: Option<PeerId>)
    requires LooksUp(cfg, es, k, r, found)
    ensures LooksUp(cfg, es + [e], k, r, found)
  {
    hide Run, Enabled;
    assert (es + [e])[..k] == es[..k];
  }

  lemma LookedUpLater(cfg: Config, es: seq<Event>, e: Event, r: nat, q: Request)
    requires LookedUp(cfg, es, r, q)
    ensures LookedUp(cfg, es + [e], r, q)
  {
    hide LooksUp;
    forall k, found | LooksUp(cfg, es, k, r, found)
      ensures LooksUp(cfg, es + [e], k, r, found)
    {
      LooksUpLater(cfg, es, e, k, r, found);
    }
  }

  /** The stages, for a request that names a host. */
  lemma NextStages(cfg: Config, s: State, p: PeerId, q: RequestStep)
    requires RequestEnabled(s, p, q) && !q.ReadRequest?
    ensures Busy(s, p)
    ensures var now, next := RequestOf(s, p), NextStage(cfg, s, p, q);
            match next
            case Read => false
            case ByHost => true
            case ByRealm => (q.Route? && !NamesHost(now)) || (q.FindHost? && !(q.found.Some? && q.found.value != p))
            case Refusing(_, _) => true
            case Refused(_, _) => true
            case Chosen(to) => (q.FindHost? && q.found == Some(to) && to != p) || now.stage.ByRealm?
            case Numbered(to, _) => now.stage == Chosen(to)
            case Stored(to, t) => now.stage == Numbered(to, t)
            case Unsent(to, t) => now.stage == Stored(to, t)
            case Forwarded(to, t) => now.stage == Stored(to, t)
  {
    hide Rewrite, RoutingTo, HostFound, RealmPicked, FirstStage, NamesHost;
    if q.Route? {
      RouteSplits(RequestOf(s, p));
    }
  }

  lemma RouteSplits(q: Request)
    ensures FirstStage(q.msg).Refusing? || FirstStage(q.msg).ByHost? || (FirstStage(q.msg).ByRealm? && !NamesHost(q))
  {
    if host :| host != [] && Says(q.msg, 293, host) {
      SaysWhere(q.msg, 293, host);
    }
    hide Routing, Says;
  }

  lemma LookedUpKept(cfg: Config, es: seq<Event>, s: State, e: Event, r: nat)
    requires Reached(cfg, es, s) && Enabled(s, e) && r < |After(cfg, s, e).requests|
    requires r < |s.requests| && NamesHost(s.requests[r]) ==> LookedUp(cfg, es, r, s.requests[r])
    requires NamesHost(After(cfg, s, e).requests[r])
    ensures LookedUp(cfg, es + [e], r, After(cfg, s, e).requests[r])
  {
    var q' := After(cfg, s, e).requests[r];
    RequestsAfter(cfg, s, e);
    InvAlways(cfg, es, s);
    InvShape(cfg, s);
    hide After, NamesHost, NextStage, Inv;
    if e.OnRequest? && !e.q.ReadRequest? && Busy(s, e.p) && s.handlers[e.p].r == r && q' != s.requests[r] {
      assert HandlerFits(s, e.p);
      StepLooksUp(cfg, es, s, e, r);
    } else if r < |s.requests| {
      assert q' == s.requests[r];
      LookedUpLater(cfg, es, e, r, q');
    }
  }

  lemma StepLooksUp(cfg: Config, es: seq<Event>, s: State, e: Event, r: nat)
    requires Reached(cfg, es, s) && Enabled(s, e) && e.OnRequest? && !e.q.ReadRequest? && Busy(s, e.p)
    requires s.handlers[e.p].r == r && s.requests[r].from == e.p && NamesHost(s.requests[r])
    requires LookedUp(cfg, es, r, s.requests[r])
    ensures LookedUp(cfg, es + [e], r, s.requests[r].(stage := NextStage(cfg, s, e.p, e.q)))
  {
    var q, n := s.requests[r], |es|;
    var q' := q.(stage := NextStage(cfg, s, e.p, e.q));
    NextStages(cfg, s, e.p, e.q);
    assert (es + [e])[..n] == es && (es + [e])[n] == e;
    if e.q.FindHost? {
      assert LooksUp(cfg, es + [e], n, r, e.q.found);
    }
    LookedUpLater(cfg, es, e, r, q);
    hide NamesHost, NextStage, Run, LooksUp, Enabled, Reached;
  }

  lemma {:induction false} AllLookedUp(cfg: Config, es: seq<Event>, s: State, r: nat)
    requires Reached(cfg, es, s) && r < |s.requests| && NamesHost(s.requests[r])
    ensures LookedUp(cfg, es, r, s.requests[r])
  {
    hide Enabled, After, NamesHost, LookedUp;
    var before, e := es[..|es| - 1], es[|es| - 1];
    var s0 := Run(cfg, before).value;
    assert Reached(cfg, before, s0) && Enabled(s0, e) && s == After(cfg, s0, e);
    assert es == before + [e];
    if r < |s0.requests| && NamesHost(s0.requests[r]) {
      AllLookedUp(cfg, before, s0, r);
    }
    hide Reached;
    LookedUpKept(cfg, before, s0, e, r);
  }

  /** A forwarded request that names a Destination-Host has been looked up by it; and if at that moment some registered
      peer was of that host, but not the sender, then it has gone to a registered peer of that host. */
  lemma HostHonoured(cfg: Config, es: seq<Event>, s: State, r: nat, host: bytes)
      returns (k: nat, s0: State)
    requires Reached(cfg, es, s) && r < |s.requests| && s.requests[r].stage.Forwarded?
    requires host != [] && Says(s.requests[r].msg, 293, host)
    ensures k < |es| && Run(cfg, es[..k]) == Some(s0) && es[k].OnRequest? && es[k].q.FindHost?
    ensures At(s0, es[k].p, Working(r)) && s0.peers.Values <= s0.ids.Keys
    ensures (exists j <- s0.peers :: s0.ids[s0.peers[j]].host == host)
            && (forall j <- s0.peers :: s0.ids[s0.peers[j]].host == host ==> s0.peers[j] != s.requests[r].from) ==>
              var to := s.requests[r].stage.to;
              (exists j <- s0.peers :: s0.peers[j] == to) && s0.ids[to].host == host
  {
    AllLookedUp(cfg, es, s, r);
    var found: Option<PeerId>;
    k, found :| LooksUp(cfg, es, k, r, found)
                && (Useful(s.requests[r], found) ==> s.requests[r].stage.to == found.value);
    s0 := Run(cfg, es[..k]).value;
    RunPrefix(cfg, es, k, s, r);
    HostLookup(s0, es[k].p, found, host, s.requests[r].msg);
    hide Run, Enabled, Reached, LookedUp, Says;
  }

  /** What a request says does not change. */
  lemma {:induction false} RunPrefix(cfg: Config, es: seq<Event>, k: nat, s: State, r: nat)
    requires Reached(cfg, es, s) && k <= |es| && Run(cfg, es[..k]).Some? && r < |Run(cfg, es[..k]).value.requests|
    ensures r < |s.requests| && s.requests[r].msg == Run(cfg, es[..k]).value.requests[r].msg
    ensures s.requests[r].from == Run(cfg, es[..k]).value.requests[r].from
  {
    hide Enabled, After;
    if k == |es| {
      assert es[..k] == es;
    } else {
      var before, e := es[..|es| - 1], es[|es| - 1];
      assert before[..k] == es[..k];
      RunPrefix(cfg, before, k, Run(cfg, before).value, r);
      RequestsAfter(cfg, Run(cfg, before).value, e);
    }
  }

  lemma HostLookup(s: State, p: PeerId, found: Option<PeerId>, host: bytes, msg: bytes)
    requires RequestEnabled(s, p, FindHost(found)) && RequestOf(s, p).msg == msg && Says(msg, 293, host)
    ensures s.peers.Values <= s.ids.Keys
    ensures if found.None? then forall j <- s.peers :: s.ids[s.peers[j]].host != host
            else (exists j <- s.peers :: s.peers[j] == found.value) && s.ids[found.value].host == host
  {
    SaysWhere(msg, 293, host);
    hide Says, RoutingTo;
  }
}
