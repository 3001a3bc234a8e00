/** Runs and messages that show what goes wrong: a request with two replies, a relay brought down by a message without
    its padding, and messages that the relay refuses although the codec reads them. */
module RelayWitness {
  import opened Wrappers
  import opened Bytes
  import opened Headers
  import Codec
  import Messages
  import opened Framing
  import opened Avps
  import opened Rewriter
  import opened Rewriting
  import opened RelayTables
  import opened ProtocolErrors
  import opened Relay
  import opened RelaySteps
  import opened RelayRuns

  const CLIENT: PeerId := 0
  const SERVER: PeerId := 1

  lemma OneMoreEvent(cfg: Config, es: seq<Event>, s: State, e: Event)
    requires Run(cfg, es) == Some(s) && Enabled(s, e)
    ensures Run(cfg, es + [e]) == Some(After(cfg, s, e))
  {
    assert (es + [e])[..|es|] == es;
    hide Enabled, After;
  }

  /** The two peers, one of the realm asked for. */
  function Ids(realm: bytes): (ids: map<PeerId, Identity>) {
    map[CLIENT := Identity([1], [], 0), SERVER := Identity([2], realm, 1)]
  }

  /** Both peers have joined and the request has come so far. */
  function Ready(realm: bytes, handler: Handler, pending: map<u32, Entry>, requests: seq<Request>,
                 issued: seq<nat>): (s: State)
    requires |issued| < U32_SPAN
  {
    State(map[CLIENT := handler, SERVER := Reading], Ids(realm), map[([1], 0) := CLIENT, ([2], 1) := SERVER], pending,
          |issued|, false, requests, [], issued, [], |pending|, 0, 0, 0)
  }

  lemma PeerJoins(cfg: Config, es0: seq<Event>, s: State, p: PeerId, id: Identity) returns (es: seq<Event>)
    requires Run(cfg, es0) == Some(s) && !s.crashed && p !in s.handlers
    ensures Run(cfg, es)
            == Some(s.(handlers := s.handlers[p := Reading], ids := s.ids[p := id], peers := s.peers[KeyOf(id) := p]))
  {
    hide Run, Enabled, After, KeyOf;
    var e1, e2, e3 := Life(p, Accept(id.remote)), Life(p, Greet(id.host, id.realm, true)), Life(p, Join);
    var s1 := s.(handlers := s.handlers[p := Greeting], ids := s.ids[p := Identity([], [], id.remote)]);
    var s2 := s.(handlers := s.handlers[p := Joining], ids := s.ids[p := id]);
    Accepts(cfg, s, p, id);
    OneMoreEvent(cfg, es0, s, e1);
    Greets(cfg, s, s1, p, id);
    OneMoreEvent(cfg, es0 + [e1], s1, e2);
    Joins(cfg, s, s2, p, id);
    OneMoreEvent(cfg, es0 + [e1] + [e2], s2, e3);
    es := es0 + [e1] + [e2] + [e3];
  }

  lemma Accepts(cfg: Config, s: State, p: PeerId, id: Identity)
    requires !s.crashed && p !in s.handlers
    ensures var e := Life(p, Accept(id.remote));
            Enabled(s, e)
            && After(cfg, s, e) == s.(handlers := s.handlers[p := Greeting],
                                      ids := s.ids[p := Identity([], [], id.remote)])
  {
    hide AfterRequest, AfterAnswer, RequestEnabled, AnswerEnabled;
  }

  lemma Greets(cfg: Config, s: State, s1: State, p: PeerId, id: Identity)
    requires !s.crashed && s1 == s.(handlers := s.handlers[p := Greeting],
                                    ids := s.ids[p := Identity([], [], id.remote)])
    ensures var e := Life(p, Greet(id.host, id.realm, true));
            Enabled(s1, e) && After(cfg, s1, e) == s.(handlers := s.handlers[p := Joining], ids := s.ids[p := id])
  {
    hide AfterRequest, AfterAnswer, RequestEnabled, AnswerEnabled;
    assert s.handlers[p := Greeting][p := Joining] == s.handlers[p := Joining];
    assert s.ids[p := Identity([], [], id.remote)][p := id] == s.ids[p := id];
  }

  lemma Joins(cfg: Config, s: State, s2: State, p: PeerId, id: Identity)
    requires !s.crashed && s2 == s.(handlers := s.handlers[p := Joining], ids := s.ids[p := id])
    ensures var e := Life(p, Join);
            Enabled(s2, e)
            && After(cfg, s2, e) == s.(handlers := s.handlers[p := Reading], ids := s.ids[p := id],
                                       peers := s.peers[KeyOf(id) := p])
  {
    hide AfterRequest, AfterAnswer, RequestEnabled, AnswerEnabled;
    assert s.handlers[p := Joining][p := Reading] == s.handlers[p := Reading];
  }

  lemma BothJoin(cfg: Config, realm: bytes) returns (es: seq<Event>)
    ensures Run(cfg, es) == Some(Ready(realm, Reading, map[], [], []))
  {
    var s1 := INIT.(handlers := INIT.handlers[CLIENT := Reading], ids := INIT.ids[CLIENT := Identity([1], [], 0)],
                    peers := INIT.peers[([1], 0) := CLIENT]);
    assert Run(cfg, []) == Some(INIT);
    var es1 := PeerJoins(cfg, [], INIT, CLIENT, Identity([1], [], 0));
    hide Run;
    es := PeerJoins(cfg, es1, s1, SERVER, Identity([2], realm, 1));
  }

  /** A request the relay routes by its realm. */
  predicate ForRealm(realm: bytes, req: bytes) {
    && IsTraffic(req) && ParseShallow(req).IsRequest()
    && FirstStage(req) == ByRealm && RoutingTo(req).destinationRealm == realm
  }

  /** One that it forwards, and an answer to the first identifier it draws. */
  predicate Exchange(cfg: Config, realm: bytes, req: bytes, ans: bytes) {
    && ForRealm(realm, req) && IsTraffic(ans) && !ParseShallow(ans).IsRequest()
    && Rewrite(req, cfg.host, cfg.realm).Rewritten? && Rewrite(ans, cfg.host, cfg.realm).Rewritten?
    && HopByHop(ans) == 1
  }

  /** The request on its way, at some stage. */
  function Underway(realm: bytes, req: bytes, g: Stage, pending: map<u32, Entry>, issued: seq<nat>): (s: State)
    requires |issued| < U32_SPAN
  {
    Ready(realm, Working(0), pending, [Request(CLIENT, req, g)], issued)
  }

  lemma Reads(cfg: Config, realm: bytes, req: bytes)
    requires ForRealm(realm, req)
    ensures var s, e := Ready(realm, Reading, map[], [], []), OnRequest(CLIENT, ReadRequest(req));
            Enabled(s, e) && After(cfg, s, e) == Underway(realm, req, Read, map[], [])
  {
    hide Rewrite, Routing, WellFormed, ParseShallow;
  }

  lemma RoutesByRealm(cfg: Config, realm: bytes, req: bytes)
    requires ForRealm(realm, req)
    ensures var s, e := Underway(realm, req, Read, map[], []), OnRequest(CLIENT, Route);
            Enabled(s, e) && After(cfg, s, e) == Underway(realm, req, ByRealm, map[], [])
  {
    hide Rewrite, Routing, WellFormed, ParseShallow, FirstStage;
  }

  lemma FindsServer(cfg: Config, realm: bytes, req: bytes)
    requires ForRealm(realm, req)
    ensures var s, e := Underway(realm, req, ByRealm, map[], []), OnRequest(CLIENT, FindRealm(Some(SERVER)));
            Enabled(s, e) && After(cfg, s, e) == Underway(realm, req, Chosen(SERVER), map[], [])
  {
    hide Rewrite, Routing, RoutingTo, WellFormed, ParseShallow, FirstStage;
    var s := Underway(realm, req, ByRealm, map[], []);
    assert s.peers.Values <= s.ids.Keys;
    assert ([2], 1) in s.peers && s.peers[([2], 1)] == SERVER;
    assert Candidate(s.peers, s.ids, realm, CLIENT, SERVER);
  }

  lemma Numbers(cfg: Config, realm: bytes, req: bytes, ans: bytes)
    requires Exchange(cfg, realm, req, ans)
    ensures var s, e := Underway(realm, req, Chosen(SERVER), map[], []), OnRequest(CLIENT, Number);
            Enabled(s, e) && After(cfg, s, e) == Underway(realm, req, Numbered(SERVER, Ticket(0, 1)), map[], [0])
  {
    hide Rewrite, Routing, RoutingTo, WellFormed, ParseShallow, FirstStage;
  }

  lemma Stores(cfg: Config, realm: bytes, req: bytes, ans: bytes)
    requires Exchange(cfg, realm, req, ans)
    ensures var s, e := Underway(realm, req, Numbered(SERVER, Ticket(0, 1)), map[], [0]), OnRequest(CLIENT, Store);
            Enabled(s, e)
            && After(cfg, s, e) == Underway(realm, req, Stored(SERVER, Ticket(0, 1)), map[1 := EntryFor(CLIENT, req)],
                                            [0])
  {
    hide Rewrite, Routing, RoutingTo, WellFormed, ParseShallow, FirstStage, EntryFor;
  }

  /** The server has answered before the write of the request has returned. */
  function Answered(cfg: Config, realm: bytes, req: bytes, ans: bytes, g: Stage): (s: State)
    requires |req| >= HEADER_LENGTH
  {
    Underway(realm, req, g, map[], [0]).(
      answers := [Answer(SERVER, ans, Matched(EntryFor(CLIENT, req)))], puts := 1, takes := 1,
      wire := [Packet(CLIENT, ForwardBytes(cfg, ans, HopByHop(req)), AnswerFrom(0))])
  }

  /** The handler of the server with the answer in its hands. */
  function Relays(realm: bytes, req: bytes, ans: bytes, f: Phase, pending: map<u32, Entry>): (s: State) {
    Underway(realm, req, Stored(SERVER, Ticket(0, 1)), pending, [0]).(
      handlers := map[CLIENT := Working(0), SERVER := Relaying(0)], answers := [Answer(SERVER, ans, f)],
      puts := 1, takes := if f.Took() then 1 else 0)
  }

  lemma ReadsAnswer(cfg: Config, realm: bytes, req: bytes, ans: bytes)
    requires Exchange(cfg, realm, req, ans)
    ensures var pending := map[1 := EntryFor(CLIENT, req)];
            var s, e := Underway(realm, req, Stored(SERVER, Ticket(0, 1)), pending, [0]),
                OnAnswer(SERVER, ReadAnswer(ans));
            Enabled(s, e) && After(cfg, s, e) == Relays(realm, req, ans, Looking, pending)
  {
    hide Rewrite, Routing, RoutingTo, WellFormed, FirstStage, EntryFor, ParseShallow;
  }

  lemma TakesEntry(cfg: Config, realm: bytes, req: bytes, ans: bytes)
    requires Exchange(cfg, realm, req, ans)
    ensures var entry := EntryFor(CLIENT, req);
            var s, e := Relays(realm, req, ans, Looking, map[1 := entry]), OnAnswer(SERVER, Take);
            Enabled(s, e) && After(cfg, s, e) == Relays(realm, req, ans, Holding(entry), map[])
  {
    hide Rewrite, Routing, RoutingTo, WellFormed, FirstStage, ParseShallow, EntryFor;
    assert map[1 := EntryFor(CLIENT, req)] - {1} == map[];
  }

  lemma RepliesFirst(cfg: Config, realm: bytes, req: bytes, ans: bytes)
    requires Exchange(cfg, realm, req, ans)
    ensures var s, e := Relays(realm, req, ans, Holding(EntryFor(CLIENT, req)), map[]), OnAnswer(SERVER, Reply(true));
            Enabled(s, e) && After(cfg, s, e) == Answered(cfg, realm, req, ans, Stored(SERVER, Ticket(0, 1)))
  {
    hide Rewrite, Routing, RoutingTo, WellFormed, FirstStage, ForwardBytes;
    var s := Relays(realm, req, ans, Holding(EntryFor(CLIENT, req)), map[]);
    assert EntryFor(CLIENT, req).origHbH == HopByHop(req) && EntryFor(CLIENT, req).origPeer == CLIENT;
    hide ParseShallow, EntryFor, HopByHop;
    assert s.handlers[SERVER := Reading] == Underway(realm, req, Stored(SERVER, Ticket(0, 1)), map[], [0]).handlers;
  }

  lemma SendFails(cfg: Config, realm: bytes, req: bytes, ans: bytes)
    requires Exchange(cfg, realm, req, ans)
    ensures var s, e := Answered(cfg, realm, req, ans, Stored(SERVER, Ticket(0, 1))), OnRequest(CLIENT, Send(false));
            Enabled(s, e) && After(cfg, s, e) == Answered(cfg, realm, req, ans, Unsent(SERVER, Ticket(0, 1)))
  {
    hide Rewrite, Routing, RoutingTo, WellFormed, FirstStage, ForwardBytes, EntryFor, HopByHop, ParseShallow, AfterLife,
         AfterAnswer, LifeEnabled, AnswerEnabled;
  }

  lemma TakesNothingBack(cfg: Config, realm: bytes, req: bytes, ans: bytes)
    requires Exchange(cfg, realm, req, ans)
    ensures var s, e := Answered(cfg, realm, req, ans, Unsent(SERVER, Ticket(0, 1))), OnRequest(CLIENT, TakeBack);
            Enabled(s, e)
            && After(cfg, s, e) == Answered(cfg, realm, req, ans,
                                            Refusing(DIAMETER_UNABLE_TO_DELIVER, Some(Ticket(0, 1))))
  {
    hide Rewrite, Routing, RoutingTo, WellFormed, FirstStage, ForwardBytes, EntryFor, HopByHop, ParseShallow, AfterLife,
         AfterAnswer, LifeEnabled, AnswerEnabled;
    var none: map<u32, Entry> := map[];
    assert none - {1} == none;
  }

  lemma RepliesAgain(cfg: Config, realm: bytes, req: bytes, ans: bytes)
    requires Exchange(cfg, realm, req, ans)
    ensures var s := Answered(cfg, realm, req, ans, Refusing(DIAMETER_UNABLE_TO_DELIVER, Some(Ticket(0, 1))));
            var e := OnRequest(CLIENT, Refuse(true));
            Enabled(s, e)
            && var t := After(cfg, s, e);
               |t.wire| == 2 && t.wire[0] == s.wire[0] && t.wire[1].cause == ErrorFor(0) && t.wire[1].to == CLIENT
               && t.issued == [0] && t.answers == s.answers
  {
    hide Rewrite, Routing, RoutingTo, WellFormed, FirstStage, ForwardBytes, EntryFor, HopByHop, ParseShallow,
         ErrorAnswer, AfterLife, AfterAnswer, LifeEnabled, AnswerEnabled;
  }

  lemma Refuses(cfg: Config, es0: seq<Event>, realm: bytes, req: bytes, ans: bytes) returns (es: seq<Event>, s: State)
    requires |req| >= HEADER_LENGTH && Exchange(cfg, realm, req, ans)
    requires Run(cfg, es0) == Some(Answered(cfg, realm, req, ans, Stored(SERVER, Ticket(0, 1))))
    ensures Run(cfg, es) == Some(s) && |s.wire| == 2 && s.wire[0].cause == AnswerFrom(0)
            && s.wire[1].cause == ErrorFor(0)
    ensures s.wire[0].to == CLIENT && s.wire[1].to == CLIENT && s.issued == [0]
    ensures |s.answers| == 1 && s.answers[0].msg == ans
  {
    hide Run, Enabled, After, Exchange, EntryFor, Ready;
    var t := Ticket(0, 1);
    var e1, e2, e3 := OnRequest(CLIENT, Send(false)), OnRequest(CLIENT, TakeBack), OnRequest(CLIENT, Refuse(true));
    SendFails(cfg, realm, req, ans);
    OneMoreEvent(cfg, es0, Answered(cfg, realm, req, ans, Stored(SERVER, t)), e1);
    TakesNothingBack(cfg, realm, req, ans);
    OneMoreEvent(cfg, es0 + [e1], Answered(cfg, realm, req, ans, Unsent(SERVER, t)), e2);
    RepliesAgain(cfg, realm, req, ans);
    var s2 := Answered(cfg, realm, req, ans, Refusing(DIAMETER_UNABLE_TO_DELIVER, Some(t)));
    OneMoreEvent(cfg, es0 + [e1] + [e2], s2, e3);
    s := After(cfg, s2, e3);
    es := es0 + [e1] + [e2] + [e3];
  }

  /** A message of command 316 with some AVPs. */
  function SomeMessage(request: bool, hopByHop: u32, avps: bytes): (msg: bytes)
    requires HEADER_LENGTH + |avps| < U24_SPAN
  {
    PrintHeader(Header(1, HEADER_LENGTH + |avps|, Flags(request, false, false, false), 316, 0, hopByHop, 0)) + avps
  }

  lemma SomeMessageRead(request: bool, hopByHop: u32, avps: bytes)
    requires HEADER_LENGTH + |avps| <= LARGEST_FRAME
    ensures var msg := SomeMessage(request, hopByHop, avps);
            IsTraffic(msg) && ParseShallow(msg).IsRequest() == request && HopByHop(msg) == hopByHop
            && msg[HEADER_LENGTH..] == avps
  {
    hide PrintHeader, ReadHeader, ParseShallow, Get24;
    var h := Header(1, HEADER_LENGTH + |avps|, Flags(request, false, false, false), 316, 0, hopByHop, 0);
    HeaderRoundTrip(h, avps);
    ShallowAgrees(SomeMessage(request, hopByHop, avps));
    HeaderFields(SomeMessage(request, hopByHop, avps));
  }

  lemma HeaderFields(msg: bytes)
    requires |msg| >= HEADER_LENGTH
    ensures msg[0] == ReadHeader(msg).version && Get24(msg[1..4]) == ReadHeader(msg).length
  {
  }

  /** One Destination-Realm and nothing else, with its padding or without. */
  lemma RealmOnly(msg: bytes, realm: bytes)
    requires |msg| >= HEADER_LENGTH && realm != []
    requires Walk(msg[HEADER_LENGTH..]).chunks == [msg[HEADER_LENGTH..]]
    requires Walk(msg[HEADER_LENGTH..]).stop in {Clean, Ragged}
    requires HeaderFits(msg[HEADER_LENGTH..]) && Seen(msg[HEADER_LENGTH..]) == View(DESTINATION_REALM, 0, realm)
    ensures FirstStage(msg) == ByRealm && RoutingTo(msg).destinationRealm == realm
  {
    WalkersAgree(msg, HEADER_LENGTH);
    hide HeaderFits, Walk, Iterate, Seen;
    var visits := Iterate(msg, HEADER_LENGTH).visits;
    assert Agrees(msg, visits[0], msg[HEADER_LENGTH..]);
    var v := visits[0];
    assert visits == [v] && visits[..0] == [];
    assert LastOf([], DESTINATION_HOST) == [] && LastOf([], DESTINATION_REALM) == [];
  }

  lemma PrintedRealm(realm: bytes)
    requires PrintedLength(0, realm) < U24_SPAN
    ensures var c := StringAvp(DESTINATION_REALM, realm);
            Walk(c) == Walked([c], Clean) && HeaderFits(c) && Seen(c) == View(DESTINATION_REALM, 0, realm)
  {
    var c := StringAvp(DESTINATION_REALM, realm);
    StringAvpSeen(DESTINATION_REALM, realm);
    hide StringAvp, HeaderFits, IsAvp, Walk, Seen;
    ConcatOne(c);
    WalkOfAvps([c]);
  }

  lemma CleanRewrites(msg: bytes, host: bytes, realm: bytes)
    requires |msg| >= HEADER_LENGTH && Walk(msg[HEADER_LENGTH..]).stop == Clean
    ensures Rewrite(msg, host, realm).Rewritten?
  {
    hide Walk, NewRow, Concat;
  }

  lemma SomeExchange(cfg: Config) returns (realm: bytes, req: bytes, ans: bytes)
    ensures Exchange(cfg, realm, req, ans)
  {
    realm := [114];
    var avp := StringAvp(DESTINATION_REALM, realm);
    assert |avp| == 12;
    hide StringAvp, IsTraffic, ParseShallow, Rewrite, FirstStage, RoutingTo, HopByHop, Walk, SomeMessage, HeaderFits,
         Seen;
    req, ans := SomeMessage(true, 7, avp), SomeMessage(false, 1, []);
    SomeMessageRead(true, 7, avp);
    SomeMessageRead(false, 1, []);
    assert |req| >= HEADER_LENGTH && |ans| >= HEADER_LENGTH by { TrafficLength(req); TrafficLength(ans); }
    PrintedRealm(realm);
    RealmOnly(req, realm);
    EmptyWalk();
    CleanRewrites(req, cfg.host, cfg.realm);
    CleanRewrites(ans, cfg.host, cfg.realm);
  }

  lemma TrafficLength(msg: bytes)
    requires IsTraffic(msg)
    ensures |msg| >= HEADER_LENGTH
  {
  }

  lemma EmptyWalk()
    ensures Walk([]).stop == Clean
  {
  }

  /** A server that answers a request although writing it to the server failed makes the relay reply twice: with the
      answer and with an error.  So AtMostOneReply needs its assumption, and the case of TwoReplies does occur. */
  lemma TwoRepliesHappen(cfg: Config) returns (es: seq<Event>, s: State)
    ensures Reached(cfg, es, s) && |s.wire| == 2 && s.wire[0].to == s.wire[1].to == CLIENT
    ensures RepliesTo(s, s.wire[0], 0) && RepliesTo(s, s.wire[1], 0)
  {
    var realm, req, ans := SomeExchange(cfg);
    assert |req| >= HEADER_LENGTH;
    hide Exchange, Rewrite, FirstStage, Run, EntryFor;
    var es0 := Forwards(cfg, realm, req, ans);
    var es1 := AnswerRelayed(cfg, es0, realm, req, ans);
    es, s := Refuses(cfg, es1, realm, req, ans);
    SameIdentifier(cfg, realm, req, ans);
  }

  /** From nothing to a request for which the server has been chosen. */
  lemma Chooses(cfg: Config, realm: bytes, req: bytes) returns (es: seq<Event>)
    requires |req| >= HEADER_LENGTH && ForRealm(realm, req)
    ensures Run(cfg, es) == Some(Underway(realm, req, Chosen(SERVER), map[], []))
  {
    hide Enabled, After, Run, EntryFor, ForRealm, Ready;
    var es0 := BothJoin(cfg, realm);
    Reads(cfg, realm, req);
    OneMoreEvent(cfg, es0, Ready(realm, Reading, map[], [], []), OnRequest(CLIENT, ReadRequest(req)));
    var es1 := es0 + [OnRequest(CLIENT, ReadRequest(req))];
    RoutesByRealm(cfg, realm, req);
    OneMoreEvent(cfg, es1, Underway(realm, req, Read, map[], []), OnRequest(CLIENT, Route));
    var es2 := es1 + [OnRequest(CLIENT, Route)];
    FindsServer(cfg, realm, req);
    OneMoreEvent(cfg, es2, Underway(realm, req, ByRealm, map[], []), OnRequest(CLIENT, FindRealm(Some(SERVER))));
    es := es2 + [OnRequest(CLIENT, FindRealm(Some(SERVER)))];
  }

  /** And on, to a request stored and about to be written. */
  lemma Forwards(cfg: Config, realm: bytes, req: bytes, ans: bytes) returns (es: seq<Event>)
    requires |req| >= HEADER_LENGTH && Exchange(cfg, realm, req, ans)
    ensures Run(cfg, es) == Some(Underway(realm, req, Stored(SERVER, Ticket(0, 1)), map[1 := EntryFor(CLIENT, req)],
                                          [0]))
  {
    var es3 := Chooses(cfg, realm, req);
    hide Enabled, After, Run, EntryFor, Exchange, Ready;
    Numbers(cfg, realm, req, ans);
    OneMoreEvent(cfg, es3, Underway(realm, req, Chosen(SERVER), map[], []), OnRequest(CLIENT, Number));
    var es4 := es3 + [OnRequest(CLIENT, Number)];
    Stores(cfg, realm, req, ans);
    OneMoreEvent(cfg, es4, Underway(realm, req, Numbered(SERVER, Ticket(0, 1)), map[], [0]), OnRequest(CLIENT, Store));
    es := es4 + [OnRequest(CLIENT, Store)];
  }

  /** The answer, before the write of the request has returned. */
  lemma AnswerRelayed(cfg: Config, es0: seq<Event>, realm: bytes, req: bytes, ans: bytes) returns (es: seq<Event>)
    requires |req| >= HEADER_LENGTH && Exchange(cfg, realm, req, ans)
    requires Run(cfg, es0) == Some(Underway(realm, req, Stored(SERVER, Ticket(0, 1)), map[1 := EntryFor(CLIENT, req)],
                                            [0]))
    ensures Run(cfg, es) == Some(Answered(cfg, realm, req, ans, Stored(SERVER, Ticket(0, 1))))
  {
    hide Enabled, After, Run, EntryFor, Exchange, Ready, Answered, Underway, Relays;
    var pending := map[1 := EntryFor(CLIENT, req)];
    ReadsAnswer(cfg, realm, req, ans);
    OneMoreEvent(cfg, es0, Underway(realm, req, Stored(SERVER, Ticket(0, 1)), pending, [0]),
                 OnAnswer(SERVER, ReadAnswer(ans)));
    var es1 := es0 + [OnAnswer(SERVER, ReadAnswer(ans))];
    TakesEntry(cfg, realm, req, ans);
    OneMoreEvent(cfg, es1, Relays(realm, req, ans, Looking, pending), OnAnswer(SERVER, Take));
    var es2 := es1 + [OnAnswer(SERVER, Take)];
    RepliesFirst(cfg, realm, req, ans);
    OneMoreEvent(cfg, es2, Relays(realm, req, ans, Holding(pending[1]), map[]), OnAnswer(SERVER, Reply(true)));
    es := es2 + [OnAnswer(SERVER, Reply(true))];
  }

  lemma SameIdentifier(cfg: Config, realm: bytes, req: bytes, ans: bytes)
    requires Exchange(cfg, realm, req, ans)
    ensures HopByHop(ans) == 1 && IssueOf(1) == 0
  {
  }

  // --- a message that brings the relay down ---

  /** A request with one Destination-Realm, whose three bytes of padding are missing. */
  lemma SomeUnpadded() returns (realm: bytes, req: bytes)
    ensures ForRealm(realm, req) && RunsPastEnd(req)
  {
    var c: bytes := [0, 0, 1, 27, 0x40, 0, 0, 9, 114];
    realm := [114];
    assert c[..4] == [0, 0, 1, 27] && Get32(c[..4]) == DESTINATION_REALM;
    RaggedAvp(c);
    hide IsTraffic, ParseShallow, Rewrite, FirstStage, RoutingTo, HopByHop, Walk, SomeMessage, HeaderFits, Seen,
         RunsPastEnd, Iterate, Get32;
    req := SomeMessage(true, 7, c);
    SomeMessageRead(true, 7, c);
    assert |req| >= HEADER_LENGTH by { TrafficLength(req); }
    RealmOnly(req, realm);
    RaggedPanics(req, [], []);
    RewriteOutcome(req, [], []);
  }

  lemma RaggedPanics(msg: bytes, host: bytes, realm: bytes)
    requires |msg| >= HEADER_LENGTH && Walk(msg[HEADER_LENGTH..]).stop == Ragged
    requires CopiesRagged(Walk(msg[HEADER_LENGTH..]))
    ensures Rewrite(msg, host, realm) == Panicked
  {
    hide Walk, CopiesRagged;
  }

  /** Two peers join, and the one sends that request: a run that ends with the relay down. */
  lemma CrashHappens(cfg: Config) returns (es: seq<Event>, s: State)
    ensures Reached(cfg, es, s) && s.crashed
  {
    var realm, req := SomeUnpadded();
    assert |req| >= HEADER_LENGTH by { TrafficLength(req); }
    hide ForRealm, RunsPastEnd;
    var es0 := Chooses(cfg, realm, req);
    var s0, e := Underway(realm, req, Chosen(SERVER), map[], []), OnRequest(CLIENT, Number);
    ChosenNumbers(realm, req);
    hide Enabled, After, Run, Underway;
    CrashesWhen(cfg, s0, e);
    OneMoreEvent(cfg, es0, s0, e);
    es, s := es0 + [e], After(cfg, s0, e);
  }

  lemma ChosenNumbers(realm: bytes, req: bytes)
    requires |req| >= HEADER_LENGTH
    ensures var s := Underway(realm, req, Chosen(SERVER), map[], []);
            Enabled(s, OnRequest(CLIENT, Number)) && Busy(s, CLIENT) && RequestOf(s, CLIENT).msg == req
  {
  }

  // --- messages that the relay refuses and the codec reads ---

  /** Of the messages Unmarshal reads the relay refuses a request as holding an invalid AVP, and drops an answer,
      exactly when a rest of one to seven bytes is left behind the AVPs. */
  lemma RefusedThoughRead(cfg: Config, schema: Codec.Schema, fields: seq<Codec.Field>, cells: seq<Codec.Cell>,
                          msg: bytes)
    requires |msg| >= HEADER_LENGTH && |cells| == |fields| && Messages.Parsed(schema, fields, cells, msg).Ok?
    ensures FirstStage(msg) == Refusing(DIAMETER_INVALID_AVP_VALUE, None) <==> 0 < RestLength(msg) < 8
    ensures Rewrite(msg, cfg.host, cfg.realm) == Rejected <==> 0 < RestLength(msg) < 8
  {
    hide Iterate, Messages.Parsed, Rewrite, RestLength, RunsPastEnd;
    AcceptancesDiffer(schema, fields, cells, msg);
    RewriteOutcome(msg, cfg.host, cfg.realm);
  }

  /** Four bytes too many: a request and an answer of 24 bytes. */
  lemma RefusedThoughReadHappens(cfg: Config, schema: Codec.Schema, fields: seq<Codec.Field>, cells: seq<Codec.Cell>)
    returns (req: bytes, ans: bytes)
    requires |cells| == |fields|
    ensures |req| == |ans| == 24 && IsTraffic(req) && IsTraffic(ans)
    ensures ParseShallow(req).IsRequest() && !ParseShallow(ans).IsRequest()
    ensures Messages.Parsed(schema, fields, cells, req).Ok? && Messages.Parsed(schema, fields, cells, ans).Ok?
    ensures FirstStage(req) == Refusing(DIAMETER_INVALID_AVP_VALUE, None)
    ensures Rewrite(ans, cfg.host, cfg.realm) == Rejected
  {
    hide IsTraffic, ParseShallow, Rewrite, FirstStage, Messages.Parsed, Iterate, RestLength;
    var rest: bytes := [0, 0, 0, 0];
    req, ans := SomeMessage(true, 7, rest), SomeMessage(false, 1, rest);
    SomeMessageRead(true, 7, rest);
    SomeMessageRead(false, 1, rest);
    hide SomeMessage;
    RefusedRest(cfg, schema, fields, cells, req);
    RefusedRest(cfg, schema, fields, cells, ans);
  }

  lemma RefusedRest(cfg: Config, schema: Codec.Schema, fields: seq<Codec.Field>, cells: seq<Codec.Cell>, msg: bytes)
    requires |cells| == |fields| && HEADER_LENGTH < |msg| < HEADER_LENGTH + 8
    ensures Messages.Parsed(schema, fields, cells, msg).Ok?
    ensures FirstStage(msg) == Refusing(DIAMETER_INVALID_AVP_VALUE, None)
    ensures Rewrite(msg, cfg.host, cfg.realm) == Rejected
  {
    hide Rewrite, Messages.Parsed, Iterate, RestLength, RunsPastEnd;
    assert msg == msg[..HEADER_LENGTH] + msg[HEADER_LENGTH..];
    ShortRestDiffers(schema, fields, cells, msg[..HEADER_LENGTH], msg[HEADER_LENGTH..]);
    RewriteOutcome(msg, cfg.host, cfg.realm);
  }
}
