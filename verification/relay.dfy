/** The relay as a system of steps: one handler for each connection, sharing the registry, the pending table and the
    Hop-by-Hop counter.  Each critical section, atomic operation, read and write of a socket is one step. */
module Relay {
  import opened Wrappers
  import opened Bytes
  import opened Headers
  import opened Framing
  import opened Rewriter
  import opened RelayTables
  import opened ProtocolErrors

  /** The relay's own identity. */
  datatype Config = Config(host: bytes, realm: bytes)

  // --- what a handler is doing ---

  /** A number drawn from the counter: the how-manieth draw it was, and the Hop-by-Hop identifier it gave. */
  datatype Ticket = Ticket(i: nat, id: u32)

  /** How far forwardRequest has come with a request. */
  datatype Stage =
    | Read
    | ByHost
    | ByRealm
    | Chosen(to: PeerId)
    | Numbered(to: PeerId, t: Ticket)
    | Stored(to: PeerId, t: Ticket)
    | Unsent(to: PeerId, t: Ticket)
    | Refusing(code: u32, tried: Option<Ticket>)
    | Refused(code: u32, tried: Option<Ticket>)
    | Forwarded(to: PeerId, t: Ticket)
  {
    predicate Final() {
      Refused? || Forwarded?
    }

    /** The number drawn for the request, if it came to that. */
    function Drawn(): (t: Option<Ticket>) {
      match this
      case Numbered(_, t) => Some(t)
      case Stored(_, t) => Some(t)
      case Unsent(_, t) => Some(t)
      case Refusing(_, tried) => tried
      case Refused(_, tried) => tried
      case Forwarded(_, t) => Some(t)
      case _ => None
    }

    /** Has the request been entered in the pending table? */
    predicate Entered() {
      Drawn().Some? && !Numbered?
    }
  }

  datatype Request = Request(from: PeerId, msg: bytes, stage: Stage)

  /** How far forwardAnswer has come with an answer; Matched is also where an answer ends that could not be sent. */
  datatype Phase = Looking | Holding(e: Entry) | Unmatched | Matched(e: Entry)
  {
    predicate Final() {
      Unmatched? || Matched?
    }

    predicate Took() {
      Holding? || Matched?
    }
  }

  datatype Answer = Answer(from: PeerId, msg: bytes, phase: Phase)

  datatype Handler = Greeting | Joining | Reading | Working(r: nat) | Relaying(a: nat) | Closing | Removing | Gone
  {
    /** May the registry lead to the peer? */
    predicate Up() {
      !Greeting? && !Joining? && !Gone?
    }

    /** Has the capabilities exchange fixed the peer's identity? */
    predicate Known() {
      !Greeting? && !Joining?
    }

    /** Has the deferred cleanup run forgetPeer? */
    predicate Cleaned() {
      Removing? || Gone?
    }
  }

  // --- what the relay writes ---

  datatype Cause = ForwardOf(r: nat) | ErrorFor(r: nat) | AnswerFrom(a: nat)

  /** A message written to a peer without an error. */
  datatype Packet = Packet(to: PeerId, out: bytes, cause: Cause)

  // --- the state ---

  /** The shared tables, the handlers, and the history: every request and answer read, in order, with how far it came;
      for each draw from the counter the request it was for; what was written; and what happened to table entries. */
  datatype State = State(
    handlers: map<PeerId, Handler>,
    ids: map<PeerId, Identity>,
    peers: map<Key, PeerId>,
    pending: map<u32, Entry>,
    hbhSeq: u32,
    crashed: bool,
    requests: seq<Request>,
    answers: seq<Answer>,
    issued: seq<nat>,
    wire: seq<Packet>,
    puts: nat,
    takes: nat,
    forgotten: nat,
    overwritten: nat)

  const INIT := State(map[], map[], map[], map[], 0, false, [], [], [], [], 0, 0, 0, 0)

  /** The life of a connection; Greet is a CER taken in, with a CEA that could or could not be sent. */
  datatype LifeStep =
    | Accept(remote: nat)
    | Greet(host: bytes, realm: bytes, sent: bool)
    | Decline
    | Join
    | Leave
    | Forget
    | Remove

  /** forwardRequest; found is what a lookup came up with and ok whether a write succeeded. */
  datatype RequestStep =
    | ReadRequest(msg: bytes)
    | Route
    | FindHost(found: Option<PeerId>)
    | FindRealm(found: Option<PeerId>)
    | Number
    | Store
    | Send(ok: bool)
    | TakeBack
    | Refuse(ok: bool)

  /** forwardAnswer. */
  datatype AnswerStep = ReadAnswer(msg: bytes) | Take | Reply(ok: bool)

  datatype Event =
    | Stop
    | Life(p: PeerId, l: LifeStep)
    | OnRequest(p: PeerId, q: RequestStep)
    | OnAnswer(p: PeerId, x: AnswerStep)

  // --- what a message says ---

  const DEVICE_WATCHDOG: u32 := 280
  const DISCONNECT_PEER: u32 := 282

  /** Traffic the relay forwards: well framed and neither a watchdog nor a disconnect message. */
  predicate IsTraffic(msg: bytes) {
    |msg| >= HEADER_LENGTH && WellFormed(Strict, msg)
    && ParseShallow(msg).command !in {DEVICE_WATCHDOG, DISCONNECT_PEER}
  }

  function HopByHop(msg: bytes): (id: u32) {
    if |msg| < HEADER_LENGTH then 0 else ParseShallow(msg).hopByHop
  }

  /** What extractRouting finds, and whether it does so without an error. */
  function Routing(msg: bytes): (r: Option<RoutingView>) {
    if |msg| < HEADER_LENGTH || !Iterate(msg, HEADER_LENGTH).ok then None
    else Some(RoutingOf(Iterate(msg, HEADER_LENGTH).visits))
  }

  /** What the view holds when extractRouting succeeds. */
  function RoutingTo(msg: bytes): (rv: RoutingView) {
    if Routing(msg).Some? then Routing(msg).value else RoutingView([], [], [], [])
  }

  function EntryFor(from: PeerId, msg: bytes): (e: Entry)
    requires |msg| >= HEADER_LENGTH
  {
    var h := ParseShallow(msg);
    Entry(from, h.hopByHop, h.endToEnd, h.command)
  }

  // --- the steps ---

  predicate At(s: State, p: PeerId, h: Handler) {
    p in s.handlers && s.handlers[p] == h
  }

  /** Handler p is working on a request. */
  predicate Busy(s: State, p: PeerId) {
    p in s.handlers && s.handlers[p].Working? && s.handlers[p].r < |s.requests|
    && |s.requests[s.handlers[p].r].msg| >= HEADER_LENGTH
  }

  function StageOf(s: State, p: PeerId): (g: Stage)
    requires Busy(s, p)
  {
    s.requests[s.handlers[p].r].stage
  }

  function RequestOf(s: State, p: PeerId): (q: Request)
    requires Busy(s, p)
  {
    s.requests[s.handlers[p].r]
  }

  /** Handler p is working on an answer. */
  predicate Carrying(s: State, p: PeerId) {
    p in s.handlers && s.handlers[p].Relaying? && s.handlers[p].a < |s.answers|
    && |s.answers[s.handlers[p].a].msg| >= HEADER_LENGTH
  }

  function AnswerOf(s: State, p: PeerId): (a: Answer)
    requires Carrying(s, p)
  {
    s.answers[s.handlers[p].a]
  }

  predicate LifeEnabled(s: State, p: PeerId, l: LifeStep) {
    match l
    case Accept(_) => p !in s.handlers
    case Greet(_, _, _) => At(s, p, Greeting) && p in s.ids
    case Decline => At(s, p, Greeting)
    case Join => At(s, p, Joining) && p in s.ids
    case Leave => At(s, p, Reading)
    case Forget => At(s, p, Closing)
    case Remove => At(s, p, Removing) && p in s.ids
  }

  ghost predicate RequestEnabled(s: State, p: PeerId, q: RequestStep) {
    match q
    case ReadRequest(msg) => At(s, p, Reading) && IsTraffic(msg) && ParseShallow(msg).IsRequest()
    case Route => Busy(s, p) && StageOf(s, p).Read?
    case FindHost(found) =>
      Busy(s, p) && StageOf(s, p).ByHost? && s.peers.Values <= s.ids.Keys
      && HostFound(s.peers, s.ids, RoutingTo(RequestOf(s, p).msg).destinationHost, found)
    case FindRealm(found) =>
      Busy(s, p) && StageOf(s, p).ByRealm? && s.peers.Values <= s.ids.Keys
      && RealmPicked(s.peers, s.ids, RoutingTo(RequestOf(s, p).msg).destinationRealm, p, found)
    case Number => Busy(s, p) && StageOf(s, p).Chosen?
    case Store => Busy(s, p) && StageOf(s, p).Numbered?
    case Send(_) => Busy(s, p) && StageOf(s, p).Stored?
    case TakeBack => Busy(s, p) && StageOf(s, p).Unsent?
    case Refuse(_) => Busy(s, p) && StageOf(s, p).Refusing?
  }

  predicate AnswerEnabled(s: State, p: PeerId, x: AnswerStep) {
    match x
    case ReadAnswer(msg) => At(s, p, Reading) && IsTraffic(msg) && !ParseShallow(msg).IsRequest()
    case Take => Carrying(s, p) && AnswerOf(s, p).phase.Looking?
    case Reply(_) => Carrying(s, p) && AnswerOf(s, p).phase.Holding?
  }

  ghost predicate Enabled(s: State, e: Event) {
    !s.crashed
    && match e
       case Stop => true
       case Life(p, l) => LifeEnabled(s, p, l)
       case OnRequest(p, q) => RequestEnabled(s, p, q)
       case OnAnswer(p, x) => AnswerEnabled(s, p, x)
  }

  function Turn(s: State, p: PeerId, h: Handler): (r: State) {
    s.(handlers := s.handlers[p := h])
  }

  /** The request handler p is working on moves to another stage; at a final one the handler goes back to reading. */
  function Move(s: State, p: PeerId, g: Stage): (r: State)
    requires Busy(s, p)
  {
    s.(requests := s.requests[s.handlers[p].r := RequestOf(s, p).(stage := g)],
       handlers := if g.Final() then s.handlers[p := Reading] else s.handlers)
  }

  function MoveAnswer(s: State, p: PeerId, f: Phase): (r: State)
    requires Carrying(s, p)
  {
    s.(answers := s.answers[s.handlers[p].a := AnswerOf(s, p).(phase := f)],
       handlers := if f.Final() then s.handlers[p := Reading] else s.handlers)
  }

  function Written(s: State, ok: bool, k: Packet): (r: State) {
    if ok then s.(wire := s.wire + [k]) else s
  }

  /** The registration and the deferred cleanup. */
  function AfterLife(s: State, p: PeerId, l: LifeStep): (r: State)
    requires LifeEnabled(s, p, l)
  {
    match l
    case Accept(remote) => Turn(s, p, Greeting).(ids := s.ids[p := Identity([], [], remote)])
    case Greet(host, realm, sent) =>
      Turn(s, p, if sent then Joining else Closing).(ids := s.ids[p := Identity(host, realm, s.ids[p].remote)])
    case Decline => Turn(s, p, Closing)
    case Join => Turn(s, p, Reading).(peers := s.peers[KeyOf(s.ids[p]) := p])
    case Leave => Turn(s, p, Closing)
    case Forget =>
      Turn(s, p, Removing).(pending := Forgotten(s.pending, p),
                            forgotten := s.forgotten + |s.pending.Keys - Forgotten(s.pending, p).Keys|)
    case Remove => Turn(s, p, Gone).(peers := Without(s.peers, KeyOf(s.ids[p]), p))
  }

  /** Where a request goes first. */
  function FirstStage(msg: bytes): (g: Stage) {
    var rv := Routing(msg);
    if rv.None? then Refusing(DIAMETER_INVALID_AVP_VALUE, None)
    else if rv.value.destinationRealm == [] then Refusing(DIAMETER_REALM_NOT_SERVED, None)
    else if rv.value.destinationHost == [] then ByRealm
    else ByHost
  }

  /** The bytes a request or an answer leaves the relay with: Origin AVPs renamed, then the Hop-by-Hop identifier. */
  function ForwardBytes(cfg: Config, msg: bytes, id: u32): (out: bytes) {
    var w := Rewrite(msg, cfg.host, cfg.realm);
    if w.Rewritten? then WithHopByHop(w.out, id) else []
  }

  /** The control flow of forwardRequest: where a step takes the request. */
  function NextStage(cfg: Config, s: State, p: PeerId, q: RequestStep): (g: Stage)
    requires Busy(s, p)
  {
    var now, msg := StageOf(s, p), RequestOf(s, p).msg;
    match (q, now)
    case (Route, Read) => FirstStage(msg)
    case (FindHost(found), ByHost) => if found.Some? && found.value != p then Chosen(found.value) else ByRealm
    case (FindRealm(found), ByRealm) =>
      if found.Some? then Chosen(found.value) else Refusing(DIAMETER_UNABLE_TO_DELIVER, None)
    case (Number, Chosen(to)) =>
      if Rewrite(msg, cfg.host, cfg.realm).Rejected? then Refusing(DIAMETER_UNABLE_TO_COMPLY, None)
      else Numbered(to, Ticket(|s.issued|, (s.hbhSeq + 1) % 0x1_0000_0000))
    case (Store, Numbered(to, t)) => Stored(to, t)
    case (Send(ok), Stored(to, t)) => if ok then Forwarded(to, t) else Unsent(to, t)
    case (TakeBack, Unsent(_, t)) => Refusing(DIAMETER_UNABLE_TO_DELIVER, Some(t))
    case (Refuse(_), Refusing(code, tried)) => Refused(code, tried)
    case _ => now
  }

  /** A step of forwardRequest and what it does to the counter, the pending table and the wire. */
  ghost function AfterRequest(cfg: Config, s: State, p: PeerId, q: RequestStep): (r: State)
    requires RequestEnabled(s, p, q)
  {
    if q.ReadRequest? then
      Turn(s, p, Working(|s.requests|)).(requests := s.requests + [Request(p, q.msg, Read)])
    else
      var g, msg, moved := StageOf(s, p), RequestOf(s, p).msg, Move(s, p, NextStage(cfg, s, p, q));
      match q
      case Number =>
        (match Rewrite(msg, cfg.host, cfg.realm)
         case Panicked => s.(crashed := true)
         case Rejected => moved
         case Rewritten(_) => moved.(hbhSeq := (s.hbhSeq + 1) % 0x1_0000_0000, issued := s.issued + [s.handlers[p].r]))
      case Store =>
        moved.(pending := s.pending[g.t.id := EntryFor(p, msg)],
               puts := s.puts + 1,
               overwritten := s.overwritten + if g.t.id in s.pending then 1 else 0)
      case Send(ok) =>
        Written(moved, ok, Packet(g.to, ForwardBytes(cfg, msg, g.t.id), ForwardOf(s.handlers[p].r)))
      case TakeBack =>
        moved.(pending := s.pending - {g.t.id}, takes := s.takes + if g.t.id in s.pending then 1 else 0)
      case Refuse(ok) =>
        Written(moved, ok, Packet(p, ErrorAnswer(ParseShallow(msg), g.code, cfg.host, cfg.realm),
                                  ErrorFor(s.handlers[p].r)))
      case _ => moved
  }

  /** The control flow of forwardAnswer. */
  function NextPhase(s: State, p: PeerId, x: AnswerStep): (f: Phase)
    requires Carrying(s, p)
  {
    var now, id := AnswerOf(s, p).phase, HopByHop(AnswerOf(s, p).msg);
    match (x, now)
    case (Take, Looking) => if id in s.pending then Holding(s.pending[id]) else Unmatched
    case (Reply(_), Holding(e)) => Matched(e)
    case _ => now
  }

  /** A step of forwardAnswer and what it does to the pending table and the wire. */
  function AfterAnswer(cfg: Config, s: State, p: PeerId, x: AnswerStep): (r: State)
    requires AnswerEnabled(s, p, x)
  {
    if x.ReadAnswer? then
      Turn(s, p, Relaying(|s.answers|)).(answers := s.answers + [Answer(p, x.msg, Looking)])
    else
      var a, moved := AnswerOf(s, p), MoveAnswer(s, p, NextPhase(s, p, x));
      if x.Take? then
        var id := HopByHop(a.msg);
        moved.(pending := s.pending - {id}, takes := s.takes + if id in s.pending then 1 else 0)
      else
        match Rewrite(a.msg, cfg.host, cfg.realm)
        case Panicked => s.(crashed := true)
        case Rejected => moved
        case Rewritten(_) =>
          Written(moved, x.ok, Packet(a.phase.e.origPeer, ForwardBytes(cfg, a.msg, a.phase.e.origHbH),
                                      AnswerFrom(s.handlers[p].a)))
  }

  ghost function After(cfg: Config, s: State, e: Event): (r: State)
    requires Enabled(s, e)
  {
    match e
    case Stop => s.(peers := map[])
    case Life(p, l) => AfterLife(s, p, l)
    case OnRequest(p, q) => AfterRequest(cfg, s, p, q)
    case OnAnswer(p, x) => AfterAnswer(cfg, s, p, x)
  }

  /** The state a run ends in, if each of its steps can be taken. */
  ghost function Run(cfg: Config, es: seq<Event>): (r: Option<State>) {
    if es == [] then Some(INIT)
    else
      var before := Run(cfg, es[..|es| - 1]);
      var e := es[|es| - 1];
      if before.Some? && Enabled(before.value, e) then Some(After(cfg, before.value, e)) else None
  }
}
