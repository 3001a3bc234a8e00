/** The source-port allocator: a FIFO free list, an in-use map and a timed quarantine. */
module PortPool {
  import opened Bytes

  datatype PoolConfig = PoolConfig(hasSourceIP: bool, minPort: int, maxPort: int, quarantineDuration: int)

  datatype ConfigError = NoSourceIP | BadMinPort | BadMaxPort | EmptyRange | NegativeQuarantine

  datatype Checked = Fine | Wrong(error: ConfigError)

  /** The checks of New, in their order. */
  function Check(cfg: PoolConfig): (r: Checked) {
    if !cfg.hasSourceIP then Wrong(NoSourceIP)
    else if cfg.minPort < 1 || cfg.minPort > 65535 then Wrong(BadMinPort)
    else if cfg.maxPort < 1 || cfg.maxPort > 65535 then Wrong(BadMaxPort)
    else if cfg.minPort > cfg.maxPort then Wrong(EmptyRange)
    else if cfg.quarantineDuration < 0 then Wrong(NegativeQuarantine)
    else Fine
  }

  predicate InRange(cfg: PoolConfig, p: int) {
    cfg.minPort <= p <= cfg.maxPort
  }

  /** The ports from a up to and including b. */
  function Range(a: nat, b: int): (r: seq<nat>)
    ensures |r| == if a <= b then b - a + 1 else 0
    ensures forall k :: 0 <= k < |r| ==> r[k] == a + k
    decreases b - a
  {
    if b < a then [] else [a] + Range(a + 1, b)
  }

  /** What the mutex guards; quarantine holds the earliest time a port may be acquired again. */
  datatype PoolState = PoolState(free: seq<nat>, inUse: map<nat, string>, quarantine: map<nat, int>, failures: nat)

  function Initial(cfg: PoolConfig): (s: PoolState)
    requires Check(cfg).Fine?
  {
    PoolState(Range(cfg.minPort, cfg.maxPort), map[], map[], 0)
  }

  predicate NoDup(s: seq<nat>) {
    forall i, j :: 0 <= i < j < |s| ==> s[i] != s[j]
  }

  // --- the specification of the operations ---

  function Unexpired(m: map<nat, int>, now: int): (r: map<nat, int>) {
    map p | p in m && now < m[p] :: m[p]
  }

  /** sweepQuarantineLocked at a time: the expired ports join the end of the free list, each once, in some order. */
  ghost predicate Swept(s: PoolState, now: int, s': PoolState) {
    && s'.inUse == s.inUse && s'.failures == s.failures
    && s'.quarantine == Unexpired(s.quarantine, now)
    && s.free <= s'.free
    && var joined := s'.free[|s.free|..];
       NoDup(joined) && forall p :: p in joined <==> p in s.quarantine && s.quarantine[p] <= now
  }

  /** One operation of the pool with its arguments, its time and its result. */
  datatype PoolEvent =
    | Acquired(owner: string, now: int, got: nat)
    | Exhausted(owner: string, now: int)
    | Released(port: int, now: int)
    | Looked(now: int)

  /** Acquire after its sweep. */
  predicate Popped(s: PoolState, e: PoolEvent, s': PoolState)
    requires e.Acquired? || e.Exhausted?
  {
    match e
    case Acquired(owner, _, port) =>
      s.free != [] && port == s.free[0] && s' == s.(free := s.free[1..], inUse := s.inUse[port := owner])
    case Exhausted(_, _) =>
      s.free == [] && s' == s.(failures := (s.failures + 1) % 0x1_0000_0000_0000_0000)
  }

  function AfterRelease(cfg: PoolConfig, s: PoolState, port: int, now: int): (r: PoolState) {
    if port !in s.inUse then s
    else if cfg.quarantineDuration > 0 then
      s.(inUse := s.inUse - {port}, quarantine := s.quarantine[port := now + cfg.quarantineDuration])
    else
      s.(inUse := s.inUse - {port}, free := s.free + [port])
  }

  ghost predicate PoolStep(cfg: PoolConfig, s: PoolState, e: PoolEvent, s': PoolState) {
    match e
    case Released(port, now) => s' == AfterRelease(cfg, s, port, now)
    case Looked(now) => Swept(s, now, s')
    case _ => exists mid :: Swept(s, e.now, mid) && Popped(mid, e, s')
  }

  // --- what every operation keeps ---

  /** Every port of the range is free, in use or quarantined, and only one of these; the free list repeats none. */
  ghost predicate Partition(cfg: PoolConfig, s: PoolState) {
    && NoDup(s.free)
    && (forall p <- s.free :: InRange(cfg, p) && p !in s.inUse && p !in s.quarantine)
    && (forall p <- s.inUse :: InRange(cfg, p) && p !in s.quarantine)
    && (forall p <- s.quarantine :: InRange(cfg, p))
    && (forall p :: InRange(cfg, p) ==> p in s.free || p in s.inUse || p in s.quarantine)
  }

  lemma SweepKeeps(cfg: PoolConfig, s: PoolState, now: int, s': PoolState)
    requires Partition(cfg, s) && Swept(s, now, s')
    ensures Partition(cfg, s')
  {
    var n := |s.free|;
    assert s'.free == s.free + s'.free[n..];
    forall i, j | 0 <= i < j < |s'.free|
      ensures s'.free[i] != s'.free[j]
    {
      if n <= i {
        assert s'.free[n..][i - n] == s'.free[i] && s'.free[n..][j - n] == s'.free[j];
      } else if n <= j {
        assert s'.free[i] in s.free && s'.free[j] in s'.free[n..];
      } else {
        assert s.free[i] == s'.free[i] && s.free[j] == s'.free[j];
      }
    }
  }

  lemma PopKeeps(cfg: PoolConfig, s: PoolState, e: PoolEvent, s': PoolState)
    requires Partition(cfg, s) && (e.Acquired? || e.Exhausted?) && Popped(s, e, s')
    ensures Partition(cfg, s')
  {
    if e.Acquired? {
      assert s.free == [s.free[0]] + s'.free;
      assert forall i :: 0 <= i < |s'.free| ==> s'.free[i] == s.free[i + 1];
    }
  }

  lemma ReleaseKeeps(cfg: PoolConfig, s: PoolState, port: int, now: int)
    requires Partition(cfg, s)
    ensures Partition(cfg, AfterRelease(cfg, s, port, now))
  {
  }

  lemma StepKeeps(cfg: PoolConfig, s: PoolState, e: PoolEvent, s': PoolState)
    requires Partition(cfg, s) && PoolStep(cfg, s, e, s')
    ensures Partition(cfg, s')
  {
    hide Partition, Swept, Popped, AfterRelease;
    match e
    case Released(port, now) => ReleaseKeeps(cfg, s, port, now);
    case Looked(now) => SweepKeeps(cfg, s, now, s');
    case _ =>
      var mid :| Swept(s, e.now, mid) && Popped(mid, e, s');
      SweepKeeps(cfg, s, e.now, mid);
      PopKeeps(cfg, mid, e, s');
  }

  lemma InitialPartition(cfg: PoolConfig)
    requires Check(cfg).Fine?
    ensures Partition(cfg, Initial(cfg))
  {
    var r := Range(cfg.minPort, cfg.maxPort);
    forall p | InRange(cfg, p)
      ensures p in r
    {
      RangeHolds(cfg, p);
    }
  }

  /** Acquire fails exactly when every port of the range is in use or still quarantined at that time. */
  lemma ExhaustedExactly(cfg: PoolConfig, s: PoolState, e: PoolEvent, s': PoolState)
    requires Partition(cfg, s) && PoolStep(cfg, s, e, s') && (e.Acquired? || e.Exhausted?)
    ensures e.Exhausted? <==> forall p :: InRange(cfg, p) ==>
                                       p in s.inUse || (p in s.quarantine && e.now < s.quarantine[p])
  {
    var mid :| Swept(s, e.now, mid) && Popped(mid, e, s');
    SweepKeeps(cfg, s, e.now, mid);
    if e.Acquired? {
      assert mid.free[0] in mid.free;
    }
  }

  // --- counting ---

  lemma {:induction false} SetOfSeq(s: seq<nat>)
    requires NoDup(s)
    ensures |set p: nat | p in s| == |s|
  {
    if s != [] {
      var t := s[..|s| - 1];
      SetOfSeq(t);
      var last := s[|s| - 1];
      assert s == t + [last];
      assert (set p: nat | p in s) == (set p: nat | p in t) + {last};
    }
  }

  lemma RangeHolds(cfg: PoolConfig, p: int)
    requires Check(cfg).Fine?
    ensures p in Range(cfg.minPort, cfg.maxPort) <==> InRange(cfg, p)
  {
    var r := Range(cfg.minPort, cfg.maxPort);
    if InRange(cfg, p) {
      assert r[p - cfg.minPort] == p;
    }
  }

  /** The arithmetic of Stats counts the free list. */
  lemma FreeIsCounted(cfg: PoolConfig, s: PoolState)
    requires Check(cfg).Fine? && Partition(cfg, s)
    ensures |s.free| == cfg.maxPort - cfg.minPort + 1 - |s.inUse| - |s.quarantine|
  {
    var range := Range(cfg.minPort, cfg.maxPort);
    SetOfSeq(range);
    SetOfSeq(s.free);
    AddUp((set p: nat | p in s.free), s.inUse.Keys, s.quarantine.Keys);
    PartitionOfRange(cfg, s);
  }

  lemma AddUp(a: set<nat>, b: set<nat>, c: set<nat>)
    requires a !! b && a !! c && b !! c
    ensures |a + b + c| == |a| + |b| + |c|
  {
    assert |a + b| == |a| + |b|;
    assert (a + b) !! c;
  }

  lemma PartitionOfRange(cfg: PoolConfig, s: PoolState)
    requires Check(cfg).Fine? && Partition(cfg, s)
    ensures (set p: nat | p in Range(cfg.minPort, cfg.maxPort))
            == (set p: nat | p in s.free) + s.inUse.Keys + s.quarantine.Keys
  {
    forall p: nat
      ensures p in Range(cfg.minPort, cfg.maxPort) <==> p in s.free || p in s.inUse || p in s.quarantine
    {
      RangeHolds(cfg, p);
    }
  }

  // --- the pool ---

  datatype Stats = Stats(total: int, inUse: nat, quarantined: nat, free: int, failures: nat)

  datatype Port = Got(port: nat) | ErrPoolExhausted

  lemma NothingQuarantined(s: PoolState, now: int)
    requires |s.quarantine| == 0
    ensures Swept(s, now, s)
  {
    assert s.quarantine == map[];
    assert s.free[|s.free|..] == [];
    assert Unexpired(s.quarantine, now) == map[];
  }

  class Pool {
    const cfg: PoolConfig
    var free: seq<nat>
    var inUse: map<nat, string>
    var quarantine: map<nat, int>
    var failures: nat

    /** Every port of the range goes on the free list, lowest first. */
    constructor (cfg: PoolConfig)
      requires Check(cfg).Fine?
      ensures this.cfg == cfg && View() == Initial(cfg) && Valid()
    {
      this.cfg := cfg;
      free, inUse, quarantine, failures := [], map[], map[], 0;
      new;
      var port := cfg.minPort;
      while port <= cfg.maxPort
        invariant cfg.minPort <= port <= cfg.maxPort + 1
        invariant free + Range(port, cfg.maxPort) == Range(cfg.minPort, cfg.maxPort)
        invariant inUse == map[] && quarantine == map[] && failures == 0
        decreases cfg.maxPort - port
      {
        Assoc(free, [port], Range(port + 1, cfg.maxPort));
        free := free + [port];
        port := port + 1;
      }
      assert free + [] == free;
      InitialPartition(cfg);
    }

    function View(): (s: PoolState)
      reads this
    {
      PoolState(free, inUse, quarantine, failures)
    }

    ghost predicate Valid()
      reads this
    {
      Check(cfg).Fine? && Partition(cfg, View())
    }

    /** Deletes while it ranges over the map, in whatever order the ports come. */
    method SweepQuarantineLocked(now: int)
      requires Valid()
      modifies this`free, this`quarantine
      ensures Valid() && Swept(old(View()), now, View())
    {
      hide Partition, Check, InRange;
      ghost var s := View();
      if |quarantine| == 0 {
        NothingQuarantined(s, now);
        return;
      }
      var todo := quarantine.Keys;
      ghost var joined: seq<nat> := [];
      while todo != {}
        invariant todo <= quarantine.Keys <= s.quarantine.Keys
        invariant forall p <- quarantine :: quarantine[p] == s.quarantine[p]
        invariant forall p <- s.quarantine :: p in quarantine <==> p in todo || now < s.quarantine[p]
        invariant free == s.free + joined && NoDup(joined)
        invariant forall p <- joined :: p in s.quarantine && p !in quarantine
        invariant forall p <- s.quarantine :: p in quarantine || p in joined
        decreases |todo|
      {
        var port :| port in todo;
        todo := todo - {port};
        if !(now < quarantine[port]) {
          quarantine := quarantine - {port};
          free := free + [port];
          joined := joined + [port];
        }
      }
      assert free[|s.free|..] == joined;
      assert quarantine == Unexpired(s.quarantine, now);
      SweepKeeps(cfg, s, now, View());
    }

    method Acquire(owner: string, now: int) returns (r: Port)
      requires Valid()
      modifies this
      ensures Valid()
      ensures PoolStep(cfg, old(View()), if r.Got? then Acquired(owner, now, r.port) else Exhausted(owner, now), View())
      ensures old(free) != [] ==> r == Got(old(free)[0])
      ensures r.Got? ==> inUse == old(inUse)[r.port := owner] && failures == old(failures)
      ensures r.ErrPoolExhausted? ==>
                inUse == old(inUse) && free == [] && failures == (old(failures) + 1) % 0x1_0000_0000_0000_0000
      ensures forall p: nat :: p in quarantine <==> p in old(quarantine) && now < old(quarantine)[p]
    {
      ghost var s := View();
      SweepQuarantineLocked(now);
      ghost var mid := View();
      if |free| == 0 {
        failures := (failures + 1) % 0x1_0000_0000_0000_0000;
        assert Popped(mid, Exhausted(owner, now), View());
        return ErrPoolExhausted;
      }
      var port := free[0];
      free := free[1..];
      inUse := inUse[port := owner];
      assert Popped(mid, Acquired(owner, now, port), View());
      PopKeeps(cfg, mid, Acquired(owner, now, port), View());
      return Got(port);
    }

    method Release(port: int, now: int)
      requires Valid()
      modifies this`free, this`inUse, this`quarantine
      ensures Valid() && PoolStep(cfg, old(View()), Released(port, now), View())
      ensures port !in old(inUse) ==> View() == old(View())
      ensures port in old(inUse) ==>
                inUse == old(inUse) - {port} && failures == old(failures)
                && (cfg.quarantineDuration == 0 ==> free == old(free) + [port] && quarantine == old(quarantine))
                && (cfg.quarantineDuration > 0 ==>
                      free == old(free) && quarantine == old(quarantine)[port := now + cfg.quarantineDuration])
    {
      ReleaseKeeps(cfg, View(), port, now);
      if port !in inUse {
        return;
      }
      inUse := inUse - {port};
      if cfg.quarantineDuration > 0 {
        quarantine := quarantine[port := now + cfg.quarantineDuration];
        return;
      }
      free := free + [port];
    }

    /** The count of free ports is computed from the others; it is the length of the free list. */
    method Snapshot(now: int) returns (r: Stats)
      requires Valid()
      modifies this`free, this`quarantine
      ensures Valid() && PoolStep(cfg, old(View()), Looked(now), View())
      ensures r == Stats(cfg.maxPort - cfg.minPort + 1, |inUse|, |quarantine|, |free|, failures)
    {
      SweepQuarantineLocked(now);
      var total := cfg.maxPort - cfg.minPort + 1;
      var left := total - |inUse| - |quarantine|;
      FreeIsCounted(cfg, View());
      if left < 0 {
        left := 0;
      }
      r := Stats(total, |inUse|, |quarantine|, left, failures);
    }
  }

  datatype Made = Made(pool: Pool) | Refused(error: ConfigError)

  method New(cfg: PoolConfig) returns (r: Made)
    ensures r.Made? <==> Check(cfg).Fine?
    ensures r.Refused? ==> Check(cfg) == Wrong(r.error)
    ensures r.Made? <==> cfg.hasSourceIP && 1 <= cfg.minPort <= cfg.maxPort <= 65535 && cfg.quarantineDuration >= 0
    ensures r.Refused? ==>
              match r.error
              case NoSourceIP => !cfg.hasSourceIP
              case BadMinPort => cfg.hasSourceIP && !(1 <= cfg.minPort <= 65535)
              case BadMaxPort => cfg.hasSourceIP && 1 <= cfg.minPort <= 65535 && !(1 <= cfg.maxPort <= 65535)
              case EmptyRange => cfg.hasSourceIP && 1 <= cfg.maxPort < cfg.minPort <= 65535
              case NegativeQuarantine => cfg.hasSourceIP && cfg.quarantineDuration < 0
    ensures r.Made? ==> fresh(r.pool) && r.pool.Valid() && r.pool.cfg == cfg && r.pool.View() == Initial(cfg)
  {
    if !cfg.hasSourceIP {
      return Refused(NoSourceIP);
    }
    if cfg.minPort < 1 || cfg.minPort > 65535 {
      return Refused(BadMinPort);
    }
    if cfg.maxPort < 1 || cfg.maxPort > 65535 {
      return Refused(BadMaxPort);
    }
    if cfg.minPort > cfg.maxPort {
      return Refused(EmptyRange);
    }
    if cfg.quarantineDuration < 0 {
      return Refused(NegativeQuarantine);
    }
    var pool := new Pool(cfg);
    return Made(pool);
  }

  // --- histories ---

  /** A history of the pool: its operations and the states between them. */
  ghost predicate History(cfg: PoolConfig, es: seq<PoolEvent>, ss: seq<PoolState>) {
    Check(cfg).Fine? && |ss| == |es| + 1 && ss[0] == Initial(cfg)
    && forall n :: 0 <= n < |es| ==> PoolStep(cfg, ss[n], es[n], ss[n + 1])
  }

  /** Over a history the failures are counted, modulo 2^64. */
  lemma {:induction false} FailuresCounted(cfg: PoolConfig, es: seq<PoolEvent>, ss: seq<PoolState>)
    requires History(cfg, es, ss)
    ensures ss[|es|].failures == Failed(es) % 0x1_0000_0000_0000_0000
  {
    if es != [] {
      var n := |es| - 1;
      FailuresCounted(cfg, es[..n], ss[..n + 1]);
      OneFailure(cfg, ss[n], es[n], ss[n + 1]);
      CountsOn(Failed(es[..n]));
    }
  }

  function Failed(es: seq<PoolEvent>): (n: nat) {
    if es == [] then 0 else Failed(es[..|es| - 1]) + if es[|es| - 1].Exhausted? then 1 else 0
  }

  lemma OneFailure(cfg: PoolConfig, s: PoolState, e: PoolEvent, s': PoolState)
    requires PoolStep(cfg, s, e, s')
    ensures s'.failures == if e.Exhausted? then (s.failures + 1) % 0x1_0000_0000_0000_0000 else s.failures
  {
  }

  lemma CountsOn(n: nat)
    ensures (n % 0x1_0000_0000_0000_0000 + 1) % 0x1_0000_0000_0000_0000 == (n + 1) % 0x1_0000_0000_0000_0000
  {
  }

  /** No operation sees an earlier time than the one before it. */
  predicate ClockRuns(es: seq<PoolEvent>) {
    forall m, n :: 0 <= m <= n < |es| ==> es[m].now <= es[n].now
  }

  lemma {:induction false} PartitionAlways(cfg: PoolConfig, es: seq<PoolEvent>, ss: seq<PoolState>, n: nat)
    requires History(cfg, es, ss) && n <= |es|
    ensures Partition(cfg, ss[n])
  {
    hide Partition, PoolStep;
    if n == 0 {
      InitialPartition(cfg);
    } else {
      PartitionAlways(cfg, es, ss, n - 1);
      StepKeeps(cfg, ss[n - 1], es[n - 1], ss[n]);
    }
  }

  /** A port that is quarantined until a time leaves the quarantine only once that time has come. */
  lemma QuarantineHolds(cfg: PoolConfig, s: PoolState, e: PoolEvent, s': PoolState, p: int)
    requires Partition(cfg, s) && PoolStep(cfg, s, e, s') && p in s.quarantine
    ensures (p in s'.quarantine && s'.quarantine[p] == s.quarantine[p]) || s.quarantine[p] <= e.now
    ensures e.Acquired? && e.got == p ==> s.quarantine[p] <= e.now
  {
    match e
    case Released(_, _) =>
    case Looked(_) =>
    case _ =>
      var mid :| Swept(s, e.now, mid) && Popped(mid, e, s');
      SweepKeeps(cfg, s, e.now, mid);
  }

  lemma ReleaseQuarantines(cfg: PoolConfig, s: PoolState, e: PoolEvent, s': PoolState)
    requires PoolStep(cfg, s, e, s') && e.Released? && e.port in s.inUse && cfg.quarantineDuration > 0
    ensures e.port in s'.quarantine && s'.quarantine[e.port] == e.now + cfg.quarantineDuration
  {
  }

  lemma {:induction false} StillQuarantined(cfg: PoolConfig, es: seq<PoolEvent>, ss: seq<PoolState>, n: nat, k: nat)
    requires History(cfg, es, ss) && ClockRuns(es) && n < k <= |es| && cfg.quarantineDuration > 0
    requires es[n].Released? && es[n].port in ss[n].inUse
    ensures var p, until := es[n].port, es[n].now + cfg.quarantineDuration;
            (p in ss[k].quarantine && ss[k].quarantine[p] == until) || until <= es[k - 1].now
  {
    hide Partition, PoolStep, Check, Initial;
    if k == n + 1 {
      ReleaseQuarantines(cfg, ss[n], es[n], ss[k]);
    } else {
      StillQuarantined(cfg, es, ss, n, k - 1);
      PartitionAlways(cfg, es, ss, k - 1);
      if es[n].port in ss[k - 1].quarantine {
        QuarantineHolds(cfg, ss[k - 1], es[k - 1], ss[k], es[n].port);
      }
      assert es[k - 2].now <= es[k - 1].now;
    }
  }

  /** A port released at a time is not acquired again before that time plus the quarantine. */
  lemma QuarantineRespected(cfg: PoolConfig, es: seq<PoolEvent>, ss: seq<PoolState>, n: nat, m: nat)
    requires History(cfg, es, ss) && ClockRuns(es) && n < m < |es|
    requires es[n].Released? && es[n].port in ss[n].inUse && es[m].Acquired? && es[m].got == es[n].port
    ensures es[n].now + cfg.quarantineDuration <= es[m].now
  {
    hide Partition, PoolStep;
    if cfg.quarantineDuration == 0 {
      assert es[n].now <= es[m].now;
    } else {
      StillQuarantined(cfg, es, ss, n, m);
      PartitionAlways(cfg, es, ss, m);
      if es[n].port in ss[m].quarantine {
        QuarantineHolds(cfg, ss[m], es[m], ss[m + 1], es[n].port);
      }
      assert es[m - 1].now <= es[m].now;
    }
  }

  /** The ports acquired, in order. */
  function AcquiredPorts(es: seq<PoolEvent>): (r: seq<nat>) {
    if es == [] then []
    else
      var e := es[|es| - 1];
      AcquiredPorts(es[..|es| - 1]) + if e.Acquired? then [e.got] else []
  }

  /** The ports whose release was not a no-op, in order. */
  function EffectiveReleases(es: seq<PoolEvent>, ss: seq<PoolState>): (r: seq<nat>)
    requires |ss| == |es| + 1
  {
    if es == [] then []
    else
      var n := |es| - 1;
      EffectiveReleases(es[..n], ss[..n + 1])
      + if es[n].Released? && es[n].port in ss[n].inUse then [es[n].port] else []
  }

  lemma StepWithoutQuarantine(cfg: PoolConfig, s: PoolState, e: PoolEvent, s': PoolState)
    requires cfg.quarantineDuration == 0 && s.quarantine == map[] && PoolStep(cfg, s, e, s')
    ensures s'.quarantine == map[]
    ensures (if e.Acquired? then [e.got] else []) + s'.free
            == s.free + if e.Released? && e.port in s.inUse then [e.port] else []
  {
    match e
    case Released(_, _) =>
    case Looked(_) => NothingSwept(s, e.now, s');
    case _ =>
      var mid :| Swept(s, e.now, mid) && Popped(mid, e, s');
      NothingSwept(s, e.now, mid);
  }

  lemma SomeOrEmpty(s: seq<nat>)
    ensures s == [] || exists x :: x in s
  {
    if s != [] {
      var x := s[0];
      assert x in s;
    }
  }

  lemma NothingSwept(s: PoolState, now: int, s': PoolState)
    requires s.quarantine == map[] && Swept(s, now, s')
    ensures s' == s
  {
    var joined := s'.free[|s.free|..];
    SomeOrEmpty(joined);
    assert s'.free == s.free + joined;
    assert s'.quarantine == map[];
  }

  /** Without quarantine the pool is a queue: what was acquired, followed by what is free, is the range followed by the
      effective releases; so the acquired ports are a prefix of the range followed by the releases. */
  lemma {:induction false} FirstInFirstOut(cfg: PoolConfig, es: seq<PoolEvent>, ss: seq<PoolState>)
    requires History(cfg, es, ss) && cfg.quarantineDuration == 0
    ensures ss[|es|].quarantine == map[]
    ensures AcquiredPorts(es) + ss[|es|].free == Range(cfg.minPort, cfg.maxPort) + EffectiveReleases(es, ss)
    ensures AcquiredPorts(es) <= Range(cfg.minPort, cfg.maxPort) + EffectiveReleases(es, ss)
  {
    hide PoolStep, Range;
    if es == [] {
      assert [] + ss[0].free == ss[0].free + [];
    } else {
      var n := |es| - 1;
      FirstInFirstOut(cfg, es[..n], ss[..n + 1]);
      var a, b := AcquiredPorts(es[..n]), if es[n].Acquired? then [es[n].got] else [];
      var r := EffectiveReleases(es[..n], ss[..n + 1]);
      var c := if es[n].Released? && es[n].port in ss[n].inUse then [es[n].port] else [];
      StepWithoutQuarantine(cfg, ss[n], es[n], ss[n + 1]);
      Assoc(a, b, ss[n + 1].free);
      Assoc(a, ss[n].free, c);
      Assoc(Range(cfg.minPort, cfg.maxPort), r, c);
    }
  }
}
