/** Rotating scans: each starts where a wrapping counter says and goes once round; whether it meets every candidate. */
module Scans {
  import opened Bytes

  /** Where a scan goes first, second and so on, as indices into n candidates. */
  predicate CoversOnce(order: seq<nat>, n: nat) {
    && |order| == n
    && (forall i :: 0 <= i < n ==> order[i] < n)
    && (forall i, j :: 0 <= i < j < n ==> order[i] != order[j])
  }

  // --- arithmetic ---

  lemma Distribute(p: int, q: int, n: int)
    ensures p * n - q * n == (p - q) * n
  {
  }

  lemma AtLeast(k: int, n: nat)
    requires k >= 1
    ensures k * n >= n
  {
  }

  /** Quotient and remainder are unique. */
  lemma DivisionUnique(p: int, m: nat, q: int, r: nat, n: nat)
    requires m < n && r < n && p * n + m == q * n + r
    ensures p == q && m == r
  {
    Distribute(p, q, n);
    Distribute(q, p, n);
    if p > q {
      AtLeast(p - q, n);
    } else if p < q {
      AtLeast(q - p, n);
    }
  }

  lemma ModIs(x: nat, q: nat, r: nat, n: nat)
    requires r < n && x == q * n + r
    ensures x % n == r && x / n == q
  {
    DivisionUnique(x / n, x % n, q, r, n);
  }

  /** Fewer than n apart, two numbers have the same remainder only if they are equal. */
  lemma NearRemainders(a: nat, b: nat, n: nat)
    requires a < b < a + n
    ensures a % n != b % n
  {
    var p, q := a / n, b / n;
    var c, d := a % n, b % n;
    assert a == p * n + c && b == q * n + d;
    Distribute(q, p, n);
    if q > p + 1 {
      AtLeast(q - p - 1, n);
    } else if q < p {
      AtLeast(p - q, n);
    }
  }

  lemma RemainderOfSum(a: nat, b: nat, n: nat)
    requires n > 0
    ensures (a % n + b) % n == (a + b) % n
  {
    var q, r := (a % n + b) / n, (a % n + b) % n;
    var p := a / n;
    assert a == p * n + a % n;
    assert a + b == (p + q) * n + r;
    ModIs(a + b, p + q, r, n);
  }

  lemma SmallMod(a: nat, n: nat)
    requires a < n
    ensures a % n == a
  {
  }

  // --- a scan whose start is reduced first ---

  /** start, start + 1, ... reduced modulo n. */
  function Rotation(start: nat, n: nat): (order: seq<nat>)
    requires n > 0
    ensures |order| == n && forall i :: 0 <= i < n ==> order[i] < n
  {
    seq(n, i => (start + i) % n)
  }

  lemma RotationAt(start: nat, n: nat, i: nat)
    requires i < n
    ensures Rotation(start, n)[i] == (start + i) % n
  {
  }

  /** Reduced before the steps are added, the counter starts a scan that meets every candidate once. */
  lemma RotationCovers(start: nat, n: nat)
    requires n > 0
    ensures CoversOnce(Rotation(start, n), n)
  {
    forall i, j | 0 <= i < j < n
      ensures Rotation(start, n)[i] != Rotation(start, n)[j]
    {
      NearRemainders(start + i, start + j, n);
    }
  }

  lemma {:induction false} CoversAll(order: seq<nat>, n: nat, k: nat)
    requires CoversOnce(order, n) && k < n
    ensures exists i :: 0 <= i < n && order[i] == k
  {
    var seen := set i | 0 <= i < n :: order[i];
    ImageSize(order, n);
    if k !in seen {
      SubsetSize(seen, n, k);
    }
  }

  lemma {:induction false} ImageSize(order: seq<nat>, m: nat)
    requires m <= |order| && forall i, j :: 0 <= i < j < m ==> order[i] != order[j]
    ensures |set i | 0 <= i < m :: order[i]| == m
  {
    if m > 0 {
      ImageSize(order, m - 1);
      assert (set i | 0 <= i < m :: order[i]) == (set i | 0 <= i < m - 1 :: order[i]) + {order[m - 1]};
    }
  }

  function Below(n: nat): (r: set<nat>)
    ensures |r| == n && forall k: nat :: k in r <==> k < n
  {
    if n == 0 then {} else Below(n - 1) + {n - 1}
  }

  lemma Smaller(a: set<nat>, b: set<nat>)
    requires a <= b
    ensures |a| <= |b|
  {
    assert b == a + (b - a);
  }

  lemma SubsetSize(s: set<nat>, n: nat, k: nat)
    requires (forall x <- s :: x < n) && k < n && k !in s
    ensures |s| < n
  {
    Smaller(s + {k}, Below(n));
  }

  // --- dialWithLocalBind ---

  datatype Dial = Connected | AddrInUse | OtherError

  datatype Bound = Bound(port: nat) | Aborted | NoPortLeft

  /** The scan of dialWithLocalBind, given what each port would answer; the ports it tries are a prefix of the rotation
      from the counter, so when it reports that no port is available it has tried every port of the range. */
  method DialWithLocalBind(counter: u32, min: nat, max: nat, answer: nat -> Dial)
    returns (next: u32, r: Bound, tried: seq<nat>)
    requires 0 < min <= max
    ensures next == (counter + 1) % 0x1_0000_0000
    ensures var n := max - min + 1;
            |tried| <= n && (forall i :: 0 <= i < |tried| ==> tried[i] == min + Rotation(next % n, n)[i])
    ensures forall i :: 0 <= i < |tried| - 1 ==> answer(tried[i]) == AddrInUse
    ensures match r
            case Bound(port) =>
              tried != [] && port == tried[|tried| - 1] && min <= port <= max && answer(port) == Connected
            case Aborted => tried != [] && answer(tried[|tried| - 1]) == OtherError
            case NoPortLeft => forall port :: min <= port <= max ==> port in tried && answer(port) == AddrInUse
  {
    hide Rotation;
    var count := max - min + 1;
    next := (counter + 1) % 0x1_0000_0000;
    var startOff := next % count;
    tried := [];
    var i := 0;
    while i < count
      invariant i == |tried| <= count
      invariant forall j :: 0 <= j < i ==>
                  tried[j] == min + Rotation(startOff, count)[j] && answer(tried[j]) == AddrInUse
    {
      var port := min + (startOff + i) % count;
      RotationAt(startOff, count, i);
      tried := tried + [port];
      if answer(port) == Connected {
        return next, Bound(port), tried;
      }
      if answer(port) == OtherError {
        return next, Aborted, tried;
      }
      i := i + 1;
    }
    r := NoPortLeft;
    RotationCovers(startOff, count);
    forall port: nat | min <= port <= max
      ensures port in tried && answer(port) == AddrInUse
    {
      CoversAll(Rotation(startOff, count), count, port - min);
      var j: nat :| j < count && Rotation(startOff, count)[j] == port - min;
      assert tried[j] == port;
    }
  }

  // --- ConnectionPool.Send ---

  /** SendFailed is the chosen connection's own error, which ends the scan. */
  datatype PoolSend = Sent(index: nat) | SendFailed(index: nat) | ErrPoolClosed | ErrNoActiveConnections

  lemma StepReduced(next: nat, i: nat, w: nat, n: nat)
    requires i < n && 2 * n <= w
    ensures (next % n + i) % w % n == Rotation(next, n)[i]
  {
    RemainderOfSum(next, i, n);
    SmallMod(next % n + i, w);
    RotationAt(next, n, i);
  }

  /** Unless the pool is closed: the first active connection from the counter on gets the message, whether or not it
      takes it; with none active, and only then, the scan ends without a connection. */
  method SendOnAny(closed: bool, counter: u32, active: seq<bool>, takes: seq<bool>) returns (next: u32, r: PoolSend)
    requires 0 < |active| == |takes| <= 0x8000_0000
    ensures closed <==> r.ErrPoolClosed?
    ensures next == if closed then counter else (counter + 1) % 0x1_0000_0000
    ensures !closed ==> (r.ErrNoActiveConnections? <==> forall k :: 0 <= k < |active| ==> !active[k])
    ensures r.Sent? || r.SendFailed? ==>
              (exists i :: 0 <= i < |active| && Rotation(next, |active|)[i] == r.index && active[r.index]
                           && forall j :: 0 <= j < i ==> !active[Rotation(next, |active|)[j]])
              && (r.Sent? <==> takes[r.index])
  {
    hide Rotation, CoversOnce;
    if closed {
      return counter, ErrPoolClosed;
    }
    var n := |active|;
    next := (counter + 1) % 0x1_0000_0000;
    var startIdx := next % n;
    RotationCovers(next, n);
    var i := 0;
    while i < n
      invariant 0 <= i <= n
      invariant forall j :: 0 <= j < i ==> !active[Rotation(next, n)[j]]
    {
      StepReduced(next, i, U32_SPAN, n);
      var idx := (startIdx + i) % U32_SPAN % n;
      if active[idx] {
        assert Rotation(next, n)[i] == idx;
        return next, if takes[idx] then Sent(idx) else SendFailed(idx);
      }
      i := i + 1;
    }
    r := ErrNoActiveConnections;
    forall k: nat | k < n
      ensures !active[k]
    {
      CoversAll(Rotation(next, n), n, k);
    }
  }

  // --- DRAPool.Send ---

  /** The DRAs of the active group in the order DRAPool.Send asks them: the steps are added before the reduction, in
      32 bits, so the sum may wrap in the middle of a scan. */
  function SendOrder(start: u32, n: nat): (order: seq<nat>)
    requires n > 0
    ensures |order| == n && forall i :: 0 <= i < n ==> order[i] < n
  {
    seq(n, i => (start + i) % 0x1_0000_0000 % n)
  }

  lemma WrapsTo(start: u32, i: nat)
    requires i < U32_SPAN
    ensures (start + i) % 0x1_0000_0000 == if start + i < U32_SPAN then start + i else start + i - U32_SPAN
  {
  }

  /** The i-th index of a scan from start over n candidates with a counter that wraps at w. */
  function WrappedIndex(start: nat, i: nat, w: nat, n: nat): (k: nat)
    requires start < w && n > 0
  {
    (if start + i < w then start + i else start + i - w) % n
  }

  /** A scan that wraps in its middle repeats a candidate unless the group size divides the span of the counter. */
  lemma WrappedScanRepeats(start: nat, w: nat, n: nat) returns (i: nat, j: nat)
    requires start < w && 0 < n && start + n > w && w % n != 0
    ensures i < j < n && WrappedIndex(start, i, w, n) == WrappedIndex(start, j, w, n)
  {
    var k: nat := w - start;
    var a: nat, q := start % n, start / n;
    assert start == q * n + a;
    if a < n - k {
      i, j := 0, k + a;
      SmallMod(a, n);
    } else {
      Distribute(q + 1, q, n);
      if a == n - k {
        ModIs(w, q + 1, 0, n);
      }
      i, j := n - a, k;
      ModIs(start + i, q + 1, 0, n);
      SmallMod(0, n);
    }
  }

  lemma HarmlessWrap(start: nat, i: nat, w: nat, n: nat)
    requires start < w && i < n && (start + n <= w || w % n == 0)
    ensures WrappedIndex(start, i, w, n) == (start + i) % n
  {
    if start + i >= w {
      var v: nat, q := start + i - w, w / n;
      assert w == q * n + w % n && v == v / n * n + v % n;
      Distribute(q + v / n, v / n, n);
      ModIs(start + i, q + v / n, v % n, n);
    }
  }

  lemma SendOrderAt(start: u32, n: nat, i: nat)
    requires i < n < U32_SPAN
    ensures SendOrder(start, n)[i] == WrappedIndex(start, i, U32_SPAN, n)
  {
    WrapsTo(start, i);
  }

  /** Send asks every DRA of the group once exactly when the cursor does not wrap during the scan or the size of the
      group divides 2^32. */
  lemma SendCoversExactly(start: u32, n: nat)
    requires 0 < n < U32_SPAN
    ensures CoversOnce(SendOrder(start, n), n) <==> start + n <= U32_SPAN || U32_SPAN % n == 0
  {
    hide SendOrder, Rotation, WrappedIndex;
    if start + n <= U32_SPAN || U32_SPAN % n == 0 {
      forall i | 0 <= i < n
        ensures SendOrder(start, n)[i] == Rotation(start, n)[i]
      {
        SendOrderAt(start, n, i);
        HarmlessWrap(start, i, U32_SPAN, n);
        RotationAt(start, n, i);
      }
      RotationCovers(start, n);
    } else {
      var i, j := WrappedScanRepeats(start, U32_SPAN, n);
      SendOrderAt(start, n, i);
      SendOrderAt(start, n, j);
    }
  }

  lemma SendOrderIs(start: u32, n: nat, i: nat)
    requires i < n
    ensures SendOrder(start, n)[i] == (start + i) % 0x1_0000_0000 % n
  {
  }

  datatype Outcome = SentTo(dra: nat) | NoneSent

  /** The scan of DRAPool.Send over the active group; takes says which DRAs are healthy and take the message. */
  method SendAtPriority(cursor: u32, takes: seq<bool>) returns (start: u32, r: Outcome)
    requires |takes| < U32_SPAN
    ensures |takes| == 0 ==> start == cursor && r == NoneSent
    ensures |takes| > 0 ==>
              start == (cursor + 1) % 0x1_0000_0000
              && (r.NoneSent? <==> forall i :: 0 <= i < |takes| ==> !takes[SendOrder(start, |takes|)[i]])
              && (r.SentTo? ==>
                    exists i :: 0 <= i < |takes| && SendOrder(start, |takes|)[i] == r.dra && takes[r.dra]
                                && forall j :: 0 <= j < i ==> !takes[SendOrder(start, |takes|)[j]])
  {
    hide SendOrder;
    var n := |takes|;
    if n == 0 {
      return cursor, NoneSent;
    }
    start := (cursor + 1) % 0x1_0000_0000;
    var i := 0;
    while i < n
      invariant 0 <= i <= n
      invariant forall j :: 0 <= j < i ==> !takes[SendOrder(start, n)[j]]
    {
      var dra := (start + i) % 0x1_0000_0000 % n;
      SendOrderIs(start, n, i);
      if takes[dra] {
        assert SendOrder(start, n)[i] == dra;
        return start, SentTo(dra);
      }
      i := i + 1;
    }
    r := NoneSent;
  }

  /** When the scan covers the group, Send fails only if no DRA of the group would take the message. */
  lemma NoneSentMeans(start: u32, takes: seq<bool>)
    requires 0 < |takes| < U32_SPAN && (start + |takes| <= U32_SPAN || U32_SPAN % |takes| == 0)
    ensures (forall i :: 0 <= i < |takes| ==> !takes[SendOrder(start, |takes|)[i]])
            <==> (forall k :: 0 <= k < |takes| ==> !takes[k])
  {
    var n := |takes|;
    SendCoversExactly(start, n);
    hide SendOrder;
    if forall i :: 0 <= i < n ==> !takes[SendOrder(start, n)[i]] {
      forall k | 0 <= k < n
        ensures !takes[k]
      {
        CoversAll(SendOrder(start, n), n, k);
      }
    }
  }

  /** Three DRAs and a cursor about to wrap: the scan asks the first twice and never the third. */
  lemma WrapMissesOne()
    ensures SendOrder(0xFFFF_FFFF, 3) == [0, 0, 1]
  {
    assert (0xFFFF_FFFF + 2) % 0x1_0000_0000 == 1;
  }
}
