/** Priority failover: which priority group of DRAs traffic goes to, and when that changes. */
module Failover {
  import opened Wrappers
  import opened Bytes

  const LOWEST_CHECKED: int := 10

  datatype Dra = Dra(name: string, priority: int, weight: int)

  /** int32(n) of Go, as the stored priority is an atomic.Int32. */
  function ToInt32(n: int): (r: int) {
    (n + 0x8000_0000) % 0x1_0000_0000 - 0x8000_0000
  }

  /** The number congruent to n modulo 2^32 that fits. */
  lemma ToInt32Exactly(n: int)
    ensures ToInt32(n) == n <==> -0x8000_0000 <= n < 0x8000_0000
    ensures -0x8000_0000 <= ToInt32(n) < 0x8000_0000 && exists k :: ToInt32(n) == n + k * 0x1_0000_0000
  {
    var k := -((n + 0x8000_0000) / 0x1_0000_0000);
    assert ToInt32(n) == n + k * 0x1_0000_0000;
  }

  // --- grouping ---

  /** The DRAs of a priority, in their order. */
  function OfPriority(dras: seq<Dra>, p: int): (r: seq<Dra>) {
    if dras == [] then []
    else OfPriority(dras[..|dras| - 1], p) + if dras[|dras| - 1].priority == p then [dras[|dras| - 1]] else []
  }

  /** Is this the map from priorities to their DRAs, with no empty group? */
  predicate Grouped(dras: seq<Dra>, groups: map<int, seq<Dra>>) {
    && (forall d <- dras :: d.priority in groups)
    && (forall p <- groups :: groups[p] == OfPriority(dras, p) && groups[p] != [])
  }

  lemma {:induction false} OfPriorityHolds(dras: seq<Dra>, p: int)
    ensures forall d :: d in OfPriority(dras, p) <==> d in dras && d.priority == p
  {
    if dras != [] {
      OfPriorityHolds(dras[..|dras| - 1], p);
      assert dras == dras[..|dras| - 1] + [dras[|dras| - 1]];
    }
  }

  /** The DRAs of a group are in the order of the whole, and nothing but its priority decides whether one is in it. */
  lemma {:induction false} OfPriorityAppend(a: seq<Dra>, b: seq<Dra>, p: int)
    ensures OfPriority(a + b, p) == OfPriority(a, p) + OfPriority(b, p)
  {
    if b == [] {
      assert a + b == a;
    } else {
      var n := |b| - 1;
      OfPriorityAppend(a, b[..n], p);
      assert (a + b)[..|a| + n] == a + b[..n] && (a + b)[|a| + n] == b[n];
      Assoc(OfPriority(a, p), OfPriority(b[..n], p), if b[n].priority == p then [b[n]] else []);
    }
  }

  lemma OfPriorityOne(d: Dra, p: int)
    ensures OfPriority([d], p) == if d.priority == p then [d] else []
  {
    assert [d][..0] == [];
  }

  lemma {:induction false} NoneOfPriority(dras: seq<Dra>, p: int)
    requires forall d <- dras :: d.priority != p
    ensures OfPriority(dras, p) == []
  {
    if dras != [] {
      NoneOfPriority(dras[..|dras| - 1], p);
    }
  }

  /** The order sort.Slice leaves: by priority, and within one by falling weight. */
  predicate Sorted(dras: seq<Dra>) {
    forall i, j :: 0 <= i < j < |dras| ==>
      dras[i].priority < dras[j].priority || (dras[i].priority == dras[j].priority && dras[i].weight >= dras[j].weight)
  }

  // --- health ---

  /** The healthy DRAs of a group. */
  function Healthy(dras: seq<Dra>, up: set<string>): (r: seq<Dra>) {
    if dras == [] then []
    else Healthy(dras[..|dras| - 1], up) + if dras[|dras| - 1].name in up then [dras[|dras| - 1]] else []
  }

  lemma {:induction false} HealthyHolds(dras: seq<Dra>, up: set<string>)
    ensures forall d :: d in Healthy(dras, up) <==> d in dras && d.name in up
    ensures Healthy(dras, up) != [] <==> exists d <- dras :: d.name in up
  {
    if dras != [] {
      var last := dras[|dras| - 1];
      HealthyHolds(dras[..|dras| - 1], up);
      assert dras == dras[..|dras| - 1] + [last];
      assert last in dras;
    }
  }

  predicate HealthyAt(groups: map<int, seq<Dra>>, up: set<string>, p: int) {
    p in groups && exists d <- groups[p] :: d.name in up
  }

  /** The smallest priority from lo up to but not including hi with a healthy DRA. */
  function FirstHealthy(groups: map<int, seq<Dra>>, up: set<string>, lo: int, hi: int): (r: Option<int>)
    ensures r.Some? ==>
              lo <= r.value < hi && HealthyAt(groups, up, r.value)
              && forall q :: lo <= q < r.value ==> !HealthyAt(groups, up, q)
    ensures r.None? ==> forall q :: lo <= q < hi ==> !HealthyAt(groups, up, q)
    decreases hi - lo
  {
    if lo >= hi then None
    else if HealthyAt(groups, up, lo) then Some(lo)
    else FirstHealthy(groups, up, lo + 1, hi)
  }

  /** The priority after one check with this health. */
  function Next(groups: map<int, seq<Dra>>, up: set<string>, current: int): (next: int) {
    var r := if HealthyAt(groups, up, current) then FirstHealthy(groups, up, 1, current)
             else FirstHealthy(groups, up, current + 1, LOWEST_CHECKED + 1);
    if r.Some? then r.value else current
  }

  /** What a check does, said by the names of the DRAs that are up: with the current group up it goes to the best
      priority from 1 on that has a DRA up, if that is better; with it down it goes to the next from there to 10 that
      has. */
  lemma CheckMeans(groups: map<int, seq<Dra>>, up: set<string>, current: int)
    ensures var next := Next(groups, up, current);
            var currentUp := current in groups && exists d <- groups[current] :: d.name in up;
            (next != current ==>
               next in groups && (exists d <- groups[next] :: d.name in up)
               && (if currentUp then 1 <= next < current else current < next <= 10)
               && forall p <- groups :: (if currentUp then 1 <= p < next else current < p < next) ==>
                    forall d <- groups[p] :: d.name !in up)
            && (next == current ==>
                  forall p <- groups :: (if currentUp then 1 <= p < current else current < p <= 10) ==>
                    forall d <- groups[p] :: d.name !in up)
  {
    var next := Next(groups, up, current);
    assert forall p <- groups :: !HealthyAt(groups, up, p) ==> forall d <- groups[p] :: d.name !in up;
  }

  class DRAPool {
    const groups: map<int, seq<Dra>>
    var activePriority: int
    var failoverCount: nat

    /** NewDRAPool, given the sorted DRAs: the grouping loop, then the priority of the first. */
    constructor (sorted: seq<Dra>)
      requires sorted != [] && Sorted(sorted)
      ensures Grouped(sorted, groups) && failoverCount == 0 && activePriority == ToInt32(sorted[0].priority)
    {
      var g: map<int, seq<Dra>> := map[];
      for i := 0 to |sorted|
        invariant Grouped(sorted[..i], g)
      {
        var d := sorted[i];
        GroupsGrow(sorted[..i], g, d);
        assert sorted[..i + 1] == sorted[..i] + [d];
        g := g[d.priority := (if d.priority in g then g[d.priority] else []) + [d]];
      }
      assert sorted[..|sorted|] == sorted;
      groups, activePriority, failoverCount := g, ToInt32(sorted[0].priority), 0;
    }

    method CountHealthyDRAsAtPriority(priority: int, up: set<string>) returns (count: nat)
      ensures count == if priority in groups then |Healthy(groups[priority], up)| else 0
      ensures count > 0 <==> HealthyAt(groups, up, priority)
    {
      count := 0;
      if priority in groups {
        var draList := groups[priority];
        for i := 0 to |draList|
          invariant count == |Healthy(draList[..i], up)|
        {
          assert draList[..i + 1][..i] == draList[..i];
          if draList[i].name in up {
            count := count + 1;
          }
        }
        assert draList[..|draList|] == draList;
        HealthyHolds(draList, up);
      }
    }

    /** checkAndUpdatePriority with the health it reads. */
    method CheckAndUpdatePriority(up: set<string>)
      modifies this
      ensures activePriority == if Next(groups, up, old(activePriority)) == old(activePriority) then old(activePriority)
                                else ToInt32(Next(groups, up, old(activePriority)))
      ensures failoverCount == if Next(groups, up, old(activePriority)) == old(activePriority) then old(failoverCount)
                               else (old(failoverCount) + 1) % 0x1_0000_0000
    {
      var currentPriority := activePriority;
      var currentHealthy := CountHealthyDRAsAtPriority(currentPriority, up);
      if currentHealthy > 0 {
        var priority := 1;
        while priority < currentPriority
          invariant FirstHealthy(groups, up, 1, currentPriority) == FirstHealthy(groups, up, priority, currentPriority)
          invariant activePriority == currentPriority && failoverCount == old(failoverCount)
          decreases currentPriority - priority
        {
          var healthyCount := CountHealthyDRAsAtPriority(priority, up);
          if healthyCount > 0 {
            activePriority := ToInt32(priority);
            failoverCount := (failoverCount + 1) % 0x1_0000_0000;
            return;
          }
          priority := priority + 1;
        }
        return;
      }
      var priority := currentPriority + 1;
      while priority <= 10
        invariant FirstHealthy(groups, up, currentPriority + 1, 11) == FirstHealthy(groups, up, priority, 11)
        invariant activePriority == currentPriority && failoverCount == old(failoverCount)
        decreases 10 - priority
      {
        var healthyCount := CountHealthyDRAsAtPriority(priority, up);
        if healthyCount > 0 {
          activePriority := ToInt32(priority);
          failoverCount := (failoverCount + 1) % 0x1_0000_0000;
          return;
        }
        priority := priority + 1;
      }
    }
  }

  lemma GroupsGrow(dras: seq<Dra>, g: map<int, seq<Dra>>, d: Dra)
    requires Grouped(dras, g)
    ensures Grouped(dras + [d], g[d.priority := (if d.priority in g then g[d.priority] else []) + [d]])
  {
    assert (dras + [d])[..|dras|] == dras;
    if d.priority !in g {
      NoneOfPriority(dras, d.priority);
    }
  }

  // --- convergence ---

  /** What the two calls need: the current group, or one the check looks at below it, has a healthy DRA. */
  predicate Recoverable(groups: map<int, seq<Dra>>, up: set<string>, current: int) {
    HealthyAt(groups, up, current) || exists p :: current < p <= LOWEST_CHECKED && HealthyAt(groups, up, p)
  }

  ghost predicate SmallestHealthy(groups: map<int, seq<Dra>>, up: set<string>, p: int) {
    HealthyAt(groups, up, p) && forall q :: HealthyAt(groups, up, q) ==> p <= q
  }

  /** With health fixed, two checks reach the smallest priority with a healthy DRA if and only if the group in use, or
      one between it and priority 10, has one; and where they arrive, further checks stay.  Otherwise the first check
      already changes nothing, even if a better group is healthy. */
  lemma ConvergesExactly(groups: map<int, seq<Dra>>, up: set<string>, current: int)
    requires forall p <- groups :: p >= 1
    ensures var once := Next(groups, up, current);
            var twice := Next(groups, up, once);
            (Recoverable(groups, up, current) <==> SmallestHealthy(groups, up, twice))
            && Next(groups, up, twice) == twice
            && (!Recoverable(groups, up, current) ==> once == current)
  {
    var once := Next(groups, up, current);
    var twice := Next(groups, up, once);
    if Recoverable(groups, up, current) {
      assert HealthyAt(groups, up, once);
      HealthyImproves(groups, up, once);
    } else {
      assert once == current;
      assert twice == once && !HealthyAt(groups, up, twice);
    }
  }

  lemma HealthyImproves(groups: map<int, seq<Dra>>, up: set<string>, p: int)
    requires HealthyAt(groups, up, p) && forall q <- groups :: q >= 1
    ensures SmallestHealthy(groups, up, Next(groups, up, p))
    ensures Next(groups, up, Next(groups, up, p)) == Next(groups, up, p)
  {
    var next := Next(groups, up, p);
    forall q | HealthyAt(groups, up, q)
      ensures next <= q
    {
      assert q >= 1;
    }
  }

  /** The gap: the group in use is down, a better one is up, and no check ever goes back to it. */
  lemma StuckBelow(p: Dra, q: Dra)
    requires 1 <= p.priority < q.priority && p.name != q.name
    ensures var groups := map[p.priority := [p], q.priority := [q]];
            HealthyAt(groups, {p.name}, p.priority) && Next(groups, {p.name}, q.priority) == q.priority
  {
    var groups := map[p.priority := [p], q.priority := [q]];
    assert p in groups[p.priority];
    assert forall d: Dra | d in groups[q.priority] :: d.name !in {p.name};
  }

  // --- all runs ---

  /** The priorities after each check, starting with the initial one; each check sees some health. */
  function Course(groups: map<int, seq<Dra>>, start: int, ups: seq<set<string>>): (r: seq<int>)
    ensures |r| == |ups| + 1 && r[0] == start
  {
    if ups == [] then [start]
    else
      var r := Course(groups, start, ups[..|ups| - 1]);
      r + [Next(groups, ups[|ups| - 1], r[|ups| - 1])]
  }

  function Changes(course: seq<int>): (n: nat) {
    if |course| < 2 then 0
    else Changes(course[..|course| - 1]) + if course[|course| - 1] == course[|course| - 2] then 0 else 1
  }

  /** A new pool starts at the best of its groups exactly when that priority fits in 32 bits. */
  lemma StartsInAGroup(sorted: seq<Dra>, groups: map<int, seq<Dra>>)
    requires sorted != [] && Sorted(sorted) && Grouped(sorted, groups) && forall d <- sorted :: d.priority >= 1
    ensures ToInt32(sorted[0].priority) == sorted[0].priority <==> sorted[0].priority < 0x8000_0000
    ensures sorted[0].priority in groups && forall p <- groups :: sorted[0].priority <= p
  {
    forall p | p in groups
      ensures sorted[0].priority <= p
    {
      OfPriorityHolds(sorted, p);
      var d := groups[p][0];
      assert d in OfPriority(sorted, p);
    }
  }

  /** In every run the active priority names a group that is not empty, as long as the first does. */
  lemma {:induction false} AlwaysAGroup(groups: map<int, seq<Dra>>, start: int, ups: seq<set<string>>)
    requires start in groups
    ensures forall p <- Course(groups, start, ups) :: p in groups
  {
    if ups != [] {
      AlwaysAGroup(groups, start, ups[..|ups| - 1]);
      var r := Course(groups, start, ups[..|ups| - 1]);
      assert r[|ups| - 1] in r;
    }
  }

  lemma CourseGrows(groups: map<int, seq<Dra>>, start: int, ups: seq<set<string>>, i: nat)
    requires i < |ups|
    ensures var r := Course(groups, start, ups[..i]);
            Course(groups, start, ups[..i + 1]) == r + [Next(groups, ups[i], r[i])]
  {
    assert ups[..i + 1][..i] == ups[..i];
  }

  lemma ChangesGrow(course: seq<int>, next: int)
    requires course != []
    ensures Changes(course + [next]) == Changes(course) + if next == course[|course| - 1] then 0 else 1
  {
    assert (course + [next])[..|course|] == course;
  }

  lemma CountsOn(n: nat)
    ensures (n % 0x1_0000_0000 + 1) % 0x1_0000_0000 == (n + 1) % 0x1_0000_0000
  {
  }

  lemma NextNamesAGroup(groups: map<int, seq<Dra>>, up: set<string>, current: int)
    ensures Next(groups, up, current) == current || Next(groups, up, current) in groups
  {
  }

  /** The ticks of the priority manager: the pool follows the course, and counts its changes. */
  method StartPriorityManager(pool: DRAPool, ups: seq<set<string>>) returns (ghost course: seq<int>)
    requires ToInt32(pool.activePriority) == pool.activePriority && pool.failoverCount == 0
    requires forall p <- pool.groups :: 1 <= p < 0x8000_0000
    modifies pool
    ensures course == Course(pool.groups, old(pool.activePriority), ups)
    ensures pool.activePriority == course[|ups|] && pool.failoverCount == Changes(course) % 0x1_0000_0000
  {
    hide Next, HealthyAt, Course, Changes, ToInt32;
    ghost var start := pool.activePriority;
    course := Course(pool.groups, start, ups[..0]);
    StartOfCourse(pool.groups, start, ups);
    for i := 0 to |ups|
      invariant course == Course(pool.groups, start, ups[..i])
      invariant pool.activePriority == course[i] && ToInt32(course[i]) == course[i]
      invariant pool.failoverCount == Changes(course) % 0x1_0000_0000
    {
      ghost var next := Next(pool.groups, ups[i], course[i]);
      CourseGrows(pool.groups, start, ups, i);
      ChangesGrow(course, next);
      CountsOn(Changes(course));
      NextNamesAGroup(pool.groups, ups[i], course[i]);
      ToInt32Exactly(next);
      pool.CheckAndUpdatePriority(ups[i]);
      course := course + [next];
    }
    assert ups[..|ups|] == ups;
  }

  lemma StartOfCourse(groups: map<int, seq<Dra>>, start: int, ups: seq<set<string>>)
    ensures Course(groups, start, ups[..0]) == [start] && Changes([start]) == 0
  {
  }
}
