/** The resource governor: admission of costed work by class, expiry, cancellation, eviction
    under overload, and the choice of what runs next. */
module Governor {
  import opened Common
  import opened WorkItems

  const USIZE_MAX: nat := 0xFFFF_FFFF_FFFF_FFFF
  const DEADLINE_PRIORITY_WINDOW: nat := 4

  datatype Policy = Reject | TerminateLargest

  datatype Config = Config(capacity: nat, reserve: nat, maxQueue: nat, maxInFlight: nat, policy: Policy)

  datatype Refusal =
    | InvalidCapacity | InvalidReserve | InvalidBounds | InvalidCost
    | QueueFull | ProtectedReserve | CapacityExhausted | UnknownWork

  datatype Outcome<+T> = Done(value: T) | Refused(reason: Refusal)

  function CheckConfig(c: Config): Option<Refusal> {
    if c.capacity == 0 then Some(InvalidCapacity)
    else if c.reserve >= c.capacity then Some(InvalidReserve)
    else if c.maxQueue == 0 || c.maxInFlight == 0 then Some(InvalidBounds)
    else None
  }

  // ---- what the governor promises ------------------------------------------

  ghost function Background(live: Work): set<WorkId> {
    set id | id in live && !MayUseReserve(live[id].class_)
  }

  ghost function Evictable(live: Work): set<WorkId> {
    set id | id in live && Terminable(live[id].class_)
  }

  /** What has become of the work that is no longer live. */
  datatype Fate = Fate(completed: set<WorkId>, cancelled: set<WorkId>, expired: set<WorkId>, terminated: set<WorkId>)

  /** Every id ever given out is live, completed, cancelled, expired or terminated, and only
      one of these. */
  ghost predicate Accounted(live: Work, fate: Fate, nextId: nat) {
    && (forall id: nat :: id < nextId <==> id in live || id in fate.completed || id in fate.cancelled || id in fate.expired || id in fate.terminated)
    && fate.completed !! fate.cancelled !! fate.expired !! fate.terminated !! live.Keys
  }

  /** The cost on account is that of the live work; it respects the capacity, and what
      schema and scan work takes leaves the reserve alone. */
  ghost predicate Costed(config: Config, live: Work, cost: nat) {
    && cost == Sum(live, live.Keys) && cost <= config.capacity
    && Sum(live, Background(live)) <= config.capacity - config.reserve
    && (forall id :: id in live ==> 0 < live[id].cost)
  }

  lemma CostedWithout(config: Config, live: Work, cost: nat, id: WorkId)
    requires config.reserve <= config.capacity && Costed(config, live, cost) && id in live
    ensures live[id].cost <= cost && Costed(config, live - {id}, cost - live[id].cost)
  {
    hide Sum;
    var rest := live - {id};
    SumRemove(live, live.Keys, id);
    assert rest.Keys == live.Keys - {id};
    SumSame(live, rest, rest.Keys);
    SumMonotone(live, Background(rest), Background(live));
    SumSame(live, rest, Background(rest));
  }

  lemma CostedWith(config: Config, live: Work, cost: nat, item: WorkItem)
    requires config.reserve <= config.capacity && Costed(config, live, cost) && item.id !in live && item.cost > 0
    requires cost + item.cost <= config.capacity
    requires !MayUseReserve(item.class_) ==> cost + item.cost <= config.capacity - config.reserve
    ensures Costed(config, live[item.id := item], cost + item.cost)
  {
    hide Sum;
    var more := live[item.id := item];
    SumSame(live, more, live.Keys);
    SumAdd(more, live.Keys, item.id);
    assert more.Keys == live.Keys + {item.id};
    if MayUseReserve(item.class_) {
      assert Background(more) == Background(live);
      SumSame(live, more, Background(live));
    } else {
      SumMonotone(more, Background(more), more.Keys);
    }
  }

  // ---- choosing what to evict ----------------------------------------------

  predicate Better(item: WorkItem, than: WorkItem) {
    item.cost > than.cost || (item.cost == than.cost && item.id < than.id)
  }

  function Consider(best: Option<WorkItem>, item: WorkItem): Option<WorkItem> {
    if Terminable(item.class_) && (best.None? || Better(item, best.value)) then Some(item) else best
  }

  /** The best of the evictable items seen so far. */
  ghost predicate Best(live: Work, seen: set<WorkId>, best: Option<WorkItem>) {
    && (best.None? ==> forall id :: id in seen && id in live ==> !Terminable(live[id].class_))
    && (best.Some? ==>
          && best.value.id in seen && best.value.id in Evictable(live) && live[best.value.id] == best.value
          && forall id :: id in seen && id in Evictable(live) ==> id == best.value.id || Better(best.value, live[id]))
  }

  lemma Considered(live: Work, seen: set<WorkId>, best: Option<WorkItem>, item: WorkItem)
    requires Best(live, seen, best) && item.id in live && live[item.id] == item && forall id :: id in live ==> live[id].id == id
    ensures Best(live, seen + {item.id}, Consider(best, item))
  {
  }

  lemma PlacedFlight(queues: seq<Queue>, inFlight: Work, live: Work)
    requires Placed(queues, inFlight, live)
    ensures |queues| == CLASS_COUNT
    ensures forall id :: id in inFlight ==> id in live && live[id] == inFlight[id] && inFlight[id].id == id
    ensures forall id :: id in live ==> live[id].id == id
  {
  }

  lemma PlacedQueue(queues: seq<Queue>, inFlight: Work, live: Work, c: WorkClass)
    requires Placed(queues, inFlight, live)
    ensures forall i :: 0 <= i < |queues[QueueIndex(c)]| ==>
              var item := queues[QueueIndex(c)][i];
              item.id in live && live[item.id] == item && item.class_ == c && item.id !in inFlight
    ensures DistinctIds(queues[QueueIndex(c)])
  {
    assert QueueOk(queues[QueueIndex(c)], c, inFlight, live);
  }

  lemma PlacedHas(queues: seq<Queue>, inFlight: Work, live: Work, id: WorkId)
    requires Placed(queues, inFlight, live) && id in live && id !in inFlight
    ensures |queues| == CLASS_COUNT && Has(queues[QueueIndex(live[id].class_)], id)
  {
  }

  lemma AllSeen(queues: seq<Queue>, inFlight: Work, live: Work, seen: set<WorkId>)
    requires Placed(queues, inFlight, live)
    requires forall id :: id in inFlight ==> id in seen
    requires forall c, id :: QueueIndex(c) < CLASS_COUNT && Has(queues[QueueIndex(c)], id) ==> id in seen
    ensures live.Keys <= seen
  {
    forall id | id in live ensures id in seen {
      if id !in inFlight {
        PlacedHas(queues, inFlight, live, id);
      }
    }
  }

  // ---- eviction ------------------------------------------------------------

  ghost function Freed(before: Work, after: Work): nat {
    Sum(before, before.Keys - after.Keys)
  }

  /** Work was terminated largest first, and stopped as soon as enough was free: a set of
      evictable work that frees enough is never smaller. Otherwise all of it went. */
  ghost predicate Evicted(before: Work, was: Fate, after: Work, fate: Fate, victims: seq<WorkId>, needed: nat, met: bool) {
    && LargestFirst(before, Evictable(before), victims)
    && after == before - Members(victims)
    && fate == was.(terminated := was.terminated + Members(victims))
    && (met ==> forall chosen: set<WorkId> :: chosen <= Evictable(before) && Sum(before, chosen) >= needed ==> |chosen| >= |victims|)
    && (!met ==> Members(victims) == Evictable(before))
  }

  ghost predicate Eviction(before: Work, was: Fate, after: Work, fate: Fate, needed: nat, met: bool) {
    exists victims :: Evicted(before, was, after, fate, victims, needed, met)
  }

  ghost predicate Evicting(start: Work, was: Fate, live: Work, fate: Fate, victims: seq<WorkId>, freed: nat) {
    && LargestFirst(start, Evictable(start), victims)
    && Members(victims) <= start.Keys
    && live == start - Members(victims)
    && fate == was.(terminated := was.terminated + Members(victims))
    && freed == Sum(start, Members(victims))
  }

  lemma StartEviction(start: Work, fate: Fate)
    ensures Evicting(start, fate, start, fate, [], 0)
  {
    SumNothing(start);
    assert Members([]) == {};
  }

  lemma EvictOne(start: Work, was: Fate, live: Work, fate: Fate, victims: seq<WorkId>, freed: nat, item: WorkItem)
    requires Evicting(start, was, live, fate, victims, freed) && item.id in Evictable(live) && live[item.id] == item
    requires forall id :: id in Evictable(live) ==> live[id].cost <= item.cost
    ensures Evicting(start, was, live - {item.id}, fate.(terminated := fate.terminated + {item.id}), victims + [item.id], freed + item.cost)
  {
    hide Sum, LargestFirst, Members, Evictable;
    VictimsGrow(start, live, victims, item);
    SumAdd(start, Members(victims), item.id);
    LargestFirstMore(start, live, victims, item);
  }

  lemma VictimsGrow(start: Work, live: Work, victims: seq<WorkId>, item: WorkItem)
    requires live == start - Members(victims) && item.id in Evictable(live) && live[item.id] == item
    ensures Members(victims + [item.id]) == Members(victims) + {item.id}
    ensures item.id in start && item.id !in Members(victims) && start[item.id] == item
    ensures live - {item.id} == start - Members(victims + [item.id])
  {
    assert Members(victims + [item.id]) == Members(victims) + {item.id};
  }

  lemma LargestFirstMore(start: Work, live: Work, victims: seq<WorkId>, item: WorkItem)
    requires LargestFirst(start, Evictable(start), victims) && live == start - Members(victims)
    requires item.id in Evictable(live) && live[item.id] == item && forall id :: id in Evictable(live) ==> live[id].cost <= item.cost
    ensures LargestFirst(start, Evictable(start), victims + [item.id])
  {
    var more := victims + [item.id];
    forall i, x | 0 <= i < |more| && x in Evictable(start) && x !in more[..i] ensures start[x].cost <= start[more[i]].cost {
      if i < |victims| {
        assert more[..i] == victims[..i];
      } else {
        assert more[..i] == victims;
        assert x in Evictable(live);
      }
    }
  }

  lemma NothingLeft(start: Work, was: Fate, live: Work, fate: Fate, victims: seq<WorkId>, freed: nat)
    requires Evicting(start, was, live, fate, victims, freed) && Evictable(live) == {}
    ensures Members(victims) == Evictable(start) && freed == Sum(start, Evictable(start))
  {
    hide Sum;
    forall x | x in Evictable(start) ensures x in Members(victims) {
      assert x in live ==> x in Evictable(live);
    }
    VictimsEvictable(start, victims);
  }

  lemma VictimsEvictable(start: Work, victims: seq<WorkId>)
    requires LargestFirst(start, Evictable(start), victims)
    ensures Members(victims) <= Evictable(start)
  {
  }

  /** Without its last victim the eviction would not have freed enough. */
  ghost predicate LateVictim(start: Work, victims: seq<WorkId>, needed: nat) {
    && victims != []
    && Members(victims[..|victims| - 1]) <= start.Keys
    && Sum(start, Members(victims[..|victims| - 1])) < needed
  }

  lemma EvictingSum(start: Work, was: Fate, live: Work, fate: Fate, victims: seq<WorkId>, freed: nat, id: WorkId, needed: nat)
    requires Evicting(start, was, live, fate, victims, freed) && freed < needed
    ensures LateVictim(start, victims + [id], needed)
  {
    hide LargestFirst, Sum, Members;
    assert (victims + [id])[..|victims|] == victims;
  }

  lemma EvictableLive(live: Work)
    ensures Evictable(live) <= live.Keys
  {
  }

  lemma EvictionDone(start: Work, was: Fate, live: Work, fate: Fate, victims: seq<WorkId>, freed: nat, needed: nat)
    requires Evicting(start, was, live, fate, victims, freed) && Evictable(start) <= start.Keys
    requires freed >= needed ==> victims == [] || LateVictim(start, victims, needed)
    requires freed < needed ==> Members(victims) == Evictable(start)
    ensures Eviction(start, was, live, fate, needed, freed >= needed)
    ensures (freed >= needed) <==> Sum(start, Evictable(start)) >= needed
    ensures Freed(start, live) == freed
  {
    hide Sum, LargestFirst, Members, Evictable;
    VictimsEvictable(start, victims);
    SumMonotone(start, Members(victims), Evictable(start));
    WhatIsGone(start, Members(victims));
    if freed >= needed {
      forall chosen: set<WorkId> | chosen <= Evictable(start) && Sum(start, chosen) >= needed ensures |chosen| >= |victims| {
        if victims != [] {
          FewestVictims(start, Evictable(start), victims, needed, chosen);
        }
      }
    }
    assert Evicted(start, was, live, fate, victims, needed, freed >= needed);
  }

  lemma WhatIsGone(start: Work, gone: set<WorkId>)
    requires gone <= start.Keys
    ensures start.Keys - (start - gone).Keys == gone
  {
  }

  lemma FewerLeft(live: Work, id: WorkId)
    requires id in live
    ensures |live - {id}| < |live|
  {
    assert (live - {id}).Keys == live.Keys - {id};
  }

  // ---- accounts ------------------------------------------------------------

  lemma AccountedTerminate(live: Work, fate: Fate, nextId: nat, id: WorkId)
    requires Accounted(live, fate, nextId) && id in live
    ensures Accounted(live - {id}, fate.(terminated := fate.terminated + {id}), nextId)
  {
  }

  lemma AccountedExpire(live: Work, fate: Fate, nextId: nat, id: WorkId)
    requires Accounted(live, fate, nextId) && id in live
    ensures Accounted(live - {id}, fate.(expired := fate.expired + {id}), nextId)
  {
  }

  lemma AccountedComplete(live: Work, fate: Fate, nextId: nat, id: WorkId)
    requires Accounted(live, fate, nextId) && id in live
    ensures Accounted(live - {id}, fate.(completed := fate.completed + {id}), nextId)
  {
  }

  lemma AccountedCancel(live: Work, fate: Fate, nextId: nat, id: WorkId)
    requires Accounted(live, fate, nextId) && id in live
    ensures Accounted(live - {id}, fate.(cancelled := fate.cancelled + {id}), nextId)
  {
  }

  lemma AccountedSubmit(live: Work, fate: Fate, nextId: nat, item: WorkItem)
    requires Accounted(live, fate, nextId) && item.id == nextId
    ensures nextId !in live && Accounted(live[nextId := item], fate, nextId + 1)
  {
    assert !(nextId < nextId);
  }

  lemma FlightShrinks(inFlight: Work, id: WorkId)
    ensures |inFlight - {id}| <= |inFlight|
  {
    assert (inFlight - {id}).Keys == inFlight.Keys - {id};
    SubsetSize((inFlight - {id}).Keys, inFlight.Keys);
  }

  lemma FlightGrows(inFlight: Work, item: WorkItem)
    ensures |inFlight[item.id := item]| <= |inFlight| + 1
  {
    assert inFlight[item.id := item].Keys == inFlight.Keys + {item.id};
    SubsetSize(inFlight.Keys + {item.id} - {item.id}, inFlight.Keys);
  }

  // ---- choosing what to run ------------------------------------------------

  predicate Lapsed(item: WorkItem, now: nat) {
    item.deadline.Some? && item.deadline.value <= now
  }

  predicate Urgent(item: WorkItem, now: nat) {
    item.deadline.Some? && item.deadline.value <= now + DEADLINE_PRIORITY_WINDOW
  }

  /** A place in the queues: class and position. */
  datatype Place = Place(queue: nat, index: nat)

  predicate IsPlace(queues: seq<Queue>, p: Place) {
    p.queue < |queues| && p.index < |queues[p.queue]|
  }

  function ItemAt(queues: seq<Queue>, p: Place): WorkItem
    requires IsPlace(queues, p)
  {
    queues[p.queue][p.index]
  }

  /** The earlier deadline, then the higher class, then the longer wait. */
  predicate Sooner(queues: seq<Queue>, p: Place, r: Place)
    requires IsPlace(queues, p) && IsPlace(queues, r) && ItemAt(queues, p).deadline.Some? && ItemAt(queues, r).deadline.Some?
  {
    var d, e := ItemAt(queues, p).deadline.value, ItemAt(queues, r).deadline.value;
    d < e || (d == e && (p.queue < r.queue || (p.queue == r.queue && p.index <= r.index)))
  }

  ghost predicate IsUrgent(queues: seq<Queue>, now: nat, p: Place) {
    IsPlace(queues, p) && Urgent(ItemAt(queues, p), now)
  }

  /** The item to run next: the most urgent one if any is urgent, else the first of the
      first class that has work. */
  ghost predicate RunsNext(queues: seq<Queue>, now: nat, p: Place) {
    && IsPlace(queues, p)
    && if exists r :: IsUrgent(queues, now, r) then IsUrgent(queues, now, p) && forall r :: IsUrgent(queues, now, r) ==> Sooner(queues, p, r)
       else p.index == 0 && forall q :: 0 <= q < p.queue ==> queues[q] == []
  }

  /** Only one place runs next. */
  lemma RunsNextUnique(queues: seq<Queue>, now: nat, p: Place, r: Place)
    requires RunsNext(queues, now, p) && RunsNext(queues, now, r)
    ensures p == r
  {
  }

  lemma NextIsPlace(queues: seq<Queue>, now: nat, p: Place)
    requires RunsNext(queues, now, p)
    ensures IsPlace(queues, p) && queues[p.queue] != []
  {
  }

  /** A queue without lapsed work, the rest in order. */
  function Kept(q: Queue, now: nat): Queue {
    if q == [] then []
    else
      var last := q[|q| - 1];
      Kept(q[..|q| - 1], now) + if Lapsed(last, now) then [] else [last]
  }

  function AllKept(queues: seq<Queue>, now: nat): (r: seq<Queue>)
    ensures |r| == |queues| && forall i :: 0 <= i < |r| ==> r[i] == Kept(queues[i], now)
  {
    seq(|queues|, i requires 0 <= i < |queues| => Kept(queues[i], now))
  }

  lemma {:induction false} KeptAll(q: Queue, now: nat)
    requires forall i :: 0 <= i < |q| ==> !Lapsed(q[i], now)
    ensures Kept(q, now) == q
  {
    if q != [] {
      KeptAll(q[..|q| - 1], now);
    }
  }

  lemma {:induction false} KeptFresh(q: Queue, now: nat, i: nat)
    requires i < |Kept(q, now)|
    ensures !Lapsed(Kept(q, now)[i], now)
  {
    if i < |Kept(q[..|q| - 1], now)| {
      KeptFresh(q[..|q| - 1], now, i);
    }
  }

  lemma KeptMore(q: Queue, now: nat, m: nat)
    requires m < |q|
    ensures Kept(q[..m + 1], now) == Kept(q[..m], now) + if Lapsed(q[m], now) then [] else [q[m]]
  {
    assert q[..m + 1][..m] == q[..m];
  }

  /** One step of dropping lapsed work from the front of what has not been looked at. */
  lemma KeptStep(q: Queue, now: nat, m: nat)
    requires m < |q|
    ensures var half, n := Kept(q[..m], now) + q[m..], |Kept(q[..m], now)|;
            && n < |half| && half[n] == q[m]
            && Kept(q[..m + 1], now) + q[m + 1..] == if Lapsed(q[m], now) then Without(half, n) else half
  {
    hide Kept;
    KeptMore(q, now, m);
    var front := Kept(q[..m], now);
    assert q[m..] == [q[m]] + q[m + 1..];
  }

  /** The item that runs next leaves the queues, and nothing else moves. */
  ghost predicate Taken(waiting: seq<Queue>, now: nat, item: WorkItem, after: seq<Queue>) {
    exists p :: RunsNext(waiting, now, p) && ItemAt(waiting, p) == item && after == waiting[p.queue := Without(waiting[p.queue], p.index)]
  }

  class ResourceGovernor {
    const config: Config
    var queues: seq<Queue>
    var inFlight: Work
    var accountedCost: nat
    var nextId: nat
    var terminatedItems: seq<WorkItem>
    ghost var live: Work
    ghost var fate: Fate

    ghost predicate Valid()
      reads this
    {
      && CheckConfig(config).None?
      && Placed(queues, inFlight, live)
      && Accounted(live, fate, nextId)
      && Costed(config, live, accountedCost)
      && |inFlight| <= config.maxInFlight
      && (forall i :: 0 <= i < |terminatedItems| ==> terminatedItems[i].id in fate.terminated)
    }

    ghost function Holds(): Holding
      reads this
    {
      Holding(queues, inFlight, live, fate, accountedCost, nextId)
    }

    constructor (config: Config)
      requires CheckConfig(config).None?
      ensures Valid() && live == map[] && inFlight == map[] && nextId == 0 && this.config == config
      ensures fate == Fate({}, {}, {}, {}) && terminatedItems == []
    {
      this.config := config;
      queues := [[], [], [], [], []];
      inFlight, accountedCost, nextId, terminatedItems := map[], 0, 0, [];
      live, fate := map[], Fate({}, {}, {}, {});
      new;
      SumNothing(live);
      assert Background(live) == {};
    }

    /** The largest live item that may be terminated, the oldest of equals. */
    method LargestTerminable() returns (best: Option<WorkItem>)
      requires Valid()
      ensures best.None? <==> Evictable(live) == {}
      ensures best.Some? ==> best.value.id in Evictable(live) && live[best.value.id] == best.value
      ensures best.Some? ==> forall id :: id in Evictable(live) ==>
                live[id].cost < best.value.cost || (live[id].cost == best.value.cost && best.value.id <= id)
    {
      hide Costed, Accounted, Sum, Placed;
      best := None;
      ghost var seen: set<WorkId> := {};
      var ids := inFlight.Keys;
      PlacedFlight(queues, inFlight, live);
      while ids != {}
        invariant ids <= inFlight.Keys && seen == inFlight.Keys - ids && Best(live, seen, best)
      {
        var id :| id in ids;
        Considered(live, seen, best, inFlight[id]);
        best := Consider(best, inFlight[id]);
        seen := seen + {id};
        ids := ids - {id};
      }
      var q := 0;
      while q < CLASS_COUNT
        invariant q <= CLASS_COUNT && |queues| == CLASS_COUNT && Best(live, seen, best) && seen <= live.Keys
        invariant forall id :: id in inFlight ==> id in seen
        invariant forall c, id :: QueueIndex(c) < q && Has(queues[QueueIndex(c)], id) ==> id in seen
      {
        PlacedQueue(queues, inFlight, live, ClassAt(q));
        var n := 0;
        while n < |queues[q]|
          invariant n <= |queues[q]| && Best(live, seen, best) && seen <= live.Keys
          invariant forall id :: id in inFlight ==> id in seen
          invariant forall c, id :: QueueIndex(c) < q && Has(queues[QueueIndex(c)], id) ==> id in seen
          invariant forall i :: 0 <= i < n ==> queues[q][i].id in seen
        {
          Considered(live, seen, best, queues[q][n]);
          best := Consider(best, queues[q][n]);
          seen := seen + {queues[q][n].id};
          n := n + 1;
        }
        q := q + 1;
      }
      AllSeen(queues, inFlight, live, seen);
    }

    /** Take one live item out of the flight or out of its queue, for good. */
    method Withdraw(item: WorkItem)
      requires Valid() && item.id in live && live[item.id] == item
      modifies `queues, `inFlight, `accountedCost, `live
      ensures live == old(live) - {item.id} && accountedCost == old(accountedCost) - item.cost
      ensures Placed(queues, inFlight, live) && Costed(config, live, accountedCost)
      ensures inFlight == old(inFlight) - {item.id} && queues == AllLess(old(queues), {item.id})
    {
      hide Accounted, Sum, Placed, Costed, Without, AllLess;
      CostedWithout(config, live, accountedCost, item.id);
      if item.id in inFlight {
        NoneQueued(queues, inFlight, live, item.id);
        PlacedDone(queues, inFlight, live, item.id);
        inFlight := inFlight - {item.id};
      } else {
        var q := QueueIndex(item.class_);
        PlacedHas(queues, inFlight, live, item.id);
        var p := PositionOf(queues[q], item.id).value;
        PlacedTake(queues, inFlight, live, item.class_, p);
        OneQueued(queues, inFlight, live, q, p);
        queues := queues[q := Without(queues[q], p)];
      }
      live := live - {item.id};
      accountedCost := accountedCost - item.cost;
    }

    /** Terminate the largest evictable work until enough cost is free or none is left. */
    method TerminateLargestFor(needed: nat) returns (met: bool)
      requires Valid()
      modifies `queues, `inFlight, `accountedCost, `live, `fate, `terminatedItems
      ensures Valid()
      ensures met <==> Sum(old(live), Evictable(old(live))) >= needed
      ensures Eviction(old(live), old(fate), live, fate, needed, met)
      ensures accountedCost + Freed(old(live), live) == old(accountedCost) && (met ==> Freed(old(live), live) >= needed)
      ensures Emptied(old(queues), old(inFlight), old(live), queues, inFlight, live)
      ensures old(fate).terminated <= fate.terminated && forall id :: id in old(inFlight) && id !in inFlight ==> id in fate.terminated
    {
      hide Valid, Sum, Evicting, Eviction, Evictable, Freed, Members, Emptied;
      ghost var start, startFate := live, fate;
      EmptiedNothing(queues, inFlight, live);
      ghost var victims: seq<WorkId> := [];
      var freed: nat := 0;
      StartEviction(start, startFate);
      EvictableLive(start);
      while freed < needed
        invariant Valid() && accountedCost + freed == old(accountedCost)
        invariant Evicting(start, startFate, live, fate, victims, freed)
        invariant Emptied(old(queues), old(inFlight), start, queues, inFlight, live)
        invariant old(fate).terminated <= fate.terminated && forall id :: id in old(inFlight) && id !in inFlight ==> id in fate.terminated
        invariant freed < needed || victims == [] || LateVictim(start, victims, needed)
        decreases |live|
      {
        var victim := LargestTerminable();
        if victim.None? {
          NothingLeft(start, startFate, live, fate, victims, freed);
          break;
        }
        var item := victim.value;
        EvictOne(start, startFate, live, fate, victims, freed, item);
        EvictingSum(start, startFate, live, fate, victims, freed, item.id, needed);
        EvictableLive(live);
        FewerLeft(live, item.id);
        EmptiedOne(old(queues), old(inFlight), start, queues, inFlight, live, item.id);
        TerminateOne(item);
        victims := victims + [item.id];
        freed := freed + item.cost;
      }
      met := freed >= needed;
      EvictionDone(start, startFate, live, fate, victims, freed, needed);
    }

    method TerminateOne(item: WorkItem)
      requires Valid() && item.id in live && live[item.id] == item
      modifies `queues, `inFlight, `accountedCost, `live, `fate, `terminatedItems
      ensures Valid() && live == old(live) - {item.id} && inFlight == old(inFlight) - {item.id}
      ensures accountedCost + item.cost == old(accountedCost) && queues == AllLess(old(queues), {item.id})
      ensures fate == old(fate).(terminated := old(fate).terminated + {item.id}) && terminatedItems == old(terminatedItems) + [item]
    {
      hide Accounted, Sum, Placed, Costed, AllLess;
      AccountedTerminate(live, fate, nextId, item.id);
      FlightShrinks(inFlight, item.id);
      CostedWithout(config, live, accountedCost, item.id);
      Withdraw(item);
      fate := fate.(terminated := fate.terminated + {item.id});
      terminatedItems := terminatedItems + [item];
    }

    /** Admit work, evicting to make room if the policy says so. The eviction stands even if
        the work is then refused for the sake of the reserve. */
    method Submit(class_: WorkClass, cost: nat, deadline: Option<nat>) returns (r: Outcome<WorkId>)
      requires Valid()
      modifies this
      ensures Valid() && Submitted(config, old(Holds()), class_, cost, deadline, r, Holds())
      ensures config.policy == Reject ==> inFlight == old(inFlight)
      ensures old(fate).terminated <= fate.terminated && forall id :: id in old(inFlight) && id !in inFlight ==> id in fate.terminated
    {
      hide Valid, Submitted, RoomMade;
      ghost var start := Holds();
      var refusal := MakeRoom(class_, cost);
      ghost var roomy := Holds();
      if refusal.Some? {
        SubmitRefused(config, start, class_, cost, deadline, refusal.value, roomy);
        return Refused(refusal.value);
      }
      if !MayUseReserve(class_) && accountedCost + cost > config.capacity - config.reserve {
        SubmitRefused(config, start, class_, cost, deadline, ProtectedReserve, roomy);
        return Refused(ProtectedReserve);
      }
      if nextId == USIZE_MAX {
        SubmitRefused(config, start, class_, cost, deadline, CapacityExhausted, roomy);
        return Refused(CapacityExhausted);
      }
      var id := Admit(class_, cost, deadline);
      SubmitDone(config, start, class_, cost, deadline, roomy, Holds());
      r := Done(id);
    }

    /** Check cost, queue and capacity, evicting if the policy says so. */
    method MakeRoom(class_: WorkClass, cost: nat) returns (refusal: Option<Refusal>)
      requires Valid()
      modifies `queues, `inFlight, `accountedCost, `live, `fate, `terminatedItems
      ensures Valid() && RoomMade(config, old(Holds()), QueueIndex(class_), cost, Holds())
      ensures refusal.None? <==> RoomFor(config, old(Holds()), QueueIndex(class_), cost)
      ensures refusal.None? ==> cost > 0 && accountedCost + cost <= config.capacity
      ensures config.policy == Reject ==> inFlight == old(inFlight)
      ensures old(fate).terminated <= fate.terminated && forall id :: id in old(inFlight) && id !in inFlight ==> id in fate.terminated
    {
      hide Accounted, Sum, Placed, Costed, Eviction, Freed, Evictable, Emptied, RoomMade, AfterEviction;
      ghost var start := Holds();
      PlacedFlight(queues, inFlight, live);
      CostIsSum(config, live, accountedCost);
      NoEviction(config, start, QueueIndex(class_), cost);
      if cost == 0 || cost > config.capacity {
        return Some(InvalidCost);
      }
      if |queues[QueueIndex(class_)]| >= config.maxQueue {
        return Some(QueueFull);
      }
      if accountedCost + cost > USIZE_MAX {
        return Some(CapacityExhausted);
      }
      if accountedCost + cost > config.capacity {
        if config.policy == Reject {
          return Some(CapacityExhausted);
        }
        var met := TerminateLargestFor(accountedCost + cost - config.capacity);
        CostIsSum(config, live, accountedCost);
        OneEviction(config, start, QueueIndex(class_), cost, Holds(), met);
        if !met {
          return Some(CapacityExhausted);
        }
      }
      refusal := None;
    }

    /** Queue work that has been found to fit. */
    method Admit(class_: WorkClass, cost: nat, deadline: Option<nat>) returns (id: WorkId)
      requires Valid() && cost > 0 && accountedCost + cost <= config.capacity
      requires !MayUseReserve(class_) ==> accountedCost + cost <= config.capacity - config.reserve
      modifies `queues, `live, `nextId, `accountedCost
      ensures Valid() && id == old(nextId) && nextId == id + 1 && id !in old(live)
      ensures live == old(live)[id := WorkItem(id, class_, cost, deadline)] && |old(queues)| == CLASS_COUNT
      ensures queues == old(queues)[QueueIndex(class_) := old(queues)[QueueIndex(class_)] + [WorkItem(id, class_, cost, deadline)]]
    {
      hide Accounted, Sum, Placed, Costed;
      id := nextId;
      var item, q := WorkItem(id, class_, cost, deadline), QueueIndex(class_);
      AccountedSubmit(live, fate, nextId, item);
      CostedWith(config, live, accountedCost, item);
      PlacedFlight(queues, inFlight, live);
      PlacedPush(queues, inFlight, live, item);
      queues := queues[q := queues[q] + [item]];
      live := live[id := item];
      nextId, accountedCost := nextId + 1, accountedCost + cost;
    }

    /** Work in flight has finished. */
    method Complete(id: WorkId) returns (r: Outcome<WorkItem>)
      requires Valid()
      modifies `inFlight, `accountedCost, `live, `fate
      ensures Valid()
      ensures r.Done? <==> id in old(inFlight)
      ensures r.Done? ==> r.value == old(inFlight)[id] && inFlight == old(inFlight) - {id} && live == old(live) - {id}
                          && fate == old(fate).(completed := old(fate).completed + {id})
      ensures r.Refused? ==> r.reason == UnknownWork && inFlight == old(inFlight) && live == old(live) && fate == old(fate)
    {
      hide Accounted, Sum, Placed, Costed;
      if id !in inFlight {
        return Refused(UnknownWork);
      }
      PlacedFlight(queues, inFlight, live);
      CostedWithout(config, live, accountedCost, id);
      AccountedComplete(live, fate, nextId, id);
      PlacedDone(queues, inFlight, live, id);
      FlightShrinks(inFlight, id);
      var item := inFlight[id];
      inFlight := inFlight - {id};
      live := live - {id};
      accountedCost := accountedCost - item.cost;
      fate := fate.(completed := fate.completed + {id});
      r := Done(item);
    }

    /** Take an item out of its queue for good. */
    method DropQueued(q: nat, p: nat) returns (item: WorkItem)
      requires Valid() && q < |queues| == CLASS_COUNT && p < |queues[q]|
      modifies `queues, `accountedCost, `live
      ensures item == old(queues)[q][p] && item.id in old(live) && old(live)[item.id] == item && item.id !in inFlight
      ensures queues == old(queues)[q := Without(old(queues)[q], p)] && live == old(live) - {item.id}
      ensures Placed(queues, inFlight, live) && Costed(config, live, accountedCost)
    {
      hide Accounted, Sum, Placed, Costed, Without;
      item := queues[q][p];
      PlacedTake(queues, inFlight, live, ClassAt(q), p);
      CostedWithout(config, live, accountedCost, item.id);
      queues := queues[q := Without(queues[q], p)];
      live := live - {item.id};
      accountedCost := accountedCost - item.cost;
    }

    /** Queued work is called off; work in flight is not. */
    method CancelQueued(id: WorkId) returns (r: Outcome<WorkItem>)
      requires Valid()
      modifies `queues, `accountedCost, `live, `fate
      ensures Valid() && Withdrawn(old(Holds()), id, r, Holds())
    {
      hide Accounted, Sum, Placed, Costed, Without, PositionOf, Has, AllLess;
      var q := 0;
      PlacedFlight(queues, inFlight, live);
      while q < CLASS_COUNT
        invariant q <= CLASS_COUNT && |queues| == CLASS_COUNT && Valid()
        invariant Holds() == old(Holds())
        invariant forall c :: QueueIndex(c) < q ==> !Has(queues[QueueIndex(c)], id)
      {
        var p := PositionOf(queues[q], id);
        if p.Some? {
          r := CancelAt(q, p.value);
          return;
        }
        SkippedQueue(queues, q, id);
        q := q + 1;
      }
      NotQueued(queues, inFlight, live, id);
      r := Refused(UnknownWork);
    }

    method CancelAt(q: nat, p: nat) returns (r: Outcome<WorkItem>)
      requires Valid() && q < |queues| == CLASS_COUNT && p < |queues[q]|
      modifies `queues, `accountedCost, `live, `fate
      ensures Valid() && r == Done(old(queues)[q][p]) && r.value.id in old(live) && old(live)[r.value.id] == r.value && r.value.id !in inFlight
      ensures live == old(live) - {r.value.id} && fate == old(fate).(cancelled := old(fate).cancelled + {r.value.id})
      ensures queues == AllLess(old(queues), {r.value.id})
    {
      hide Accounted, Sum, Placed, Costed, Without, AllLess;
      OneQueued(queues, inFlight, live, q, p);
      var item := DropQueued(q, p);
      AccountedCancel(old(live), fate, nextId, item.id);
      fate := fate.(cancelled := fate.cancelled + {item.id});
      r := Done(item);
    }

    /** Drop queued work whose deadline has passed. */
    method Expire(now: nat)
      requires Valid()
      modifies `queues, `accountedCost, `live, `fate
      ensures Valid()
      ensures live.Keys <= old(live).Keys && forall id :: id in live ==> live[id] == old(live)[id]
      ensures forall id :: id in old(live) && id !in inFlight ==> (id in live <==> !Lapsed(old(live)[id], now))
      ensures fate == old(fate).(expired := old(fate).expired + (old(live).Keys - live.Keys))
      ensures inFlight.Keys <= live.Keys && queues == AllKept(old(queues), now)
    {
      hide Accounted, Sum, Placed, Costed, Without, Lapsed, Expired, Kept;
      var q := 0;
      PlacedFlight(queues, inFlight, live);
      ghost var gone: set<WorkId> := {};
      NothingExpired(live, fate, now);
      while q < CLASS_COUNT
        invariant q <= CLASS_COUNT && |queues| == |old(queues)| == CLASS_COUNT && Valid()
        invariant Expired(old(live), live, gone, now) && gone !! inFlight.Keys
        invariant fate == old(fate).(expired := old(fate).expired + gone)
        invariant forall k :: 0 <= k < CLASS_COUNT ==> queues[k] == if k < q then Kept(old(queues)[k], now) else old(queues)[k]
      {
        gone := ExpireQueue(q, now, old(live), old(fate), gone);
        q := q + 1;
      }
      FreshQueues(old(queues), queues, now);
      ExpiredAll(queues, inFlight, live, old(live), gone, now);
    }

    /** One queue, item by item from the front. */
    method ExpireQueue(q: nat, now: nat, ghost before: Work, ghost was: Fate, ghost gone: set<WorkId>) returns (ghost more: set<WorkId>)
      requires Valid() && q < |queues| == CLASS_COUNT
      requires Expired(before, live, gone, now) && gone !! inFlight.Keys && fate == was.(expired := was.expired + gone)
      modifies `queues, `accountedCost, `live, `fate
      ensures Valid() && |queues| == CLASS_COUNT && forall k :: 0 <= k < CLASS_COUNT && k != q ==> queues[k] == old(queues)[k]
      ensures Expired(before, live, more, now) && more !! inFlight.Keys && fate == was.(expired := was.expired + more)
      ensures queues[q] == Kept(old(queues)[q], now)
    {
      hide Accounted, Sum, Placed, Costed, Without, Lapsed, Expired, Kept;
      more := gone;
      var n := 0;
      ghost var start, m := queues[q], 0;
      KeptStart(start, now);
      while n < |queues[q]|
        invariant |queues| == CLASS_COUNT && n <= |queues[q]| && Valid()
        invariant m <= |start| && n == |Kept(start[..m], now)| && queues[q] == Kept(start[..m], now) + start[m..]
        invariant forall k :: 0 <= k < CLASS_COUNT && k != q ==> queues[k] == old(queues)[k]
        invariant Expired(before, live, more, now) && more !! inFlight.Keys && fate == was.(expired := was.expired + more)
        decreases |queues[q]| - n
      {
        KeptStep(start, now, m);
        KeptMore(start, now, m);
        if Lapsed(queues[q][n], now) {
          WithoutFront(queues[q], n);
          more := ExpireAt(q, n, now, before, was, more);
        } else {
          n := n + 1;
        }
        m := m + 1;
      }
      assert start[..m] == start;
    }

    method ExpireAt(q: nat, n: nat, now: nat, ghost before: Work, ghost was: Fate, ghost gone: set<WorkId>) returns (ghost more: set<WorkId>)
      requires Valid() && q < |queues| == CLASS_COUNT && n < |queues[q]| && Lapsed(queues[q][n], now)
      requires Expired(before, live, gone, now) && gone !! inFlight.Keys && fate == was.(expired := was.expired + gone)
      modifies `queues, `accountedCost, `live, `fate
      ensures Valid() && queues == old(queues)[q := Without(old(queues)[q], n)]
      ensures Expired(before, live, more, now) && more !! inFlight.Keys && fate == was.(expired := was.expired + more)
    {
      hide Accounted, Sum, Placed, Costed, Without, Lapsed, Expired;
      var item := DropQueued(q, n);
      AccountedExpire(old(live), fate, nextId, item.id);
      ExpiredOne(before, old(live), was, gone, now, item);
      fate := fate.(expired := fate.expired + {item.id});
      more := gone + {item.id};
    }

    /** The most urgent queued item. */
    method UrgentItem(now: nat) returns (best: Option<Place>)
      requires |queues| == CLASS_COUNT
      ensures best.None? <==> !exists r :: IsUrgent(queues, now, r)
      ensures best.Some? ==> IsUrgent(queues, now, best.value) && forall r :: IsUrgent(queues, now, r) ==> Sooner(queues, best.value, r)
    {
      best := None;
      var q := 0;
      while q < CLASS_COUNT
        invariant q <= CLASS_COUNT
        invariant best.None? ==> forall r :: IsUrgent(queues, now, r) ==> r.queue >= q
        invariant best.Some? ==> IsUrgent(queues, now, best.value) && forall r :: IsUrgent(queues, now, r) && r.queue < q ==> Sooner(queues, best.value, r)
        invariant best.Some? ==> best.value.queue < q
      {
        var n := 0;
        while n < |queues[q]|
          invariant n <= |queues[q]|
          invariant best.None? ==> forall r :: IsUrgent(queues, now, r) ==> r.queue > q || (r.queue == q && r.index >= n)
          invariant best.Some? ==> IsUrgent(queues, now, best.value)
          invariant best.Some? ==> forall r | IsUrgent(queues, now, r) && (r.queue < q || (r.queue == q && r.index < n)) :: Sooner(queues, best.value, r)
          invariant best.Some? ==> best.value.queue < q || (best.value.queue == q && best.value.index < n)
        {
          var here := Place(q, n);
          if Urgent(ItemAt(queues, here), now) {
            if best.None? || !Sooner(queues, best.value, here) {
              best := Some(here);
            }
          }
          n := n + 1;
        }
        q := q + 1;
      }
    }

    /** Take the next item to run, after dropping what has expired. */
    method Poll(now: nat) returns (r: Option<WorkItem>)
      requires Valid()
      modifies `queues, `inFlight, `accountedCost, `live, `fate
      ensures Valid()
      ensures live.Keys <= old(live).Keys && forall id :: id in live ==> live[id] == old(live)[id]
      ensures fate == old(fate).(expired := old(fate).expired + (old(live).Keys - live.Keys))
      ensures Polled(config, old(Holds()), now, r, Holds())
      ensures r.None? ==> |inFlight| == config.maxInFlight || live.Keys == inFlight.Keys
      ensures r.Some? ==> r.value.id in old(live) && old(live)[r.value.id] == r.value && r.value.id !in old(inFlight) && r.value.id in live
    {
      hide Valid, Without, Kept, RunsNext;
      Expire(now);
      ghost var waiting := queues;
      if |inFlight| >= config.maxInFlight {
        FlightFull();
        return None;
      }
      var place := NextPlace(now);
      if place.None? {
        NothingWaits();
        return None;
      }
      NextIsPlace(queues, now, place.value);
      var item := TakeAt(place.value);
      assert Taken(waiting, now, item, queues);
      r := Some(item);
    }

    /** Where the item that runs next stands. */
    method NextPlace(now: nat) returns (place: Option<Place>)
      requires Valid()
      ensures |queues| == CLASS_COUNT
      ensures place.None? ==> forall k :: 0 <= k < CLASS_COUNT ==> queues[k] == []
      ensures place.Some? ==> RunsNext(queues, now, place.value)
    {
      hide Accounted, Sum, Placed, Costed;
      PlacedFlight(queues, inFlight, live);
      place := UrgentItem(now);
      if place.None? {
        var q := 0;
        while q < CLASS_COUNT && queues[q] == []
          invariant q <= CLASS_COUNT && forall k :: 0 <= k < q ==> queues[k] == []
        {
          q := q + 1;
        }
        if q < CLASS_COUNT {
          place := Some(Place(q, 0));
        }
      }
    }

    /** Put a queued item in flight. */
    method TakeAt(at: Place) returns (item: WorkItem)
      requires Valid() && |inFlight| < config.maxInFlight && |queues| == CLASS_COUNT && IsPlace(queues, at)
      modifies `queues, `inFlight
      ensures Valid() && item == ItemAt(old(queues), at) && item.id in live && live[item.id] == item && item.id !in old(inFlight)
      ensures queues == old(queues)[at.queue := Without(old(queues)[at.queue], at.index)] && inFlight == old(inFlight)[item.id := item]
    {
      hide Accounted, Sum, Placed, Costed, Without;
      item := ItemAt(queues, at);
      PlacedTake(queues, inFlight, live, ClassAt(at.queue), at.index);
      FlightGrows(inFlight, item);
      queues := queues[at.queue := Without(queues[at.queue], at.index)];
      inFlight := inFlight[item.id := item];
    }

    lemma FlightFull()
      requires Valid() && |inFlight| >= config.maxInFlight
      ensures |inFlight| == config.maxInFlight
    {
    }

    lemma NothingWaits()
      requires Valid() && forall k :: 0 <= k < |queues| ==> queues[k] == []
      ensures live.Keys == inFlight.Keys
    {
      EmptyQueues(queues, inFlight, live);
    }

    /** Put work in flight back at the rear of its queue, keeping its cost on account. */
    method Requeue(id: WorkId)
      requires Valid()
      modifies `queues, `inFlight
      ensures Valid() && inFlight == old(inFlight) - {id}
      ensures |old(queues)| == CLASS_COUNT && queues == Rear(old(queues), old(inFlight), id)
    {
      hide Accounted, Sum, Placed, Costed;
      PlacedFlight(queues, inFlight, live);
      FlightShrinks(inFlight, id);
      if id in inFlight {
        var item := inFlight[id];
        var q := QueueIndex(item.class_);
        PlacedRequeue(queues, inFlight, live, id);
        queues := queues[q := queues[q] + [item]];
        inFlight := inFlight - {id};
      }
    }

    /** Hand over the items that were terminated. */
    method TakeTerminated() returns (items: seq<WorkItem>)
      requires Valid()
      modifies `terminatedItems
      ensures Valid() && items == old(terminatedItems) && terminatedItems == []
      ensures forall i :: 0 <= i < |items| ==> items[i].id in fate.terminated
    {
      items := terminatedItems;
      terminatedItems := [];
    }
  }

  /** What a governor holds at some moment. */
  datatype Holding = Holding(queues: seq<Queue>, inFlight: Work, live: Work, fate: Fate, accountedCost: nat, nextId: nat)

  /** What is no longer live has left the queues and the flight; the rest is where it was. */
  ghost predicate Emptied(queues: seq<Queue>, inFlight: Work, live: Work, queues': seq<Queue>, inFlight': Work, live': Work) {
    && live' == live - (live.Keys - live'.Keys)
    && queues' == AllLess(queues, live.Keys - live'.Keys) && inFlight' == inFlight - (live.Keys - live'.Keys)
  }

  lemma EmptiedNothing(queues: seq<Queue>, inFlight: Work, live: Work)
    ensures Emptied(queues, inFlight, live, queues, inFlight, live)
  {
    AllLessNone(queues);
    assert live.Keys - live.Keys == {};
    assert inFlight - {} == inFlight && live - {} == live;
  }

  lemma EmptiedOne(queues: seq<Queue>, inFlight: Work, live: Work, queues': seq<Queue>, inFlight': Work, live': Work, id: WorkId)
    requires Emptied(queues, inFlight, live, queues', inFlight', live') && id in live'
    ensures Emptied(queues, inFlight, live, AllLess(queues', {id}), inFlight' - {id}, live' - {id})
  {
    hide AllLess;
    var gone := live.Keys - live'.Keys;
    AllLessAgain(queues, gone, {id});
    assert live.Keys - (live' - {id}).Keys == gone + {id};
    assert live' - {id} == live - (gone + {id});
    assert inFlight' - {id} == inFlight - (gone + {id});
  }

  /** The outcome of a submission. Work is evicted only for the missing cost; what is not
      evicted stays in its place; an accepted item joins the rear of its class's queue. */
  ghost predicate Submitted(config: Config, s: Holding, class_: WorkClass, cost: nat, deadline: Option<nat>, r: Outcome<WorkId>, t: Holding) {
    var item, q := WorkItem(s.nextId, class_, cost, deadline), QueueIndex(class_);
    var kept := if r.Done? then t.live - {s.nextId} else t.live;
    var rest := AllLess(s.queues, s.live.Keys - kept.Keys);
    && |s.queues| == CLASS_COUNT
    && AfterEviction(config, s.live, s.fate, kept, t.fate, |s.queues[q]|, s.accountedCost, cost)
    && (r.Done? <==> Fits(config, s.live, |s.queues[q]|, s.accountedCost, cost) && s.nextId != USIZE_MAX
                     && (MayUseReserve(class_) || Sum(kept, kept.Keys) + cost <= config.capacity - config.reserve))
    && t.inFlight == s.inFlight - (s.live.Keys - kept.Keys)
    && (if r.Done? then
          && r.value == s.nextId && t.nextId == s.nextId + 1
          && t.live == kept[s.nextId := item] && t.queues == rest[q := rest[q] + [item]]
        else t.nextId == s.nextId && t.queues == rest)
  }

  /** Room was made for work, as far as the policy goes: what was evicted has left its place. */
  ghost predicate RoomMade(config: Config, s: Holding, q: nat, cost: nat, t: Holding) {
    && q < |s.queues| == CLASS_COUNT && t.nextId == s.nextId && t.accountedCost == Sum(t.live, t.live.Keys)
    && AfterEviction(config, s.live, s.fate, t.live, t.fate, |s.queues[q]|, s.accountedCost, cost)
    && Emptied(s.queues, s.inFlight, s.live, t.queues, t.inFlight, t.live)
  }

  lemma NoEviction(config: Config, s: Holding, q: nat, cost: nat)
    requires q < |s.queues| == CLASS_COUNT && s.accountedCost == Sum(s.live, s.live.Keys)
    ensures !Overloaded(config, |s.queues[q]|, s.accountedCost, cost) ==> RoomMade(config, s, q, cost, s)
  {
    hide Emptied, Sum;
    EmptiedNothing(s.queues, s.inFlight, s.live);
  }

  lemma OneEviction(config: Config, s: Holding, q: nat, cost: nat, t: Holding, met: bool)
    requires q < |s.queues| == CLASS_COUNT && t.nextId == s.nextId && t.accountedCost == Sum(t.live, t.live.Keys)
    requires Overloaded(config, |s.queues[q]|, s.accountedCost, cost)
    requires var needed := s.accountedCost + cost - config.capacity;
             Eviction(s.live, s.fate, t.live, t.fate, needed, met) && (met <==> Sum(s.live, Evictable(s.live)) >= needed)
    requires Emptied(s.queues, s.inFlight, s.live, t.queues, t.inFlight, t.live)
    ensures RoomMade(config, s, q, cost, t)
  {
    hide Emptied, Sum, Eviction, Evictable;
  }

  ghost predicate RoomFor(config: Config, s: Holding, q: nat, cost: nat) {
    q < |s.queues| && Fits(config, s.live, |s.queues[q]|, s.accountedCost, cost)
  }

  lemma SubmitRefused(config: Config, s: Holding, class_: WorkClass, cost: nat, deadline: Option<nat>, reason: Refusal, t: Holding)
    requires RoomMade(config, s, QueueIndex(class_), cost, t)
    requires !RoomFor(config, s, QueueIndex(class_), cost) || s.nextId == USIZE_MAX
             || (!MayUseReserve(class_) && t.accountedCost + cost > config.capacity - config.reserve)
    ensures Submitted(config, s, class_, cost, deadline, Refused(reason), t)
  {
    hide AfterEviction, Sum, Fits, AllLess;
  }

  lemma SubmitDone(config: Config, s: Holding, class_: WorkClass, cost: nat, deadline: Option<nat>, m: Holding, t: Holding)
    requires RoomMade(config, s, QueueIndex(class_), cost, m) && RoomFor(config, s, QueueIndex(class_), cost)
    requires s.nextId != USIZE_MAX && s.nextId !in m.live && |m.queues| == CLASS_COUNT
    requires MayUseReserve(class_) || m.accountedCost + cost <= config.capacity - config.reserve
    requires var item, q := WorkItem(s.nextId, class_, cost, deadline), QueueIndex(class_);
             && t.live == m.live[s.nextId := item] && t.queues == m.queues[q := m.queues[q] + [item]]
             && t.inFlight == m.inFlight && t.fate == m.fate && t.nextId == m.nextId + 1
    ensures Submitted(config, s, class_, cost, deadline, Done(s.nextId), t)
  {
    hide AfterEviction, Sum, Fits, AllLess;
    assert t.live - {s.nextId} == m.live;
  }

  /** The outcome of a poll: lapsed work is dropped, then the item that runs next is taken. */
  ghost predicate Polled(config: Config, s: Holding, now: nat, r: Option<WorkItem>, t: Holding) {
    var waiting := AllKept(s.queues, now);
    && (r.None? <==> |s.inFlight| >= config.maxInFlight || forall k :: 0 <= k < |waiting| ==> waiting[k] == [])
    && (if r.None? then t.queues == waiting && t.inFlight == s.inFlight
        else Taken(waiting, now, r.value, t.queues) && t.inFlight == s.inFlight[r.value.id := r.value])
  }

  /** Work in flight joins the rear of its class's queue. */
  function Rear(queues: seq<Queue>, inFlight: Work, id: WorkId): (r: seq<Queue>)
    requires |queues| == CLASS_COUNT
    ensures |r| == CLASS_COUNT
  {
    if id !in inFlight then queues
    else
      var q := QueueIndex(inFlight[id].class_);
      queues[q := queues[q] + [inFlight[id]]]
  }

  /** The outcome of a cancellation: queued work, and only that, leaves its queue. */
  ghost predicate Withdrawn(s: Holding, id: WorkId, r: Outcome<WorkItem>, t: Holding) {
    && (r.Done? <==> id in s.live && id !in s.inFlight)
    && t.inFlight == s.inFlight
    && (if r.Done? then
          && id in s.live && r.value == s.live[id] && t.live == s.live - {id} && t.queues == AllLess(s.queues, {id})
          && t.fate == s.fate.(cancelled := s.fate.cancelled + {id})
        else r.reason == UnknownWork && t == s)
  }

  /** The work does not fit beside what is there, and the policy makes room for it. */
  predicate Overloaded(config: Config, queued: nat, accounted: nat, cost: nat) {
    && 0 < cost <= config.capacity && queued < config.maxQueue
    && config.capacity < accounted + cost <= USIZE_MAX && config.policy == TerminateLargest
  }

  /** What admission does to the work that was there: one eviction for the missing cost when
      overloaded, otherwise nothing. */
  ghost predicate AfterEviction(config: Config, before: Work, was: Fate, after: Work, fate: Fate, queued: nat, accounted: nat, cost: nat) {
    if Overloaded(config, queued, accounted, cost) then
      var needed := accounted + cost - config.capacity;
      Eviction(before, was, after, fate, needed, Sum(before, Evictable(before)) >= needed)
    else after == before && fate == was
  }

  /** There is room in the queue, and within the capacity room for the cost or for making it. */
  ghost predicate Fits(config: Config, before: Work, queued: nat, accounted: nat, cost: nat) {
    && 0 < cost <= config.capacity && queued < config.maxQueue && accounted + cost <= USIZE_MAX
    && (|| accounted + cost <= config.capacity
        || (config.policy == TerminateLargest && Sum(before, Evictable(before)) >= accounted + cost - config.capacity))
  }

  lemma CostIsSum(config: Config, live: Work, accounted: nat)
    requires Costed(config, live, accounted)
    ensures accounted == Sum(live, live.Keys)
  {
  }

  /** Some of the work has expired: what is left is what was there. */
  ghost predicate Expired(before: Work, after: Work, gone: set<WorkId>, now: nat) {
    && gone <= before.Keys && after == before - gone
    && forall id :: id in gone ==> Lapsed(before[id], now)
  }

  lemma NothingExpired(live: Work, fate: Fate, now: nat)
    ensures Expired(live, live, {}, now) && fate == fate.(expired := fate.expired + {})
  {
    assert live - {} == live;
    assert fate.expired + {} == fate.expired;
  }

  lemma ExpiredOne(before: Work, live: Work, was: Fate, gone: set<WorkId>, now: nat, item: WorkItem)
    requires Expired(before, live, gone, now) && item.id in live && live[item.id] == item && Lapsed(item, now)
    ensures Expired(before, live - {item.id}, gone + {item.id}, now)
    ensures was.expired + (gone + {item.id}) == was.expired + gone + {item.id}
  {
    assert live - {item.id} == before - (gone + {item.id});
  }

  /** When no queue holds lapsed work, exactly the lapsed queued work is gone. */
  lemma ExpiredAll(queues: seq<Queue>, inFlight: Work, live: Work, before: Work, gone: set<WorkId>, now: nat)
    requires Placed(queues, inFlight, live) && Expired(before, live, gone, now) && gone !! inFlight.Keys
    requires forall k, i :: 0 <= k < CLASS_COUNT && 0 <= i < |queues[k]| ==> !Lapsed(queues[k][i], now)
    ensures live.Keys <= before.Keys && forall id :: id in live ==> live[id] == before[id]
    ensures forall id :: id in before && id !in inFlight ==> (id in live <==> !Lapsed(before[id], now))
    ensures before.Keys - live.Keys == gone && inFlight.Keys <= live.Keys
  {
    hide Lapsed;
    forall id | id in live && id !in inFlight ensures !Lapsed(live[id], now) {
      PlacedHas(queues, inFlight, live, id);
      var c := live[id].class_;
      PlacedQueue(queues, inFlight, live, c);
      var i :| 0 <= i < |queues[QueueIndex(c)]| && queues[QueueIndex(c)][i].id == id;
    }
  }

  lemma SkippedQueue(queues: seq<Queue>, q: nat, id: WorkId)
    requires q < |queues| == CLASS_COUNT && !Has(queues[q], id) && forall c :: QueueIndex(c) < q ==> !Has(queues[QueueIndex(c)], id)
    ensures forall c :: QueueIndex(c) < q + 1 ==> !Has(queues[QueueIndex(c)], id)
  {
  }

  lemma NotQueued(queues: seq<Queue>, inFlight: Work, live: Work, id: WorkId)
    requires Placed(queues, inFlight, live) && forall c :: QueueIndex(c) < CLASS_COUNT ==> !Has(queues[QueueIndex(c)], id)
    ensures !(id in live && id !in inFlight)
  {
  }

  lemma KeptStart(q: Queue, now: nat)
    ensures Kept(q[..0], now) == [] && [] + q[0..] == q
  {
  }

  lemma FreshQueues(before: seq<Queue>, queues: seq<Queue>, now: nat)
    requires |before| == |queues| == CLASS_COUNT && forall k :: 0 <= k < CLASS_COUNT ==> queues[k] == Kept(before[k], now)
    ensures queues == AllKept(before, now)
    ensures forall k, i :: 0 <= k < CLASS_COUNT && 0 <= i < |queues[k]| ==> !Lapsed(queues[k][i], now)
  {
    hide Kept, Lapsed;
    forall k, i | 0 <= k < CLASS_COUNT && 0 <= i < |queues[k]| ensures !Lapsed(queues[k][i], now) {
      KeptFresh(before[k], now, i);
    }
  }

  lemma WithoutFront(q: Queue, n: nat)
    requires n < |q|
    ensures |Without(q, n)| == |q| - 1 && forall i :: 0 <= i < n ==> Without(q, n)[i] == q[i]
  {
  }

  lemma EmptyQueues(queues: seq<Queue>, inFlight: Work, live: Work)
    requires Placed(queues, inFlight, live) && forall k :: 0 <= k < CLASS_COUNT ==> queues[k] == []
    ensures live.Keys == inFlight.Keys
  {
    forall id | id in live ensures id in inFlight {
      if id !in inFlight {
        PlacedHas(queues, inFlight, live, id);
        assert false;
      }
    }
  }
}
