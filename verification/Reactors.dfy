/** The reactor: a governor and a fixed set of worker slots. */
module Reactors {
  import opened Common
  import opened WorkItems
  import opened Governor

  const MAX_WORKERS: nat := 0xFFFF

  /** A slot holds the item a worker runs and when it was dispatched. */
  type Slots = seq<Option<(WorkItem, nat)>>

  function BusyIds(workers: Slots): set<WorkId> {
    set i | 0 <= i < |workers| && workers[i].Some? :: workers[i].value.0.id
  }

  /** No item occupies two workers. */
  predicate OneWorkerEach(workers: Slots) {
    forall i, j :: 0 <= i < j < |workers| && workers[i].Some? && workers[j].Some? ==> workers[i].value.0.id != workers[j].value.0.id
  }

  /** Slots and flight agree: what is in flight has a worker, and a worker without work in
      flight holds work that was terminated under it. */
  ghost predicate Agree(workers: Slots, inFlight: Work, fate: Fate, policy: Policy) {
    && OneWorkerEach(workers)
    && (forall i :: 0 <= i < |workers| && workers[i].Some? ==>
          var item := workers[i].value.0;
          if item.id in inFlight then inFlight[item.id] == item else policy == TerminateLargest && item.id in fate.terminated)
    && inFlight.Keys <= BusyIds(workers)
  }

  lemma AgreeAssign(workers: Slots, inFlight: Work, fate: Fate, policy: Policy, w: nat, item: WorkItem, now: nat)
    requires Agree(workers, inFlight, fate, policy) && w < |workers| && workers[w].None?
    requires item.id !in inFlight && item.id !in fate.terminated
    ensures Agree(workers[w := Some((item, now))], inFlight[item.id := item], fate, policy)
  {
    var after := workers[w := Some((item, now))];
    forall id | id in inFlight[item.id := item] ensures id in BusyIds(after) {
      if id == item.id {
        assert after[w].value.0.id == id;
      } else {
        var i :| 0 <= i < |workers| && workers[i].Some? && workers[i].value.0.id == id;
        assert after[i] == workers[i];
      }
    }
  }

  lemma AgreeRelease(workers: Slots, inFlight: Work, fate: Fate, policy: Policy, w: nat)
    requires Agree(workers, inFlight, fate, policy) && w < |workers| && workers[w].Some?
    ensures Agree(workers[w := None], inFlight - {workers[w].value.0.id}, fate, policy)
  {
    var after := workers[w := None];
    forall id | id in inFlight - {workers[w].value.0.id} ensures id in BusyIds(after) {
      var i :| 0 <= i < |workers| && workers[i].Some? && workers[i].value.0.id == id;
      assert after[i] == workers[i];
    }
  }

  /** Terminating work in flight leaves its worker holding it. */
  lemma AgreeTerminated(workers: Slots, inFlight: Work, fate: Fate, after: Work, fate': Fate, policy: Policy)
    requires Agree(workers, inFlight, fate, policy)
    requires after.Keys <= inFlight.Keys && forall id :: id in after ==> after[id] == inFlight[id]
    requires fate.terminated <= fate'.terminated && forall id :: id in inFlight && id !in after ==> id in fate'.terminated
    requires policy == Reject ==> after == inFlight
    ensures Agree(workers, after, fate', policy)
  {
  }

  lemma AgreeFate(workers: Slots, inFlight: Work, fate: Fate, fate': Fate, policy: Policy)
    requires Agree(workers, inFlight, fate, policy) && fate'.terminated == fate.terminated
    ensures Agree(workers, inFlight, fate', policy)
  {
  }

  /** Under the rejecting policy the busy workers run exactly the work in flight. */
  lemma RejectIsExact(workers: Slots, inFlight: Work, fate: Fate)
    requires Agree(workers, inFlight, fate, Reject)
    ensures BusyIds(workers) == inFlight.Keys
  {
  }

  predicate HasIdle(workers: Slots) {
    exists i :: 0 <= i < |workers| && workers[i].None?
  }

  /** Each item dispatched was the one to run next when it was taken. */
  ghost predicate TakenInOrder(waiting: seq<Queue>, now: nat, dispatched: seq<(nat, WorkItem)>, after: seq<Queue>)
    decreases |dispatched|
  {
    if dispatched == [] then after == waiting
    else
      var n := |dispatched| - 1;
      exists between :: TakenInOrder(waiting, now, dispatched[..n], between) && Taken(between, now, dispatched[n].1, after)
  }

  lemma TakenNone(waiting: seq<Queue>, now: nat)
    ensures TakenInOrder(waiting, now, [], waiting)
  {
  }

  lemma TakenMore(waiting: seq<Queue>, now: nat, dispatched: seq<(nat, WorkItem)>, between: seq<Queue>, next: (nat, WorkItem), after: seq<Queue>)
    requires TakenInOrder(waiting, now, dispatched, between) && Taken(between, now, next.1, after)
    ensures TakenInOrder(waiting, now, dispatched + [next], after)
  {
    hide Taken;
    assert (dispatched + [next])[..|dispatched|] == dispatched;
  }

  /** Nothing lapsed is left once lapsed work has been dropped and an item taken. */
  lemma TakenFresh(queues: seq<Queue>, now: nat, item: WorkItem, after: seq<Queue>)
    requires Taken(AllKept(queues, now), now, item, after)
    ensures AllKept(after, now) == after
  {
    hide Kept, Lapsed, IsUrgent, Sooner;
    var waiting := AllKept(queues, now);
    var p :| RunsNext(waiting, now, p) && ItemAt(waiting, p) == item && after == waiting[p.queue := Without(waiting[p.queue], p.index)];
    NextIsPlace(waiting, now, p);
    forall k | 0 <= k < |after| ensures Kept(after[k], now) == after[k] {
      forall i | 0 <= i < |after[k]| ensures !Lapsed(after[k][i], now) {
        KeptFresh(queues[k], now, if k == p.queue && i >= p.index then i + 1 else i);
      }
      KeptAll(after[k], now);
    }
  }

  lemma SubmittedFlight(config: Config, s: Holding, class_: WorkClass, cost: nat, deadline: Option<nat>, r: Outcome<WorkId>, t: Holding)
    requires Submitted(config, s, class_, cost, deadline, r, t)
    ensures t.inFlight.Keys <= s.inFlight.Keys && forall id :: id in t.inFlight ==> t.inFlight[id] == s.inFlight[id]
  {
    hide AfterEviction, Fits, Sum, AllLess;
  }

  /** Idle slots that have been filled, from the first on; the others are as they were. */
  predicate Assigned(before: Slots, after: Slots, dispatched: seq<(nat, WorkItem)>, now: nat) {
    && |after| == |before|
    && (forall n :: 0 <= n < |dispatched| ==>
          dispatched[n].0 < |before| && before[dispatched[n].0].None? && after[dispatched[n].0] == Some((dispatched[n].1, now)))
    && (forall m, n :: 0 <= m < n < |dispatched| ==> dispatched[m].0 < dispatched[n].0)
    && (forall i :: 0 <= i < |before| && (forall n :: 0 <= n < |dispatched| ==> dispatched[n].0 != i) ==> after[i] == before[i])
    && (forall i :: 0 <= i < |before| && dispatched != [] && i <= dispatched[|dispatched| - 1].0 ==> after[i].Some?)
  }

  lemma AssignedNone(workers: Slots, now: nat)
    ensures Assigned(workers, workers, [], now)
  {
  }

  lemma AssignedOne(before: Slots, workers: Slots, dispatched: seq<(nat, WorkItem)>, now: nat, w: nat, item: WorkItem)
    requires Assigned(before, workers, dispatched, now) && w < |workers| && workers[w].None? && forall i :: 0 <= i < w ==> workers[i].Some?
    ensures Assigned(before, workers[w := Some((item, now))], dispatched + [(w, item)], now)
  {
    var after, more := workers[w := Some((item, now))], dispatched + [(w, item)];
    assert dispatched != [] ==> dispatched[|dispatched| - 1].0 < w;
    assert forall n :: 0 <= n < |dispatched| ==> more[n] == dispatched[n] && dispatched[n].0 < w;
    forall i | 0 <= i < |before| && forall n :: 0 <= n < |more| ==> more[n].0 != i ensures after[i] == before[i] {
      assert more[|dispatched|].0 == w;
      assert forall n :: 0 <= n < |dispatched| ==> dispatched[n].0 == more[n].0;
    }
  }

  /** As many dispatches as slots leave none idle. */
  lemma AssignedAll(before: Slots, after: Slots, dispatched: seq<(nat, WorkItem)>, now: nat)
    requires Assigned(before, after, dispatched, now) && |dispatched| == |after|
    ensures forall i :: 0 <= i < |after| ==> after[i].Some?
  {
    forall n | 0 <= n < |dispatched| ensures dispatched[n].0 >= n {
      Climbs(dispatched, n);
    }
  }

  lemma {:induction false} Climbs(dispatched: seq<(nat, WorkItem)>, n: nat)
    requires n < |dispatched| && forall i, j :: 0 <= i < j < |dispatched| ==> dispatched[i].0 < dispatched[j].0
    ensures dispatched[n].0 >= n
  {
    if n > 0 {
      Climbs(dispatched, n - 1);
    }
  }

  // ---- demotion ------------------------------------------------------------

  predicate Overdue(slot: Option<(WorkItem, nat)>, now: nat, threshold: nat) {
    && slot.Some? && Terminable(slot.value.0.class_)
    && (if now < slot.value.1 then 0 else now - slot.value.1) > threshold
  }

  /** The slots after demotion. */
  function Spared(workers: Slots, now: nat, threshold: nat): (r: Slots)
    ensures |r| == |workers|
    ensures forall i :: 0 <= i < |workers| ==> r[i] == if Overdue(workers[i], now, threshold) then None else workers[i]
  {
    seq(|workers|, i requires 0 <= i < |workers| => if Overdue(workers[i], now, threshold) then None else workers[i])
  }

  /** What is demoted, slot by slot. */
  function Demoted(workers: Slots, now: nat, threshold: nat, n: nat): seq<(nat, WorkItem)>
    requires n <= |workers|
  {
    if n == 0 then []
    else Demoted(workers, now, threshold, n - 1)
         + if Overdue(workers[n - 1], now, threshold) then [(n - 1, workers[n - 1].value.0)] else []
  }

  function DemotedIds(workers: Slots, now: nat, threshold: nat, n: nat): set<WorkId>
    requires n <= |workers|
  {
    set i | 0 <= i < n && Overdue(workers[i], now, threshold) :: workers[i].value.0.id
  }

  lemma DemotedMore(workers: Slots, now: nat, threshold: nat, n: nat, inFlight: Work)
    requires n < |workers|
    ensures inFlight - DemotedIds(workers, now, threshold, n + 1)
            == if Overdue(workers[n], now, threshold) then inFlight - DemotedIds(workers, now, threshold, n) - {workers[n].value.0.id}
               else inFlight - DemotedIds(workers, now, threshold, n)
  {
    var ids, more := DemotedIds(workers, now, threshold, n), DemotedIds(workers, now, threshold, n + 1);
    if Overdue(workers[n], now, threshold) {
      assert more == ids + {workers[n].value.0.id};
    } else {
      assert more == ids;
    }
  }

  /** The queues after the demoted items of the first slots have joined their rears. */
  function Returned(queues: seq<Queue>, inFlight: Work, workers: Slots, now: nat, threshold: nat, n: nat): (r: seq<Queue>)
    requires n <= |workers| && |queues| == CLASS_COUNT
    ensures |r| == CLASS_COUNT
  {
    if n == 0 then queues
    else
      var before := Returned(queues, inFlight, workers, now, threshold, n - 1);
      if Overdue(workers[n - 1], now, threshold) then
        Rear(before, inFlight - DemotedIds(workers, now, threshold, n - 1), workers[n - 1].value.0.id)
      else before
  }

  lemma FiveQueues(governor: ResourceGovernor)
    requires governor.Valid()
    ensures |governor.queues| == CLASS_COUNT
  {
  }

  lemma NoneDemoted(workers: Slots, now: nat, threshold: nat, inFlight: Work)
    ensures inFlight - DemotedIds(workers, now, threshold, 0) == inFlight
  {
  }

  lemma SlotBusy(slot: Option<(WorkItem, nat)>, now: nat, threshold: nat)
    requires Overdue(slot, now, threshold)
    ensures slot.Some?
  {
  }

  class Reactor {
    const governor: ResourceGovernor
    const demotionAfter: Option<nat>
    var workers: Slots

    ghost predicate Valid()
      reads this, governor
    {
      && governor.Valid()
      && 0 < |workers| <= MAX_WORKERS
      && Agree(workers, governor.inFlight, governor.fate, governor.config.policy)
    }

    constructor (config: Config, workerCount: nat, demotionAfter: Option<nat>)
      requires CheckConfig(config).None? && 0 < workerCount <= MAX_WORKERS
      ensures Valid() && fresh(governor) && |workers| == workerCount && BusyIds(workers) == {} && governor.live == map[]
    {
      governor := new ResourceGovernor(config);
      this.demotionAfter := demotionAfter;
      workers := seq(workerCount, _ => None);
    }

    method Submit(class_: WorkClass, cost: nat, deadline: Option<nat>) returns (r: Outcome<WorkId>)
      requires Valid()
      modifies governor
      ensures Valid() && workers == old(workers)
      ensures Submitted(governor.config, old(governor.Holds()), class_, cost, deadline, r, governor.Holds())
    {
      hide Agree, ResourceGovernor.Valid, Submitted;
      ghost var start := governor.Holds();
      r := governor.Submit(class_, cost, deadline);
      SubmittedFlight(governor.config, start, class_, cost, deadline, r, governor.Holds());
      AgreeTerminated(workers, start.inFlight, start.fate, governor.inFlight, governor.fate, governor.config.policy);
    }

    /** No worker is idle, or the governor has nothing more to run now. */
    ghost predicate Exhausted()
      reads this, governor
    {
      || (forall i :: 0 <= i < |workers| ==> workers[i].Some?)
      || |governor.inFlight| == governor.config.maxInFlight
      || governor.live.Keys == governor.inFlight.Keys
    }

    /** Give the next item to the first idle worker. */
    method Dispatch(now: nat) returns (r: Option<(nat, WorkItem)>)
      requires Valid()
      modifies this`workers, governor
      ensures Valid() && |workers| == |old(workers)|
      ensures HasIdle(old(workers)) ==>
                Polled(governor.config, old(governor.Holds()), now, if r.None? then None else Some(r.value.1), governor.Holds())
      ensures !HasIdle(old(workers)) ==> r.None? && governor.Holds() == old(governor.Holds())
      ensures r.None? ==> workers == old(workers) && governor.inFlight == old(governor.inFlight) && Exhausted()
      ensures r.Some? ==>
                && r.value.0 < |workers| && old(workers)[r.value.0].None? && (forall i :: 0 <= i < r.value.0 ==> old(workers)[i].Some?)
                && workers == old(workers)[r.value.0 := Some((r.value.1, now))]
                && governor.inFlight == old(governor.inFlight)[r.value.1.id := r.value.1]
                && r.value.1.id !in BusyIds(old(workers))
    {
      hide Agree, Placed, Accounted, Costed, BusyIds, OneWorkerEach, Taken, AllKept;
      var w := 0;
      while w < |workers| && workers[w].Some?
        invariant w <= |workers| && forall i :: 0 <= i < w ==> workers[i].Some?
      {
        w := w + 1;
      }
      if w == |workers| {
        return None;
      }
      var work := governor.Poll(now);
      AgreeFate(workers, old(governor.inFlight), old(governor.fate), governor.fate, governor.config.policy);
      if work.None? {
        return None;
      }
      NotTerminated(old(governor.live), old(governor.fate), old(governor.nextId), governor.fate, work.value.id);
      NotBusy(workers, old(governor.inFlight), governor.fate, governor.config.policy, work.value.id);
      AgreeAssign(workers, old(governor.inFlight), governor.fate, governor.config.policy, w, work.value, now);
      workers := workers[w := Some((work.value, now))];
      r := Some((w, work.value));
    }

    /** Dispatch until no worker is idle or nothing is left to run. */
    method DispatchBatch(now: nat) returns (dispatched: seq<(nat, WorkItem)>)
      requires Valid()
      modifies this`workers, governor
      ensures Valid() && |workers| == |old(workers)| && |dispatched| <= |workers| && Exhausted()
      ensures Assigned(old(workers), workers, dispatched, now)
      ensures if HasIdle(old(workers)) then TakenInOrder(AllKept(old(governor.queues), now), now, dispatched, governor.queues)
              else dispatched == [] && governor.Holds() == old(governor.Holds())
    {
      hide BusyIds, Agree, ResourceGovernor.Valid, Taken, AllKept, HasIdle, TakenInOrder;
      dispatched := [];
      var n := 0;
      AssignedNone(workers, now);
      TakenNone(AllKept(governor.queues, now), now);
      while n < |workers|
        invariant Valid() && |workers| == |old(workers)| && n <= |workers| && |dispatched| == n
        invariant Assigned(old(workers), workers, dispatched, now)
        invariant TakenInOrder(AllKept(old(governor.queues), now), now, dispatched, AllKept(governor.queues, now))
        invariant if n == 0 then workers == old(workers) && governor.Holds() == old(governor.Holds())
                  else HasIdle(old(workers)) && governor.queues == AllKept(governor.queues, now)
      {
        ghost var before, queues := workers, governor.queues;
        var next := Dispatch(now);
        if next.None? {
          return;
        }
        AssignedOne(old(workers), before, dispatched, now, next.value.0, next.value.1);
        TakenFresh(queues, now, next.value.1, governor.queues);
        TakenMore(AllKept(old(governor.queues), now), now, dispatched, AllKept(queues, now), next.value, governor.queues);
        dispatched := dispatched + [next.value];
        n := n + 1;
      }
      AssignedAll(old(workers), workers, dispatched, now);
    }

    /** A worker is done. Its slot is free even if its work was terminated meanwhile. */
    method Complete(w: nat) returns (r: Outcome<WorkItem>)
      requires Valid()
      modifies this`workers, governor
      ensures Valid()
      ensures w < |old(workers)| && old(workers)[w].Some? ==> workers == old(workers)[w := None]
      ensures r.Done? <==> w < |old(workers)| && old(workers)[w].Some? && old(workers)[w].value.0.id in old(governor.inFlight)
      ensures r.Done? ==> r.value == old(workers)[w].value.0 && governor.inFlight == old(governor.inFlight) - {r.value.id}
      ensures r.Refused? ==> governor.inFlight == old(governor.inFlight)
    {
      hide Agree, Placed, Accounted, Costed;
      if w >= |workers| || workers[w].None? {
        return Refused(UnknownWork);
      }
      var work := workers[w].value.0;
      AgreeItem(workers, governor.inFlight, governor.fate, governor.config.policy, w);
      AgreeRelease(workers, governor.inFlight, governor.fate, governor.config.policy, w);
      WithoutStranger(governor.inFlight, work.id);
      workers := workers[w := None];
      r := governor.Complete(work.id);
      AgreeFate(workers, governor.inFlight, old(governor.fate), governor.fate, governor.config.policy);
    }

    /** Put work that has run too long back into its queue and free its worker. */
    method PreemptLongRunning(now: nat) returns (preempted: seq<(nat, WorkItem)>)
      requires Valid()
      modifies this`workers, governor
      ensures Valid() && governor.live == old(governor.live)
      ensures demotionAfter.None? ==> workers == old(workers) && preempted == [] && governor.Holds() == old(governor.Holds())
      ensures demotionAfter.Some? ==>
                && workers == Spared(old(workers), now, demotionAfter.value)
                && preempted == Demoted(old(workers), now, demotionAfter.value, |workers|)
                && governor.inFlight == old(governor.inFlight) - DemotedIds(old(workers), now, demotionAfter.value, |workers|)
                && |old(governor.queues)| == CLASS_COUNT
                && governor.queues == Returned(old(governor.queues), old(governor.inFlight), old(workers), now, demotionAfter.value, |workers|)
    {
      hide Agree, ResourceGovernor.Valid, DemotedIds, Overdue, Rear;
      preempted := [];
      if demotionAfter.None? {
        return;
      }
      var w, threshold := 0, demotionAfter.value;
      NoneDemoted(workers, now, threshold, governor.inFlight);
      assert |governor.queues| == CLASS_COUNT by {
        FiveQueues(governor);
      }
      while w < |workers|
        invariant Valid() && |workers| == |old(workers)| && w <= |workers| && governor.live == old(governor.live)
        invariant forall i :: 0 <= i < |workers| ==>
                    workers[i] == if i < w && Overdue(old(workers)[i], now, threshold) then None else old(workers)[i]
        invariant preempted == Demoted(old(workers), now, threshold, w)
        invariant governor.inFlight == old(governor.inFlight) - DemotedIds(old(workers), now, threshold, w)
        invariant governor.queues == Returned(old(governor.queues), old(governor.inFlight), old(workers), now, threshold, w)
      {
        DemotedMore(old(workers), now, threshold, w, old(governor.inFlight));
        if Overdue(workers[w], now, threshold) {
          SlotBusy(workers[w], now, threshold);
          var work := PreemptOne(w);
          preempted := preempted + [(w, work)];
        }
        w := w + 1;
      }
    }

    /** Free a worker and return its item to its queue, if it is still in flight. */
    method PreemptOne(w: nat) returns (work: WorkItem)
      requires Valid() && w < |workers| && workers[w].Some?
      modifies this`workers, governor`queues, governor`inFlight
      ensures Valid() && work == old(workers)[w].value.0 && workers == old(workers)[w := None]
      ensures governor.inFlight == old(governor.inFlight) - {work.id}
      ensures |old(governor.queues)| == CLASS_COUNT && governor.queues == Rear(old(governor.queues), old(governor.inFlight), work.id)
    {
      hide Agree, Placed, Accounted, Costed;
      work := workers[w].value.0;
      AgreeRelease(workers, governor.inFlight, governor.fate, governor.config.policy, w);
      workers := workers[w := None];
      governor.Requeue(work.id);
    }

    method CancelQueued(id: WorkId) returns (r: Outcome<WorkItem>)
      requires Valid()
      modifies governor
      ensures Valid() && workers == old(workers) && Withdrawn(old(governor.Holds()), id, r, governor.Holds())
    {
      hide Agree, Placed, Accounted, Costed, AllLess;
      r := governor.CancelQueued(id);
      AgreeFate(workers, governor.inFlight, old(governor.fate), governor.fate, governor.config.policy);
    }
  }

  lemma AgreeItem(workers: Slots, inFlight: Work, fate: Fate, policy: Policy, w: nat)
    requires Agree(workers, inFlight, fate, policy) && w < |workers| && workers[w].Some?
    ensures workers[w].value.0.id in inFlight ==> inFlight[workers[w].value.0.id] == workers[w].value.0
  {
  }

  lemma WithoutStranger(inFlight: Work, id: WorkId)
    ensures id !in inFlight ==> inFlight - {id} == inFlight
  {
  }

  lemma NotTerminated(live: Work, fate: Fate, nextId: nat, fate': Fate, id: WorkId)
    requires Accounted(live, fate, nextId) && id in live && fate'.terminated == fate.terminated
    ensures id !in fate'.terminated
  {
  }

  lemma NotBusy(workers: Slots, inFlight: Work, fate: Fate, policy: Policy, id: WorkId)
    requires Agree(workers, inFlight, fate, policy) && id !in inFlight && id !in fate.terminated
    ensures id !in BusyIds(workers)
  {
  }
}
