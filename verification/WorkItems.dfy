/** Work, its classes and queues, and sums of cost over sets of work. */
module WorkItems {
  import opened Common

  type WorkId = nat

  datatype WorkClass = OlTp | Wal | Reclaim | Schema | Scan

  const CLASS_COUNT := 5

  function QueueIndex(class_: WorkClass): (i: nat)
    ensures i < CLASS_COUNT
  {
    match class_
    case OlTp => 0
    case Wal => 1
    case Reclaim => 2
    case Schema => 3
    case Scan => 4
  }

  function ClassAt(i: nat): (c: WorkClass)
    requires i < CLASS_COUNT
    ensures QueueIndex(c) == i
  {
    match i
    case 0 => OlTp
    case 1 => Wal
    case 2 => Reclaim
    case 3 => Schema
    case _ => Scan
  }

  /** Work that carries durability is never terminated and never demoted. */
  predicate Terminable(class_: WorkClass) {
    class_ != OlTp && class_ != Wal
  }

  predicate MayUseReserve(class_: WorkClass) {
    class_ == OlTp || class_ == Wal || class_ == Reclaim
  }

  datatype WorkItem = WorkItem(id: WorkId, class_: WorkClass, cost: nat, deadline: Option<nat>)

  type Work = map<WorkId, WorkItem>
  type Queue = seq<WorkItem>

  // ---- sums ----------------------------------------------------------------

  ghost function Sum(work: Work, ids: set<WorkId>): nat
    requires ids <= work.Keys
    decreases |ids|
  {
    if ids == {} then 0
    else
      var x :| x in ids;
      work[x].cost + Sum(work, ids - {x})
  }

  lemma SumNothing(work: Work)
    ensures Sum(work, {}) == 0
  {
  }

  lemma {:induction false} SumRemove(work: Work, ids: set<WorkId>, x: WorkId)
    requires ids <= work.Keys && x in ids
    ensures Sum(work, ids) == work[x].cost + Sum(work, ids - {x})
    decreases |ids|
  {
    var y :| y in ids && Sum(work, ids) == work[y].cost + Sum(work, ids - {y});
    if y != x {
      SumRemove(work, ids - {y}, x);
      SumRemove(work, ids - {x}, y);
      assert ids - {y} - {x} == ids - {x} - {y};
    }
  }

  lemma SumAdd(work: Work, ids: set<WorkId>, x: WorkId)
    requires ids <= work.Keys && x in work && x !in ids
    ensures Sum(work, ids + {x}) == work[x].cost + Sum(work, ids)
  {
    SumRemove(work, ids + {x}, x);
    assert ids + {x} - {x} == ids;
  }

  /** Sums depend only on the items summed. */
  lemma {:induction false} SumSame(a: Work, b: Work, ids: set<WorkId>)
    requires ids <= a.Keys && ids <= b.Keys && forall x :: x in ids ==> a[x].cost == b[x].cost
    ensures Sum(a, ids) == Sum(b, ids)
    decreases |ids|
  {
    if ids != {} {
      var x :| x in ids;
      SumSame(a, b, ids - {x});
      SumRemove(a, ids, x);
      SumRemove(b, ids, x);
    }
  }

  lemma {:induction false} SumMonotone(work: Work, some: set<WorkId>, all: set<WorkId>)
    requires some <= all <= work.Keys
    ensures Sum(work, some) <= Sum(work, all)
    decreases |all|
  {
    if some != all {
      assert !(all <= some);
      var x :| x in all && x !in some;
      SumRemove(work, all, x);
      SumMonotone(work, some, all - {x});
    }
  }

  // ---- the largest first ---------------------------------------------------

  /** Each victim costs at least as much as any candidate that was left when it was taken. */
  ghost predicate LargestFirst(work: Work, candidates: set<WorkId>, victims: seq<WorkId>)
    requires candidates <= work.Keys
  {
    && (forall i :: 0 <= i < |victims| ==> victims[i] in candidates)
    && (forall i, j :: 0 <= i < j < |victims| ==> victims[i] != victims[j])
    && (forall i, x :: 0 <= i < |victims| && x in candidates && x !in victims[..i] ==> work[x].cost <= work[victims[i]].cost)
  }

  function Members(victims: seq<WorkId>): set<WorkId> {
    set x | x in victims
  }

  lemma {:induction false} MembersCount(victims: seq<WorkId>)
    requires forall i, j :: 0 <= i < j < |victims| ==> victims[i] != victims[j]
    ensures |Members(victims)| == |victims|
  {
    if victims != [] {
      var init := victims[..|victims| - 1];
      MembersCount(init);
      assert Members(victims) == Members(init) + {victims[|victims| - 1]};
    }
  }

  lemma LargestFirstPrefix(work: Work, candidates: set<WorkId>, victims: seq<WorkId>, n: nat)
    requires candidates <= work.Keys && LargestFirst(work, candidates, victims) && n <= |victims|
    ensures LargestFirst(work, candidates, victims[..n])
  {
    forall i, x | 0 <= i < n && x in candidates && x !in victims[..n][..i] ensures work[x].cost <= work[victims[..n][i]].cost {
      assert victims[..n][..i] == victims[..i];
    }
  }

  /** No set of as many candidates costs more than the victims taken largest first. */
  lemma {:induction false} LargestFirstIsMost(work: Work, candidates: set<WorkId>, victims: seq<WorkId>, chosen: set<WorkId>)
    requires candidates <= work.Keys && LargestFirst(work, candidates, victims) && chosen <= candidates && |chosen| <= |victims|
    ensures Sum(work, chosen) <= Sum(work, Members(victims))
    decreases |victims|
  {
    hide LargestFirst, Sum, Members, Extra;
    if victims == [] {
      assert chosen == {};
      SumNothing(work);
    } else {
      var n := |victims| - 1;
      var init, last := victims[..n], victims[n];
      LargestFirstPrefix(work, candidates, victims, n);
      LargestFirstLast(work, candidates, victims);
      SumAdd(work, Members(init), last);
      if |chosen| <= n {
        LargestFirstIsMost(work, candidates, init, chosen);
      } else {
        var out := if last in chosen then last else Extra(init, chosen);
        SumRemove(work, chosen, out);
        LargestFirstIsMost(work, candidates, init, chosen - {out});
      }
    }
  }

  lemma LargestFirstLast(work: Work, candidates: set<WorkId>, victims: seq<WorkId>)
    requires candidates <= work.Keys && LargestFirst(work, candidates, victims) && victims != []
    ensures var init, last := victims[..|victims| - 1], victims[|victims| - 1];
            && last in candidates && last !in init && last !in Members(init) && Members(victims) == Members(init) + {last}
            && Members(init) <= candidates
            && (forall i, j :: 0 <= i < j < |init| ==> init[i] != init[j])
            && (forall x :: x in candidates && x !in init ==> work[x].cost <= work[last].cost)
  {
    var init, last := victims[..|victims| - 1], victims[|victims| - 1];
    assert victims == init + [last];
  }

  /** A larger set has a member the sequence lacks. */
  ghost function Extra(victims: seq<WorkId>, chosen: set<WorkId>): (x: WorkId)
    requires |chosen| > |victims| && forall i, j :: 0 <= i < j < |victims| ==> victims[i] != victims[j]
    ensures x in chosen && x !in victims
  {
    MembersCount(victims);
    assert exists x :: x in chosen && x !in Members(victims) by {
      if chosen <= Members(victims) {
        SubsetSize(chosen, Members(victims));
      }
    }
    var x :| x in chosen && x !in Members(victims);
    x
  }

  lemma {:induction false} SubsetSize(a: set<WorkId>, b: set<WorkId>)
    requires a <= b
    ensures |a| <= |b|
    decreases |a|
  {
    if a != {} {
      var x :| x in a;
      SubsetSize(a - {x}, b - {x});
    }
  }

  /** Stopping as soon as enough is freed, no fewer candidates could have freed enough. */
  lemma FewestVictims(work: Work, candidates: set<WorkId>, victims: seq<WorkId>, needed: nat, chosen: set<WorkId>)
    requires candidates <= work.Keys && LargestFirst(work, candidates, victims) && chosen <= candidates
    requires victims != [] && Sum(work, Members(victims[..|victims| - 1])) < needed
    requires Sum(work, chosen) >= needed
    ensures |chosen| >= |victims|
  {
    if |chosen| < |victims| {
      var init := victims[..|victims| - 1];
      LargestFirstPrefix(work, candidates, victims, |victims| - 1);
      LargestFirstIsMost(work, candidates, init, chosen);
      assert false;
    }
  }

  // ---- queues --------------------------------------------------------------

  predicate DistinctIds(q: Queue) {
    forall i, j :: 0 <= i < j < |q| ==> q[i].id != q[j].id
  }

  predicate Has(q: Queue, id: WorkId) {
    exists i :: 0 <= i < |q| && q[i].id == id
  }

  function PositionOf(q: Queue, id: WorkId): (p: Option<nat>)
    ensures p.Some? ==> p.value < |q| && q[p.value].id == id
    ensures p.Some? <==> Has(q, id)
  {
    if q == [] then None
    else if q[0].id == id then
      assert q[0].id == id;
      Some(0)
    else
      var p := PositionOf(q[1..], id);
      assert Has(q[1..], id) ==> Has(q, id) by {
        if Has(q[1..], id) {
          var i :| 0 <= i < |q[1..]| && q[1..][i].id == id;
          assert q[i + 1].id == id;
        }
      }
      assert Has(q, id) ==> Has(q[1..], id) by {
        if Has(q, id) {
          var i :| 0 <= i < |q| && q[i].id == id;
          assert q[1..][i - 1].id == id;
        }
      }
      if p.None? then None else Some(p.value + 1)
  }

  function Without(q: Queue, p: nat): Queue
    requires p < |q|
  {
    q[..p] + q[p + 1..]
  }

  lemma WithoutMembers(q: Queue, p: nat)
    requires p < |q| && DistinctIds(q)
    ensures DistinctIds(Without(q, p))
    ensures forall id :: Has(Without(q, p), id) <==> Has(q, id) && id != q[p].id
    ensures forall i :: 0 <= i < |q| - 1 ==> Without(q, p)[i] in q
  {
    var w := Without(q, p);
    assert forall i :: 0 <= i < |w| ==> w[i] == q[if i < p then i else i + 1];
    forall id ensures Has(w, id) <==> Has(q, id) && id != q[p].id {
      if Has(w, id) {
        var i :| 0 <= i < |w| && w[i].id == id;
        assert q[if i < p then i else i + 1].id == id;
      }
      if Has(q, id) && id != q[p].id {
        var i :| 0 <= i < |q| && q[i].id == id;
        assert w[if i < p then i else i - 1].id == id;
      }
    }
  }

  /** A queue without some work, the rest in order. */
  function Less(q: Queue, gone: set<WorkId>): Queue {
    if q == [] then []
    else
      var last := q[|q| - 1];
      Less(q[..|q| - 1], gone) + if last.id in gone then [] else [last]
  }

  function AllLess(queues: seq<Queue>, gone: set<WorkId>): (r: seq<Queue>)
    ensures |r| == |queues| && forall i :: 0 <= i < |r| ==> r[i] == Less(queues[i], gone)
  {
    seq(|queues|, i requires 0 <= i < |queues| => Less(queues[i], gone))
  }

  lemma {:induction false} LessNone(q: Queue, gone: set<WorkId>)
    requires forall i :: 0 <= i < |q| ==> q[i].id !in gone
    ensures Less(q, gone) == q
  {
    if q != [] {
      LessNone(q[..|q| - 1], gone);
    }
  }

  lemma {:induction false} LessSplit(a: Queue, b: Queue, gone: set<WorkId>)
    ensures Less(a + b, gone) == Less(a, gone) + Less(b, gone)
  {
    if b == [] {
      assert a + b == a;
    } else {
      assert (a + b)[..|a + b| - 1] == a + b[..|b| - 1];
      LessSplit(a, b[..|b| - 1], gone);
    }
  }

  lemma LessSingle(item: WorkItem, gone: set<WorkId>)
    ensures Less([item], gone) == if item.id in gone then [] else [item]
  {
    assert [item][..0] == [];
  }

  /** Taking one item out leaves the others in order. */
  lemma LessOne(q: Queue, p: nat)
    requires p < |q| && DistinctIds(q)
    ensures Less(q, {q[p].id}) == Without(q, p)
  {
    hide Less;
    var gone, front, rear := {q[p].id}, q[..p], q[p + 1..];
    assert q == front + [q[p]] + rear;
    LessSplit(front + [q[p]], rear, gone);
    LessSplit(front, [q[p]], gone);
    LessSingle(q[p], gone);
    LessNone(front, gone);
    LessNone(rear, gone);
  }

  lemma {:induction false} LessAgain(q: Queue, a: set<WorkId>, b: set<WorkId>)
    ensures Less(Less(q, a), b) == Less(q, a + b)
  {
    if q != [] {
      var last := q[|q| - 1];
      LessAgain(q[..|q| - 1], a, b);
      LessSplit(Less(q[..|q| - 1], a), if last.id in a then [] else [last], b);
      LessSingle(last, b);
    }
  }

  lemma AllLessAgain(queues: seq<Queue>, a: set<WorkId>, b: set<WorkId>)
    ensures AllLess(AllLess(queues, a), b) == AllLess(queues, a + b)
  {
    forall i | 0 <= i < |queues| ensures Less(Less(queues[i], a), b) == Less(queues[i], a + b) {
      LessAgain(queues[i], a, b);
    }
  }

  lemma AllLessNone(queues: seq<Queue>)
    ensures AllLess(queues, {}) == queues
  {
    forall i | 0 <= i < |queues| ensures Less(queues[i], {}) == queues[i] {
      LessNone(queues[i], {});
    }
  }

  // ---- where work is -------------------------------------------------------

  /** One class's queue holds live work of that class that is not in flight. */
  predicate QueueOk(q: Queue, class_: WorkClass, inFlight: Work, live: Work) {
    && DistinctIds(q)
    && forall i :: 0 <= i < |q| ==>
         q[i].id in live && live[q[i].id] == q[i] && q[i].class_ == class_ && q[i].id !in inFlight
  }

  /** Every live item is in flight or in the queue of its class, and in one of them only. */
  ghost predicate Placed(queues: seq<Queue>, inFlight: Work, live: Work) {
    && |queues| == CLASS_COUNT
    && (forall c :: QueueOk(queues[QueueIndex(c)], c, inFlight, live))
    && (forall id :: id in inFlight ==> id in live && live[id] == inFlight[id])
    && (forall id :: id in live ==> live[id].id == id && (id in inFlight || Has(queues[QueueIndex(live[id].class_)], id)))
  }

  /** A queued item is live, not in flight, and in no other queue. */
  lemma PlacedOnce(queues: seq<Queue>, inFlight: Work, live: Work, id: WorkId, c: WorkClass)
    requires Placed(queues, inFlight, live) && Has(queues[QueueIndex(c)], id)
    ensures id in live && live[id].class_ == c && id !in inFlight
    ensures forall d: WorkClass :: Has(queues[QueueIndex(d)], id) ==> d == c
  {
    assert QueueOk(queues[QueueIndex(c)], c, inFlight, live);
    forall d: WorkClass | Has(queues[QueueIndex(d)], id) ensures d == c {
      assert QueueOk(queues[QueueIndex(d)], d, inFlight, live);
    }
  }

  /** Work in flight is in no queue. */
  lemma NoneQueued(queues: seq<Queue>, inFlight: Work, live: Work, id: WorkId)
    requires Placed(queues, inFlight, live) && id in inFlight
    ensures AllLess(queues, {id}) == queues
  {
    forall k | 0 <= k < CLASS_COUNT ensures Less(queues[k], {id}) == queues[k] {
      assert QueueOk(queues[QueueIndex(ClassAt(k))], ClassAt(k), inFlight, live);
      LessNone(queues[k], {id});
    }
  }

  /** Taking an item out of its queue takes it out of the queues. */
  lemma OneQueued(queues: seq<Queue>, inFlight: Work, live: Work, q: nat, p: nat)
    requires Placed(queues, inFlight, live) && q < CLASS_COUNT && p < |queues[q]|
    ensures queues[q := Without(queues[q], p)] == AllLess(queues, {queues[q][p].id})
  {
    hide Without, Less;
    var id := queues[q][p].id;
    assert QueueOk(queues[QueueIndex(ClassAt(q))], ClassAt(q), inFlight, live);
    forall k | 0 <= k < CLASS_COUNT ensures queues[q := Without(queues[q], p)][k] == Less(queues[k], {id}) {
      assert QueueOk(queues[QueueIndex(ClassAt(k))], ClassAt(k), inFlight, live);
      if k == q {
        LessOne(queues[q], p);
      } else {
        SameIndex(ClassAt(k), ClassAt(q));
        LessNone(queues[k], {id});
      }
    }
  }

  /** A new item at the rear of its queue. */
  lemma PlacedPush(queues: seq<Queue>, inFlight: Work, live: Work, item: WorkItem)
    requires Placed(queues, inFlight, live) && item.id !in live
    ensures var q := QueueIndex(item.class_);
            Placed(queues[q := queues[q] + [item]], inFlight, live[item.id := item])
  {
    var q, live' := QueueIndex(item.class_), live[item.id := item];
    var queues' := queues[q := queues[q] + [item]];
    forall c ensures QueueOk(queues'[QueueIndex(c)], c, inFlight, live') {
      assert QueueOk(queues[QueueIndex(c)], c, inFlight, live);
      SameIndex(c, item.class_);
    }
    forall id | id in live' ensures live'[id].id == id && (id in inFlight || Has(queues'[QueueIndex(live'[id].class_)], id)) {
      if id == item.id {
        assert queues'[q][|queues[q]|].id == id;
      } else if id !in inFlight {
        var i :| 0 <= i < |queues[QueueIndex(live[id].class_)]| && queues[QueueIndex(live[id].class_)][i].id == id;
        assert queues'[QueueIndex(live[id].class_)][i].id == id;
      }
    }
  }

  lemma SameIndex(c: WorkClass, d: WorkClass)
    ensures QueueIndex(c) == QueueIndex(d) ==> c == d
  {
  }

  /** Work in flight returns to the rear of its queue. */
  lemma PlacedRequeue(queues: seq<Queue>, inFlight: Work, live: Work, id: WorkId)
    requires Placed(queues, inFlight, live) && id in inFlight
    ensures var item := inFlight[id];
            var q := QueueIndex(item.class_);
            Placed(queues[q := queues[q] + [item]], inFlight - {id}, live)
  {
    var item := inFlight[id];
    var q := QueueIndex(item.class_);
    var queues' := queues[q := queues[q] + [item]];
    forall c ensures QueueOk(queues'[QueueIndex(c)], c, inFlight - {id}, live) {
      assert QueueOk(queues[QueueIndex(c)], c, inFlight, live);
      SameIndex(c, item.class_);
    }
    forall x | x in live && x !in inFlight - {id} ensures Has(queues'[QueueIndex(live[x].class_)], x) {
      if x == id {
        assert queues'[q][|queues[q]|].id == id;
      } else {
        var i :| 0 <= i < |queues[QueueIndex(live[x].class_)]| && queues[QueueIndex(live[x].class_)][i].id == x;
        assert queues'[QueueIndex(live[x].class_)][i].id == x;
      }
    }
  }

  /** An item leaves its queue, for flight or for good. */
  lemma PlacedTake(queues: seq<Queue>, inFlight: Work, live: Work, c: WorkClass, p: nat)
    requires Placed(queues, inFlight, live) && p < |queues[QueueIndex(c)]|
    ensures var item := queues[QueueIndex(c)][p];
            var queues' := queues[QueueIndex(c) := Without(queues[QueueIndex(c)], p)];
            && item.id in live && live[item.id] == item && item.id !in inFlight
            && Placed(queues', inFlight[item.id := item], live)
            && Placed(queues', inFlight, live - {item.id})
  {
    hide Without;
    var item := queues[QueueIndex(c)][p];
    var queues' := queues[QueueIndex(c) := Without(queues[QueueIndex(c)], p)];
    assert QueueOk(queues[QueueIndex(c)], c, inFlight, live);
    WithoutMembers(queues[QueueIndex(c)], p);
    forall d
      ensures QueueOk(queues'[QueueIndex(d)], d, inFlight[item.id := item], live)
      ensures QueueOk(queues'[QueueIndex(d)], d, inFlight, live - {item.id})
    {
      assert QueueOk(queues[QueueIndex(d)], d, inFlight, live);
      TakenQueue(queues[QueueIndex(d)], d, inFlight, live, item, p, c == d);
      SameIndex(c, d);
    }
    forall id | id in live && id !in inFlight && id != item.id ensures Has(queues'[QueueIndex(live[id].class_)], id) {
      assert Has(queues[QueueIndex(live[id].class_)], id);
    }
  }

  lemma TakenQueue(q: Queue, d: WorkClass, inFlight: Work, live: Work, item: WorkItem, p: nat, same: bool)
    requires QueueOk(q, d, inFlight, live) && item.id in live && live[item.id] == item
    requires if same then p < |q| && q[p] == item else item.class_ != d
    ensures var q' := if same then Without(q, p) else q;
            QueueOk(q', d, inFlight[item.id := item], live) && QueueOk(q', d, inFlight, live - {item.id})
  {
    var q' := if same then Without(q, p) else q;
    if same {
      WithoutMembers(q, p);
      forall i | 0 <= i < |q'| ensures q'[i].id != item.id && q'[i] in q {
        assert Has(q', q'[i].id);
      }
    }
  }

  /** Work in flight is done. */
  lemma PlacedDone(queues: seq<Queue>, inFlight: Work, live: Work, id: WorkId)
    requires Placed(queues, inFlight, live) && id in inFlight
    ensures Placed(queues, inFlight - {id}, live - {id})
  {
    forall c ensures QueueOk(queues[QueueIndex(c)], c, inFlight - {id}, live - {id}) {
      assert QueueOk(queues[QueueIndex(c)], c, inFlight, live);
    }
  }
}
