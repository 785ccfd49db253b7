/** The storage kernel's transaction contract: ordered trees of cells, snapshots,
    staged writes, registered key ranges, and a commit log. A commit is refused when a
    later commit wrote a cell it wrote or wrote inside a range it registered. */
module Kernel {
  import opened Common
  import opened Bytes
  import opened IndexEntries

  type TreeId = nat

  datatype Loc = Loc(tree: TreeId, key: ByteString)

  datatype Range = Range(tree: TreeId, lo: ByteString, hi: Option<ByteString>)

  predicate Covers(r: Range, l: Loc) {
    l.tree == r.tree && InRange(l.key, r.lo, r.hi)
  }

  /** The range a scan of a whole tree registers. */
  function Whole(tree: TreeId): Range {
    Range(tree, [], None)
  }

  lemma WholeCovers(l: Loc)
    ensures Covers(Whole(l.tree), l)
  {
  }

  /** The range a cursor bounded to one exact key registers. */
  function Exactly(l: Loc): Range {
    Range(l.tree, l.key, Some(l.key + [0]))
  }

  lemma ExactlyCovers(l: Loc)
    ensures Covers(Exactly(l), l)
  {
    LessAt(l.key, l.key + [0], |l.key|);
  }

  type Writes<D> = map<Loc, Option<D>>

  /** What one commit does: cells put or deleted, trees created and dropped. */
  datatype Change<D> = Change(writes: Writes<D>, created: set<TreeId>, dropped: set<TreeId>)

  datatype Image<D> = Image(live: set<TreeId>, cells: map<Loc, D>) {
    function Get(l: Loc): Option<D> {
      if l in cells then Some(cells[l]) else None
    }
  }

  function Apply<D>(s: Image<D>, c: Change<D>): (r: Image<D>)
    ensures forall l :: r.Get(l) == if l.tree in c.dropped then None else if l in c.writes then c.writes[l] else s.Get(l)
  {
    Image(s.live + c.created - c.dropped,
          map l | l in s.cells.Keys + c.writes.Keys && l.tree !in c.dropped
                  && (if l in c.writes then c.writes[l].Some? else true)
            :: if l in c.writes then c.writes[l].value else s.cells[l])
  }

  /** A published transaction: the length of the log at its snapshot, what it changed and
      the ranges it had registered. */
  datatype Commit<D> = Commit(csn: nat, change: Change<D>, ranges: set<Range>)

  function Replay<D>(log: seq<Commit<D>>): Image<D> {
    if log == [] then Image({}, map[])
    else Apply(Replay(log[..|log| - 1]), log[|log| - 1].change)
  }

  /** A commit that has been published invalidates what a transaction staged or read: it
      wrote a cell the transaction wrote, or one inside a range it registered or a tree it
      drops, or it created or dropped a tree the transaction touches. */
  predicate Conflicts<D>(published: Commit<D>, staged: Commit<D>) {
    || (exists l :: l in published.change.writes && Guards(staged, l))
    || (exists t :: t in published.change.created + published.change.dropped && Touches(staged, t))
  }

  predicate Guards<D>(staged: Commit<D>, l: Loc) {
    || l in staged.change.writes
    || l.tree in staged.change.dropped
    || (exists r :: r in staged.ranges && Covers(r, l))
  }

  predicate Touches<D>(staged: Commit<D>, t: TreeId) {
    t in staged.change.created + staged.change.dropped || exists l :: l in staged.change.writes && l.tree == t
  }

  predicate Admissible<D>(log: seq<Commit<D>>, staged: Commit<D>) {
    staged.csn <= |log| && forall i :: staged.csn <= i < |log| ==> !Conflicts(log[i], staged)
  }

  /** The kernel itself: a log that grows by the commits it admits. */
  class Engine<D> {
    var log: seq<Commit<D>>

    constructor ()
      ensures log == []
    {
      log := [];
    }

    method Publish(staged: Commit<D>) returns (ok: bool)
      requires staged.csn <= |log|
      modifies this
      ensures ok <==> old(Admissible(log, staged))
      ensures log == if ok then old(log) + [staged] else old(log)
    {
      ok := true;
      var i := staged.csn;
      while i < |log|
        invariant staged.csn <= i <= |log| && log == old(log)
        invariant ok <==> forall j :: staged.csn <= j < i ==> !Conflicts(log[j], staged)
      {
        ok := ok && !Conflicts(log[i], staged);
        i := i + 1;
      }
      if ok {
        log := log + [staged];
      }
    }
  }

  /** Replaying up to the snapshot and then the later commits gives the current image. */
  lemma ReplayOne<D>(log: seq<Commit<D>>, c: Commit<D>)
    ensures Replay(log + [c]) == Apply(Replay(log), c.change)
  {
    assert (log + [c])[..|log|] == log;
  }

  /** A cell no later commit touched reads the same now as at the snapshot. */
  lemma {:induction false} Untouched<D>(log: seq<Commit<D>>, csn: nat, l: Loc)
    requires csn <= |log|
    requires forall i :: csn <= i < |log| ==> l !in log[i].change.writes && l.tree !in log[i].change.dropped
    ensures Replay(log).Get(l) == Replay(log[..csn]).Get(l)
  {
    if csn == |log| {
      assert log[..csn] == log;
    } else {
      var init := log[..|log| - 1];
      assert init[..csn] == log[..csn];
      Untouched(init, csn, l);
    }
  }
}
