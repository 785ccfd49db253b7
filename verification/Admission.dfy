/** Admission of session operations: many readers or one writer, bounded in number, with
    waiting writers ahead of new readers. Every pass through the lock is one step. */
module Admission {

  type Caller = nat

  datatype Kind = Read | Write

  /** What a caller holds: a place among the waiters or a permit. */
  datatype Claim = Waiting(kind: Kind) | Active(kind: Kind)

  type Claims = map<Caller, Claim>

  datatype Refusal = Interrupted | Closing | Busy

  datatype Pass = Admitted | Refused(reason: Refusal) | Waits

  /** The counters behind the lock. */
  datatype Counters = Counters(active: nat, activeWriters: nat, waiting: nat, waitingWriters: nat, closing: bool)

  const NO_ONE := Counters(0, 0, 0, 0, false)

  predicate Blocked(n: Counters, maxInFlight: nat, kind: Kind) {
    || n.active >= maxInFlight
    || (kind == Write && n.active != 0)
    || (kind == Read && (n.activeWriters != 0 || n.waitingWriters != 0))
  }

  function One(kind: Kind): nat {
    if kind == Write then 1 else 0
  }

  // ---- counters and claims -------------------------------------------------

  ghost function Those(claims: Claims, c: Claim): set<Caller> {
    set x | x in claims && claims[x] == c
  }

  ghost function Actives(claims: Claims): set<Caller> {
    set x | x in claims && claims[x].Active?
  }

  ghost function Waiters(claims: Claims): set<Caller> {
    set x | x in claims && claims[x].Waiting?
  }

  /** The counters are those of the real permits and waiters, a writer is alone, the bound is
      kept, and a closing session has nothing active. */
  ghost predicate Sound(n: Counters, claims: Claims, maxInFlight: nat) {
    && maxInFlight > 0
    && n.active == |Actives(claims)|
    && n.activeWriters == |Those(claims, Active(Write))|
    && n.waiting == |Waiters(claims)|
    && n.waitingWriters == |Those(claims, Waiting(Write))|
    && n.active <= maxInFlight
    && n.activeWriters <= 1
    && (n.activeWriters == 1 ==> n.active == 1)
    && (n.closing ==> n.active == 0)
  }

  lemma DropThose(claims: Claims, x: Caller, c: Claim)
    requires x in claims
    ensures |Those(claims, c)| == |Those(claims - {x}, c)| + (if claims[x] == c then 1 else 0)
  {
    assert Those(claims - {x}, c) == Those(claims, c) - {x};
  }

  lemma DropActives(claims: Claims, x: Caller)
    requires x in claims
    ensures |Actives(claims)| == |Actives(claims - {x})| + (if claims[x].Active? then 1 else 0)
  {
    assert Actives(claims - {x}) == Actives(claims) - {x};
  }

  lemma DropWaiters(claims: Claims, x: Caller)
    requires x in claims
    ensures |Waiters(claims)| == |Waiters(claims - {x})| + (if claims[x].Waiting? then 1 else 0)
  {
    assert Waiters(claims - {x}) == Waiters(claims) - {x};
  }

  lemma {:induction false} FewerWriters(claims: Claims)
    ensures |Those(claims, Active(Write))| <= |Actives(claims)|
    decreases |claims|
  {
    if x :| x in claims {
      DropThose(claims, x, Active(Write));
      DropActives(claims, x);
      assert (claims - {x}).Keys == claims.Keys - {x};
      FewerWriters(claims - {x});
    } else {
      assert Those(claims, Active(Write)) == {};
    }
  }

  /** Dropping a claim drops it from the counts. */
  lemma DropClaim(claims: Claims, x: Caller)
    requires x in claims
    ensures var rest := claims - {x};
            && |Actives(claims)| == |Actives(rest)| + (if claims[x].Active? then 1 else 0)
            && |Waiters(claims)| == |Waiters(rest)| + (if claims[x].Waiting? then 1 else 0)
            && |Those(claims, Active(Write))| == |Those(rest, Active(Write))| + (if claims[x] == Active(Write) then 1 else 0)
            && |Those(claims, Waiting(Write))| == |Those(rest, Waiting(Write))| + (if claims[x] == Waiting(Write) then 1 else 0)
            && |Those(rest, Active(Write))| <= |Actives(rest)|
  {
    hide Actives, Waiters, Those;
    DropActives(claims, x);
    DropWaiters(claims, x);
    DropThose(claims, x, Active(Write));
    DropThose(claims, x, Waiting(Write));
    FewerWriters(claims - {x});
  }

  /** Adding a claim adds it to the counts. */
  lemma AddClaim(claims: Claims, x: Caller, c: Claim)
    requires x !in claims
    ensures var more := claims[x := c];
            && |Actives(more)| == |Actives(claims)| + (if c.Active? then 1 else 0)
            && |Waiters(more)| == |Waiters(claims)| + (if c.Waiting? then 1 else 0)
            && |Those(more, Active(Write))| == |Those(claims, Active(Write))| + (if c == Active(Write) then 1 else 0)
            && |Those(more, Waiting(Write))| == |Those(claims, Waiting(Write))| + (if c == Waiting(Write) then 1 else 0)
  {
    hide Actives, Waiters, Those;
    var more := claims[x := c];
    DropClaim(more, x);
    assert more - {x} == claims;
  }

  lemma EmptyCounts(claims: Claims)
    ensures |Actives(claims)| == 0 ==> Actives(claims) == {}
    ensures |Those(claims, Active(Write))| == 0 ==> Those(claims, Active(Write)) == {}
    ensures |Those(claims, Waiting(Write))| == 0 ==> Those(claims, Waiting(Write)) == {}
  {
  }

  // ---- the lock's owner ----------------------------------------------------

  class OperationAdmission {
    const maxInFlight: nat
    var counters: Counters
    ghost var claims: Claims

    ghost predicate Valid()
      reads this
    {
      Sound(counters, claims, maxInFlight)
    }

    constructor (maxInFlight: nat)
      requires maxInFlight > 0
      ensures Valid() && claims == map[] && counters == NO_ONE && this.maxInFlight == maxInFlight
    {
      this.maxInFlight, counters, claims := maxInFlight, NO_ONE, map[];
      new;
      assert Actives(claims) == {} && Waiters(claims) == {};
      assert Those(claims, Active(Write)) == {} && Those(claims, Waiting(Write)) == {};
    }

    /** Leave the waiters, if among them. The counters cannot run below zero. */
    method RemoveWaiter(me: Caller, kind: Kind, waiting: bool)
      requires Valid() && (if waiting then me in claims && claims[me] == Waiting(kind) else me !in claims)
      modifies this
      ensures Valid() && claims == old(claims) - {me}
      ensures counters.active == old(counters).active && counters.activeWriters == old(counters).activeWriters
      ensures counters.closing == old(counters).closing
      ensures counters.waiting + (if waiting then 1 else 0) == old(counters).waiting
      ensures counters.waitingWriters + (if waiting then One(kind) else 0) == old(counters).waitingWriters
    {
      hide Actives, Waiters, Those;
      if waiting {
        DropClaim(claims, me);
        assert counters.waiting >= 1 && counters.waitingWriters >= One(kind);
        counters := counters.(waiting := counters.waiting - 1, waitingWriters := counters.waitingWriters - One(kind));
      } else {
        assert claims - {me} == claims;
      }
      claims := claims - {me};
    }

    /** One pass of a caller through the admission loop. Interruption by its control and the
        passing of its timeout come from outside. */
    method Attempt(me: Caller, kind: Kind, waiting: bool, interrupted: bool, timedOut: bool) returns (pass: Pass)
      requires Valid() && (if waiting then me in claims && claims[me] == Waiting(kind) else me !in claims)
      modifies this
      ensures Valid()
      ensures pass == Admitted <==> !interrupted && !old(counters).closing && !Blocked(old(counters), maxInFlight, kind)
      ensures pass == Admitted ==> claims == old(claims)[me := Active(kind)]
      ensures pass == Waits ==> claims == old(claims)[me := Waiting(kind)] && counters.active == old(counters).active
      ensures pass.Refused? ==> claims == old(claims) - {me} && counters.active == old(counters).active
      ensures pass == Admitted && kind == Write ==> Actives(old(claims)) == {}
      ensures pass == Admitted && kind == Read ==> Those(old(claims), Active(Write)) == {} && Those(old(claims), Waiting(Write)) == {}
      ensures counters.closing == old(counters).closing
      ensures StepOrStay(maxInFlight, old(counters), old(claims), counters, claims)
    {
      hide Actives, Waiters, Those;
      EmptyCounts(claims);
      if interrupted {
        RemoveWaiter(me, kind, waiting);
        assert waiting ==> Leaves(old(counters), old(claims), counters, claims, me);
        return Refused(Interrupted);
      }
      if counters.closing {
        RemoveWaiter(me, kind, waiting);
        assert waiting ==> Leaves(old(counters), old(claims), counters, claims, me);
        return Refused(Closing);
      }
      if !Blocked(counters, maxInFlight, kind) {
        RemoveWaiter(me, kind, waiting);
        AddClaim(claims, me, Active(kind));
        claims := claims[me := Active(kind)];
        counters := counters.(active := counters.active + 1, activeWriters := counters.activeWriters + One(kind));
        assert claims == old(claims)[me := Active(kind)];
        assert Enters(maxInFlight, old(counters), old(claims), counters, claims, me, kind);
        return Admitted;
      }
      if !waiting {
        AddClaim(claims, me, Waiting(kind));
        claims := claims[me := Waiting(kind)];
        counters := counters.(waiting := counters.waiting + 1, waitingWriters := counters.waitingWriters + One(kind));
      }
      if timedOut {
        RemoveWaiter(me, kind, true);
        assert claims == old(claims) - {me};
        assert waiting ==> Leaves(old(counters), old(claims), counters, claims, me);
        return Refused(Busy);
      }
      assert claims == old(claims)[me := Waiting(kind)];
      assert !waiting ==> Queues(maxInFlight, old(counters), old(claims), counters, claims, me, kind);
      pass := Waits;
    }

    /** Give a permit back. */
    method Release(me: Caller, kind: Kind)
      requires Valid() && me in claims && claims[me] == Active(kind)
      modifies this
      ensures Valid() && claims == old(claims) - {me} && counters.closing == old(counters).closing
      ensures Leaves(old(counters), old(claims), counters, claims, me)
    {
      hide Actives, Waiters, Those;
      DropClaim(claims, me);
      assert counters.active >= 1 && counters.activeWriters >= One(kind);
      counters := counters.(active := counters.active - 1, activeWriters := counters.activeWriters - One(kind));
      claims := claims - {me};
    }

    /** Begin to close, which only an idle session can. */
    method BeginClose() returns (r: Outcome)
      requires Valid()
      modifies this`counters
      ensures Valid()
      ensures r == Closed <==> Actives(claims) == {} && !old(counters).closing
      ensures r == Closed ==> counters == old(counters).(closing := true)
      ensures r != Closed ==> counters == old(counters)
    {
      if counters.active != 0 {
        return StillBusy;
      }
      if counters.closing {
        return AlreadyClosing;
      }
      counters := counters.(closing := true);
      r := Closed;
    }
  }

  datatype Outcome = Closed | StillBusy | AlreadyClosing

  // ---- every interleaving --------------------------------------------------

  /** One step of some caller: a pass through the lock, a release, or a close. */
  ghost predicate Step(maxInFlight: nat, n: Counters, claims: Claims, n': Counters, claims': Claims) {
    || (exists me, kind :: Enters(maxInFlight, n, claims, n', claims', me, kind))
    || (exists me, kind :: Queues(maxInFlight, n, claims, n', claims', me, kind))
    || (exists me :: Leaves(n, claims, n', claims', me))
    || (n' == n.(closing := true) && claims' == claims && n.active == 0)
  }

  ghost predicate Enters(maxInFlight: nat, n: Counters, claims: Claims, n': Counters, claims': Claims, me: Caller, kind: Kind) {
    && !n.closing && !Blocked(n, maxInFlight, kind)
    && (me in claims ==> claims[me] == Waiting(kind))
    && claims' == claims[me := Active(kind)]
    && n'.active == n.active + 1 && n'.activeWriters == n.activeWriters + One(kind) && n'.closing == n.closing
    && n'.waiting == n.waiting - (if me in claims then 1 else 0)
    && n'.waitingWriters == n.waitingWriters - (if me in claims then One(kind) else 0)
  }

  ghost predicate Queues(maxInFlight: nat, n: Counters, claims: Claims, n': Counters, claims': Claims, me: Caller, kind: Kind) {
    && !n.closing && Blocked(n, maxInFlight, kind) && me !in claims
    && claims' == claims[me := Waiting(kind)]
    && n' == n.(waiting := n.waiting + 1, waitingWriters := n.waitingWriters + One(kind))
  }

  ghost predicate Leaves(n: Counters, claims: Claims, n': Counters, claims': Claims, me: Caller) {
    && me in claims && claims' == claims - {me} && n'.closing == n.closing
    && var kind := claims[me].kind;
       if claims[me].Active? then
         && n'.waiting == n.waiting && n'.waitingWriters == n.waitingWriters
         && n'.active == n.active - 1 && n'.activeWriters == n.activeWriters - One(kind)
       else
         && n'.active == n.active && n'.activeWriters == n.activeWriters
         && n'.waiting == n.waiting - 1 && n'.waitingWriters == n.waitingWriters - One(kind)
  }

  lemma EntersKeeps(maxInFlight: nat, n: Counters, claims: Claims, n': Counters, claims': Claims, me: Caller, kind: Kind)
    requires Sound(n, claims, maxInFlight) && Enters(maxInFlight, n, claims, n', claims', me, kind)
    ensures Sound(n', claims', maxInFlight)
  {
    hide Actives, Waiters, Those;
    var rest := claims - {me};
    if me in claims {
      DropClaim(claims, me);
    } else {
      assert rest == claims;
    }
    AddClaim(rest, me, Active(kind));
    assert rest[me := Active(kind)] == claims';
  }

  lemma StepKeeps(maxInFlight: nat, n: Counters, claims: Claims, n': Counters, claims': Claims)
    requires Sound(n, claims, maxInFlight) && Step(maxInFlight, n, claims, n', claims')
    ensures Sound(n', claims', maxInFlight)
  {
    hide Actives, Waiters, Those;
    if me, kind :| Enters(maxInFlight, n, claims, n', claims', me, kind) {
      EntersKeeps(maxInFlight, n, claims, n', claims', me, kind);
    } else if me, kind :| Queues(maxInFlight, n, claims, n', claims', me, kind) {
      AddClaim(claims, me, Waiting(kind));
    } else if me :| Leaves(n, claims, n', claims', me) {
      DropClaim(claims, me);
    }
  }

  ghost predicate StepOrStay(maxInFlight: nat, n: Counters, claims: Claims, n': Counters, claims': Claims) {
    (n' == n && claims' == claims) || Step(maxInFlight, n, claims, n', claims')
  }

  /** A run: the counters and the claims after each step. */
  ghost predicate IsRun(maxInFlight: nat, run: seq<(Counters, Claims)>) {
    && run != [] && run[0] == (NO_ONE, map[])
    && forall i :: 0 <= i < |run| - 1 ==> Step(maxInFlight, run[i].0, run[i].1, run[i + 1].0, run[i + 1].1)
  }

  /** In every interleaving of callers: at most one writer is active and then nothing else,
      the bound is kept, counters match permits and waiters, and after a close nothing is
      ever active. */
  lemma {:induction false} EveryRunIsSound(maxInFlight: nat, run: seq<(Counters, Claims)>, i: nat)
    requires maxInFlight > 0 && IsRun(maxInFlight, run) && i < |run|
    ensures Sound(run[i].0, run[i].1, maxInFlight)
    ensures Those(run[i].1, Active(Write)) != {} ==> |Actives(run[i].1)| == 1
  {
    hide Step;
    if i == 0 {
      assert Actives(map[]) == {} && Waiters(map[]) == {};
      assert Those(map[], Active(Write)) == {} && Those(map[], Waiting(Write)) == {};
    } else {
      EveryRunIsSound(maxInFlight, run, i - 1);
      StepKeeps(maxInFlight, run[i - 1].0, run[i - 1].1, run[i].0, run[i].1);
    }
  }

  /** When nothing is active and the session is open, some waiter can proceed. */
  lemma SomeoneProceeds(n: Counters, claims: Claims, maxInFlight: nat)
    requires Sound(n, claims, maxInFlight) && n.active == 0 && !n.closing && Waiters(claims) != {}
    ensures exists x :: x in Waiters(claims) && !Blocked(n, maxInFlight, claims[x].kind)
  {
    if n.waitingWriters > 0 {
      var x :| x in Those(claims, Waiting(Write));
      assert x in Waiters(claims) && !Blocked(n, maxInFlight, claims[x].kind);
    } else {
      var x :| x in Waiters(claims);
      assert x !in Those(claims, Waiting(Write));
      assert x in Waiters(claims) && !Blocked(n, maxInFlight, claims[x].kind);
    }
  }
}
