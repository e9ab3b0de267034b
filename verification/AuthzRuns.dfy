/** What holds over whole runs of the authorization lifecycle. */
module AuthzRuns {
  import opened Prelude
  import opened Acme
  import opened AuthzStore
  import opened AuthzUpdate
  import opened AuthzLifecycle

  lemma {:induction false} RunKeeps(p: Policy, s: System, steps: seq<Step>)
    requires Inv(p, s)
    ensures Inv(p, Run(p, s, steps))
  {
    if |steps| > 0 {
      RunKeeps(p, s, steps[..|steps| - 1]);
      StepKeeps(p, Run(p, s, steps[..|steps| - 1]), steps[|steps| - 1]);
    }
  }

  lemma {:induction false} RunSplit(p: Policy, s: System, a: seq<Step>, b: seq<Step>)
    ensures Run(p, s, a + b) == Run(p, Run(p, s, a), b)
  {
    if |b| == 0 {
      assert a + b == a;
    } else {
      var n := |b| - 1;
      RunSplit(p, s, a, b[..n]);
      assert (a + b)[..|a + b| - 1] == a + b[..n];
    }
  }

  lemma OneStep(p: Policy, s: System, step: Step)
    ensures Run(p, s, [step]) == Apply(p, s, step)
  {
    assert [step][..0] == [];
  }

  lemma TwoSteps(p: Policy, s: System, first: Step, second: Step)
    ensures Run(p, s, [first, second]) == Apply(p, Apply(p, s, first), second)
  {
    assert [first, second][..1] == [first] && [first][..0] == [];
    assert Run(p, s, [first]) == Apply(p, s, first);
  }

  lemma ThreeSteps(p: Policy, s: System, first: Step, second: Step, third: Step)
    ensures Run(p, s, [first, second, third]) == Apply(p, Apply(p, Apply(p, s, first), second), third)
  {
    assert [first, second, third] == [first, second] + [third];
    RunSplit(p, s, [first, second], [third]);
    TwoSteps(p, s, first, second);
    OneStep(p, Run(p, s, [first, second]), third);
  }

  /** No authorization is both pending and final, none of the final ones has a pending-class
      status, all challenges of a pending one are pending, and exactly one challenge of a final
      one is decided: validly, with sane records, unless the authorization is invalid. */
  ghost predicate Safe(db: Db) {
    && db.pending.Keys !! db.final.Keys
    && (forall id | id in db.pending :: AllPending(ChallengesOf(db, id)))
    && (forall id | id in db.final ::
          !StatusIsPending(db.final[id].status) && OneDecided(ChallengesOf(db, id), !db.final[id].status.Invalid?))
  }

  lemma InvIsSafe(p: Policy, s: System)
    requires Inv(p, s)
    ensures Safe(s.db)
  {
  }

  /** Some run from the empty database leads to s. */
  ghost predicate Reachable(p: Policy, s: System) {
    exists start, steps :: s == Run(p, Start(start), steps)
  }

  lemma ReachableKeeps(p: Policy, s: System)
    requires Reachable(p, s)
    ensures Inv(p, s)
  {
    var start, steps :| s == Run(p, Start(start), steps);
    RunKeeps(p, Start(start), steps);
  }

  lemma ReachableStep(p: Policy, s: System, step: Step)
    requires Reachable(p, s)
    ensures Reachable(p, Apply(p, s, step))
  {
    var start, steps :| s == Run(p, Start(start), steps);
    assert (steps + [step])[..|steps|] == steps;
    assert Apply(p, s, step) == Run(p, Start(start), steps + [step]);
  }

  lemma ReachableRun(p: Policy, s: System, steps: seq<Step>)
    requires Reachable(p, s)
    ensures Reachable(p, Run(p, s, steps))
  {
    var start, before :| s == Run(p, Start(start), before);
    RunSplit(p, Start(start), before, steps);
  }

  lemma ReachableIsSafe(p: Policy, s: System)
    requires Reachable(p, s)
    ensures Safe(s.db)
  {
    ReachableKeeps(p, s);
    InvIsSafe(p, s);
  }

  /** The final table of db' is a later stage of that of db: rows stay, with their evidence,
      their expiry and their failure, and a row that is not valid does not become so. */
  predicate Later(db: Db, db': Db) {
    forall id | id in db.final ::
      && id in db'.final
      && ChallengesOf(db', id) == ChallengesOf(db, id)
      && db'.final[id] == db.final[id].(status := db'.final[id].status)
      && (db'.final[id].status.Invalid? <==> db.final[id].status.Invalid?)
      && (db'.final[id].status.Valid? ==> db.final[id].status.Valid?)
  }

  lemma StoringIsLater(db: Db, a: Authorization)
    requires db.pending.Keys !! db.final.Keys
    ensures UpdatePending(db, a).Some? ==> Later(db, UpdatePending(db, a).value)
  {
  }

  lemma FinalizingIsLater(db: Db, a: Authorization)
    requires db.pending.Keys !! db.final.Keys
    ensures Finalize(db, a).Some? ==> Later(db, Finalize(db, a).value)
  {
  }

  lemma DeactivatingIsLater(db: Db, id: string)
    ensures Later(db, Deactivate(db, id))
  {
  }

  lemma RevocationIsLater(s: System, batch: Batch)
    requires HeldBatches(s.db, s.batches) && batch in s.batches
    ensures Later(s.db, BatchRevoked(s, batch).db)
  {
  }

  lemma CreationIsLater(p: Policy, s: System, id: string, regID: int, identifier: Identifier,
                        challenges: seq<Challenge>, combinations: seq<seq<int>>, firstChallenge: int)
    requires s.db.pending.Keys !! s.db.final.Keys && !Exists(s.db, id)
    ensures Later(s.db, Created(p, s, id, regID, identifier, challenges, combinations, firstChallenge).db)
  {
  }

  lemma StepIsLater(p: Policy, s: System, step: Step)
    requires s.db.pending.Keys !! s.db.final.Keys && HeldBatches(s.db, s.batches)
    ensures Later(s.db, Apply(p, s, step).db)
  {
    match step
    case Create(candidates, regID, identifier, challenges, combinations, firstChallenge) =>
      FreshIsFresh(s.db, candidates);
      var id := Fresh(s.db, candidates);
      if id.Some? && Offer(challenges, combinations) {
        CreationIsLater(p, s, id.value, regID, identifier, challenges, combinations, firstChallenge);
      }
    case Store(answer) => StoringIsLater(s.db, answer.authz);
    case FinalizeStep(verdict) => FinalizingIsLater(s.db, verdict);
    case DeactivateStep(id) => DeactivatingIsLater(s.db, id);
    case RevokeBatch(batch) =>
      if batch in s.batches {
        RevocationIsLater(s, batch);
      }
    case _ =>
  }

  lemma {:induction false} RunIsLater(p: Policy, s: System, steps: seq<Step>)
    requires Inv(p, s)
    ensures Later(s.db, Run(p, s, steps).db)
  {
    if |steps| > 0 {
      var before := Run(p, s, steps[..|steps| - 1]);
      RunIsLater(p, s, steps[..|steps| - 1]);
      RunKeeps(p, s, steps[..|steps| - 1]);
      StepIsLater(p, before, steps[|steps| - 1]);
    }
  }

  /** Between any two moments of a run, no final row is lost, revived, or given other evidence. */
  lemma NeverValidAgain(p: Policy, now: int, steps: seq<Step>, i: nat)
    requires i <= |steps|
    ensures Later(Run(p, Start(now), steps[..i]).db, Run(p, Start(now), steps).db)
  {
    RunKeeps(p, Start(now), steps[..i]);
    RunSplit(p, Start(now), steps[..i], steps[i..]);
    assert steps[..i] + steps[i..] == steps;
    RunIsLater(p, Run(p, Start(now), steps[..i]), steps[i..]);
  }

  /** Revocation by domain under interference: from the moment at which it finds no row of the final table
      left to revoke, the rows for the name that were there are not valid again in any run, whatever
      else is done. */
  lemma SweptStaysRevoked(p: Policy, s: System, steps: seq<Step>, ident: Identifier, since: int, id: string)
    requires Reachable(p, s) && Revocable(s.db.final, ident, since) == {}
    requires id in s.db.final && s.db.final[id].identifier == ident
    requires s.db.final[id].expires.Some? && s.db.final[id].expires.value > since
    ensures id in Run(p, s, steps).db.final && !Run(p, s, steps).db.final[id].status.Valid?
  {
    assert id !in Revocable(s.db.final, ident, since);
    ReachableKeeps(p, s);
    RunIsLater(p, s, steps);
  }

  /** How often an authorization enters the final table. */
  function Finalizations(p: Policy, s: System, steps: seq<Step>, id: string): nat {
    if |steps| == 0 then 0
    else
      var before := Run(p, s, steps[..|steps| - 1]);
      Finalizations(p, s, steps[..|steps| - 1], id)
      + if id !in before.db.final && id in Run(p, s, steps).db.final then 1 else 0
  }

  /** However many validations are in flight, an authorization is finalized at most once. */
  lemma {:induction false} FinalizedAtMostOnce(p: Policy, now: int, steps: seq<Step>, id: string)
    ensures Finalizations(p, Start(now), steps, id) == if id in Run(p, Start(now), steps).db.final then 1 else 0
  {
    if |steps| > 0 {
      var n := |steps| - 1;
      FinalizedAtMostOnce(p, now, steps[..n], id);
      RunKeeps(p, Start(now), steps[..n]);
      StepIsLater(p, Run(p, Start(now), steps[..n]), steps[n]);
    }
  }

  /** A verdict is accepted exactly when its authorization is still pending, so the first
      one wins and every other is an error. */
  lemma FirstVerdictWins(p: Policy, s: System, a: Authorization)
    requires Reachable(p, s) && a in s.verdicts
    ensures Finalize(s.db, a).Some? <==> a.id in s.db.pending
  {
    ReachableKeeps(p, s);
  }

  // ---------------------------------------------------------------- the invalid-authorization limit

  predicate Failed(cs: seq<Challenge>) {
    exists k | 0 <= k < |cs| :: cs[k].status.Invalid?
  }

  /** The authorizations an account created for a name after `since` and failed to validate. */
  function FailuresSince(s: System, regID: int, hostname: string, since: int): set<string> {
    set id | id in s.origins && s.origins[id].regID == regID
             && s.origins[id].identifier == Identifier(IDENTIFIER_DNS, hostname)
             && since < s.origins[id].at && Failed(ChallengesOf(s.db, id))
  }

  lemma FailedIsInvalid(p: Policy, s: System, id: string)
    requires Inv(p, s) && id in s.origins
    ensures Failed(ChallengesOf(s.db, id)) <==> id in s.db.final && s.db.final[id].status.Invalid?
    ensures id in s.db.final ==>
              && s.db.final[id].regID == s.origins[id].regID
              && s.db.final[id].identifier == s.origins[id].identifier
              && (s.db.final[id].status.Invalid? ==> s.db.final[id].expires == Some(s.origins[id].at + p.pendingLifetime))
  {
    if id in s.db.pending {
      assert PendingRow(p, s, id);
    } else {
      assert FinalRow(p, s, id);
      var k :| DecidedAt(ChallengesOf(s.db, id), !s.db.final[id].status.Invalid?, k);
    }
  }

  lemma LimitInState(p: Policy, s: System, regID: int, hostname: string, window: int)
    requires Inv(p, s)
    ensures InvalidBetween(s.db, regID, hostname, s.now + p.pendingLifetime - window, s.now + p.pendingLifetime)
         == FailuresSince(s, regID, hostname, s.now - window)
    ensures CountInvalid(s.db, regID, hostname, s.now + p.pendingLifetime - window, s.now + p.pendingLifetime)
         == |FailuresSince(s, regID, hostname, s.now - window)|
  {
  }

  /** The limit asks for expiries in (now + P - W, now + P] and thereby counts the validation
      failures among the authorizations created in (now - W, now]. */
  lemma LimitCountsFailures(p: Policy, s: System, regID: int, hostname: string, window: int)
    requires Reachable(p, s)
    ensures CountInvalid(s.db, regID, hostname, s.now + p.pendingLifetime - window, s.now + p.pendingLifetime)
         == |FailuresSince(s, regID, hostname, s.now - window)|
  {
    ReachableKeeps(p, s);
    LimitInState(p, s, regID, hostname, window);
  }
}
