/** The Registration Authority (ra/ra.go) on top of the Storage Authority: what its methods do to
    the database, in terms of the transactions and decisions of the authorization lifecycle. Every
    method keeps the database in a state that the lifecycle can reach. */
module RegistrationAuthority {
  import opened Prelude
  import opened Names
  import opened Acme
  import opened AuthzStore
  import opened AuthzUpdate
  import opened AuthzLifecycle
  import opened AuthzRuns
  import opened ValidAuthorizations
  import PA = PolicyAuthority
  import SA = StorageAuthority

  /** Twenty-four hours, in seconds. */
  const REUSE_MARGIN := 86400

  /** The account has a valid authorization for the name that lasts beyond the next day. */
  ghost predicate Reusable(final: map<string, Row>, regID: int, name: string, now: int) {
    exists id | id in final :: Entitles(final[id], regID, name, now) && final[id].expires.value > now + 86400
  }

  /** The answer was found to be the account's, and is copied into the challenge. */
  predicate Copied(policy: Policy, now: int, base: Authorization, index: nat, provided: string, thumbprint: Option<string>) {
    && base.expires.Some? && now <= base.expires.value && index < |base.challenges|
    && !(policy.reuseValidAuthz && base.status.Valid?)
    && thumbprint.Some? && provided == base.challenges[index].token + "." + thumbprint.value
  }

  /** A limit on failed validations, and one on pending authorizations; None is disabled. */
  datatype Limits = Limits(pending: Option<int>, invalid: Option<InvalidLimit>)

  datatype InvalidLimit = InvalidLimit(window: int, threshold: int)

  /** What the limits mean: fewer unexpired pending authorizations than allowed, and fewer failures among
      the authorizations that the account created for the name within the window. */
  predicate WithinLimits(limits: Limits, s: System, regID: int, name: string) {
    && (limits.pending.Some? ==> CountPending(s.db, regID, s.now) < limits.pending.value)
    && (limits.invalid.Some? ==>
          |FailuresSince(s, regID, name, s.now - limits.invalid.value.window)| < limits.invalid.value.threshold)
  }

  // ---------------------------------------------------------------- the methods as steps of the lifecycle

  /** What NewAuthorization does to the database is the step that creates. */
  lemma NewIsStep(p: Policy, s: System, candidates: seq<string>, regID: int, identifier: Identifier,
                  challenges: seq<Challenge>, combinations: seq<seq<int>>, firstChallenge: int, r: Authorization)
    requires Offer(challenges, combinations) && Fresh(s.db, candidates) == Some(r.id)
    requires r.regID == regID && r.identifier == identifier && r.status.Pending? && r.combinations == combinations
    requires r.expires == Some(s.now + p.pendingLifetime)
    ensures NewPending(s.db, r.id, r.(challenges := challenges), firstChallenge)
            == Run(p, s, [Create(candidates, regID, identifier, challenges, combinations, firstChallenge)]).db
    ensures Run(p, s, [Create(candidates, regID, identifier, challenges, combinations, firstChallenge)]).now == s.now
  {
    OneStep(p, s, Create(candidates, regID, identifier, challenges, combinations, firstChallenge));
  }

  /** What UpdateAuthorization does to the database is what checking and storing an answer do. */
  lemma UpdateIsSteps(p: Policy, s: System, base: Authorization, index: nat, provided: string, thumbprint: Option<string>)
    requires base in s.bases && CheckAnswer(p, s.now, base, index, provided, thumbprint).Proceed?
    ensures var v := Validation(CheckAnswer(p, s.now, base, index, provided, thumbprint).authz, index);
            var stored := UpdatePending(s.db, v.authz);
            var s' := Run(p, s, [Check(base, index, provided, thumbprint), Store(v)]);
            s'.now == s.now && s'.db == (if stored.Some? then stored.value else s.db)
            && (stored.Some? ==> v in s'.validations)
  {
    var v := Validation(CheckAnswer(p, s.now, base, index, provided, thumbprint).authz, index);
    TwoSteps(p, s, Check(base, index, provided, thumbprint), Store(v));
  }

  /** What the background goroutine does to the database is what judging and finalizing do. */
  lemma RecordIsSteps(p: Policy, s: System, v: Validation, records: seq<ValidationRecord>, problem: Option<string>)
    requires v in s.validations && v.index < |v.authz.challenges|
    ensures var verdict := Judged(p, s.now, v, records, problem);
            var final := Finalize(s.db, verdict);
            var s' := Run(p, s, [Validate(v, records, problem), FinalizeStep(verdict)]);
            s'.now == s.now && s'.db == if final.Some? then final.value else s.db
  {
    TwoSteps(p, s, Validate(v, records, problem), FinalizeStep(Judged(p, s.now, v, records, problem)));
  }

  /** What RevokeAuthorizationsByDomain does to the database is selecting and revoking one batch of each table. */
  lemma RevokeIsSteps(p: Policy, s: System, ident: Identifier, since: int)
    ensures var finals, pendings := Revocable(s.db.final, ident, since), Revocable(s.db.pending, ident, since);
            var half := Run(p, s, [SelectBatch(true, ident, since, finals), RevokeBatch(Batch(true, finals))]);
            Run(p, half, [SelectBatch(false, ident, since, pendings), RevokeBatch(Batch(false, pendings))]).db
            == SA.RevokeAll(s.db, ident, since)
  {
    var finals, pendings := Revocable(s.db.final, ident, since), Revocable(s.db.pending, ident, since);
    TwoSteps(p, s, SelectBatch(true, ident, since, finals), RevokeBatch(Batch(true, finals)));
    var half := Run(p, s, [SelectBatch(true, ident, since, finals), RevokeBatch(Batch(true, finals))]);
    TwoSteps(p, half, SelectBatch(false, ident, since, pendings), RevokeBatch(Batch(false, pendings)));
  }

  // ---------------------------------------------------------------- the methods

  class RegistrationAuthorityImpl {
    const policy: Policy
    const sa: SA.SQLStorageAuthority
    /** The state of the lifecycle that the database and the work in flight stand for. */
    ghost var system: System

    ghost predicate Valid()
      reads this, sa
    {
      sa.Valid() && system.db == sa.View() && Reachable(policy, system)
    }

    constructor (policy: Policy, sa: SA.SQLStorageAuthority, ghost now: int)
      requires sa.Valid() && sa.View() == Db(map[], map[], map[])
      ensures this.policy == policy && this.sa == sa && Valid() && system.now == now
    {
      this.policy, this.sa, this.system := policy, sa, Start(now);
      new;
      assert system == Run(policy, Start(now), []);
    }

    /** Whatever methods have been called, the database is safe. */
    lemma AlwaysSafe()
      requires Valid()
      ensures Safe(sa.View())
    {
      ReachableIsSafe(policy, system);
    }

    /** The clock has moved on. */
    ghost method Advance(now: int)
      requires Valid() && system.now <= now
      modifies this`system
      ensures Valid() && system == old(system).(now := now)
    {
      ReachableStep(policy, system, Tick(now - system.now));
      system := Apply(policy, system, Tick(now - system.now));
    }

    /** The lifecycle takes the steps that account for what was done to the database. */
    ghost method Follow(steps: seq<Step>)
      requires sa.Valid() && Reachable(policy, system) && Run(policy, system, steps).db == sa.View()
      modifies this`system
      ensures Valid() && system == Run(policy, old(system), steps)
    {
      ReachableRun(policy, system, steps);
      system := Run(policy, system, steps);
    }

    /** checkPendingAuthorizationLimit and checkInvalidAuthorizationLimit: the second counts rows by
        expiry, and thereby failures by creation. */
    method CheckLimits(limits: Limits, now: int, regID: int, name: string) returns (within: bool)
      requires Valid() && system.now == now
      ensures within <==> WithinLimits(limits, system, regID, name)
      ensures within <==>
                && (limits.pending.None? || CountPending(system.db, regID, now) < limits.pending.value)
                && (limits.invalid.None? || |FailuresSince(system, regID, name, now - limits.invalid.value.window)| < limits.invalid.value.threshold)
    {
      within := true;
      if limits.pending.Some? {
        var count := sa.CountPendingAuthorizations(regID, now);
        within := count < limits.pending.value;
      }
      if within && limits.invalid.Some? {
        var latest := now + policy.pendingLifetime;
        var count := sa.CountInvalidAuthorizations(regID, name, latest - limits.invalid.value.window, latest);
        LimitCountsFailures(policy, system, regID, name, limits.invalid.value.window);
        within := count < limits.invalid.value.threshold;
      }
    }

    /** NewAuthorization. `willing` is what the policy and the safe-domain service say. A valid
        authorization of the account that lasts beyond the next day is reused, and then nothing is
        written; otherwise a new one is created. */
    method NewAuthorization(now: int, regID: int, requested: Identifier, willing: bool, limits: Limits, candidates: seq<string>,
                            enabled: set<string>, allowTLS02: bool, random: seq<Bytes>, perms: (nat, bool) -> seq<nat>)
      returns (r: Option<Authorization>)
      requires Valid() && system.now <= now
      requires |random| == 4 && forall i | 0 <= i < 4 :: |random[i]| == 32
      requires forall n, b :: PA.Permutation(perms(n, b), n)
      modifies this`system, sa
      ensures Valid() && system.now == now
      ensures var name := ToLower(requested.value);
              var admitted := willing && WithinLimits(limits, old(system).(now := now), regID, name);
              var reused := policy.reuseValidAuthz && Reusable(old(sa.final), regID, name, now);
              && (!admitted ==> r.None? && sa.View() == old(sa.View()))
              && (admitted && reused ==>
                    && sa.View() == old(sa.View()) && r.Some?
                    && r.value.id in sa.final && Entitles(sa.final[r.value.id], regID, name, now)
                    && r.value.expires.Some? && r.value.expires.value > now + REUSE_MARGIN)
              && (admitted && !reused ==> (r.Some? <==> Fresh(old(sa.View()), candidates).Some?))
              && (admitted && !reused && r.Some? ==>
                    && Fresh(old(sa.View()), candidates) == Some(r.value.id) && r.value.status.Pending?
                    && r.value.regID == regID && r.value.identifier == requested.(value := name)
                    && r.value.expires == Some(now + policy.pendingLifetime) && PA.AllSane(r.value.challenges))
      ensures r.Some? ==> GetAuthorization(sa.View(), r.value.id) == r
      ensures r.None? ==> sa.View() == old(sa.View())
    {
      r := None;
      Advance(now);
      var identifier := requested.(value := ToLower(requested.value));
      if !willing {
        return;
      }
      var within := CheckLimits(limits, now, regID, identifier.value);
      if !within {
        return;
      }
      if policy.reuseValidAuthz {
        r := FindReusable(now, regID, identifier.value);
      }
      if r.None? {
        ghost var challenges, combinations;
        ghost var first := |sa.challenges|;
        r, challenges, combinations :=
          CreateAuthorization(now, regID, identifier, candidates, enabled, allowTLS02, random, perms);
        if r.Some? {
          NewIsStep(policy, system, candidates, regID, identifier, challenges, combinations, first, r.value);
          Follow([Create(candidates, regID, identifier, challenges, combinations, first)]);
        }
      }
    }

    /** The authorization that GetValidAuthorizations yields, read in full, if it lasts long enough. */
    method FindReusable(now: int, regID: int, name: string) returns (r: Option<Authorization>)
      requires Valid()
      ensures r.Some? <==> Reusable(sa.final, regID, name, now)
      ensures r.Some? ==>
                && r.value.id in sa.final && Entitles(sa.final[r.value.id], regID, name, now)
                && r.value.expires.Some? && r.value.expires.value > now + REUSE_MARGIN
                && GetAuthorization(sa.View(), r.value.id) == r
    {
      r := None;
      var auths := GetValidAuthorizations(sa.final, regID, [name], now);
      if name in auths.value {
        var populated := sa.ReadAuthorization(auths.value[name].id);
        if populated.value.expires.value > now + REUSE_MARGIN {
          r := populated;
        }
      }
    }

    /** The challenges that are stored pass the check that follows, and the authorization returned is
        the one in the database. */
    method CreateAuthorization(now: int, regID: int, identifier: Identifier, candidates: seq<string>,
                               enabled: set<string>, allowTLS02: bool, random: seq<Bytes>, perms: (nat, bool) -> seq<nat>)
      returns (r: Option<Authorization>, ghost challenges: seq<Challenge>, ghost combinations: seq<seq<int>>)
      requires sa.Valid()
      requires |random| == 4 && forall i | 0 <= i < 4 :: |random[i]| == 32
      requires forall n, b :: PA.Permutation(perms(n, b), n)
      modifies sa
      ensures sa.Valid() && Offer(challenges, combinations)
      ensures r.Some? <==> Fresh(old(sa.View()), candidates).Some?
      ensures r.None? ==> sa.View() == old(sa.View())
      ensures r.Some? ==>
                && Fresh(old(sa.View()), candidates) == Some(r.value.id)
                && r.value.regID == regID && r.value.identifier == identifier && r.value.status.Pending?
                && r.value.expires == Some(now + policy.pendingLifetime) && r.value.combinations == combinations
                && sa.View() == NewPending(old(sa.View()), r.value.id, r.value.(challenges := challenges), |old(sa.challenges)|)
                && GetAuthorization(sa.View(), r.value.id) == r
                && PA.AllSane(r.value.challenges)
    {
      var cs, combos := PA.ChallengesFor(enabled, allowTLS02, random, perms);
      challenges, combinations := cs, combos;
      var a := Authorization("", identifier, regID, Pending, Some(now + policy.pendingLifetime), cs, combos);
      var id := sa.NewPendingAuthorization(a, candidates);
      if id.None? {
        return None, challenges, combinations;
      }
      r := sa.ReadAuthorization(id.value);
      var stored := r.value.challenges;
      var sane := true;
      for i := 0 to |stored|
        invariant sane
      {
        sane := sane && IsSane(stored[i], false);
      }
      r := if sane then r else None;
    }

    /** A challenge request reads the authorization that it is about to answer. */
    method ReadToAnswer(id: string) returns (base: Option<Authorization>)
      requires Valid()
      modifies this`system
      ensures Valid() && system.now == old(system.now)
      ensures base == GetAuthorization(sa.View(), id)
      ensures system == if base.Some? then old(system).(bases := old(system).bases + {base.value}) else old(system)
    {
      base := sa.ReadAuthorization(id);
      ReachableStep(policy, system, Read(id));
      system := Apply(policy, system, Read(id));
    }

    /** What the caller has read decides whether it may ask; what is in the tables, what happens. */
    method DeactivateAuthorization(auth: Authorization) returns (ok: bool)
      requires Valid()
      modifies this`system, sa
      ensures Valid() && system.now == old(system.now)
      ensures ok <==> auth.status.Valid? || auth.status.Pending?
      ensures sa.View() == if ok then Deactivate(old(sa.View()), auth.id) else old(sa.View())
    {
      ok := auth.status.Valid? || auth.status.Pending?;
      if ok {
        sa.DeactivateAuthorization(auth.id);
        ReachableStep(policy, system, DeactivateStep(auth.id));
        system := Apply(policy, system, DeactivateStep(auth.id));
      }
    }

    /** The answered challenge is stored, and what is handed to the Validation Authority returned, by a
        request that has read the authorization. */
    method UpdateAuthorization(now: int, base: Authorization, slice: array<Challenge>, index: nat, provided: string,
                               thumbprint: Option<string>)
      returns (dispatched: Option<Validation>)
      requires Valid() && system.now <= now && base in system.bases && slice[..] == base.challenges
      modifies this`system, sa, slice
      ensures Valid() && system.now == now
      ensures dispatched.Some? ==> dispatched.value in system.validations
      ensures slice[..] == if Copied(policy, now, base, index, provided, thumbprint)
                           then base.challenges[index := base.challenges[index].(keyAuthorization := provided)]
                           else base.challenges
      ensures var answer := CheckAnswer(policy, now, base, index, provided, thumbprint);
              var stored := if answer.Proceed? then UpdatePending(old(sa.View()), answer.authz) else None;
              && (dispatched == if stored.Some? then Some(Validation(answer.authz, index)) else None)
              && (sa.View() == if stored.Some? then stored.value else old(sa.View()))
    {
      Advance(now);
      dispatched := StoreAnswer(now, base, slice, index, provided, thumbprint);
      if dispatched.Some? {
        UpdateIsSteps(policy, system, base, index, provided, thumbprint);
        Follow([Check(base, index, provided, thumbprint), Store(dispatched.value)]);
      }
    }

    /** `slice` is the caller's slice of challenges: the key authorization is written into it, also
        when the answer is then found not to be sane or cannot be stored. */
    method StoreAnswer(now: int, base: Authorization, slice: array<Challenge>, index: nat, provided: string,
                       thumbprint: Option<string>)
      returns (dispatched: Option<Validation>)
      requires sa.Valid() && slice[..] == base.challenges
      modifies sa, slice
      ensures sa.Valid()
      ensures slice[..] == if Copied(policy, now, base, index, provided, thumbprint)
                           then base.challenges[index := base.challenges[index].(keyAuthorization := provided)]
                           else base.challenges
      ensures var answer := CheckAnswer(policy, now, base, index, provided, thumbprint);
              var stored := if answer.Proceed? then UpdatePending(old(sa.View()), answer.authz) else None;
              && (dispatched == if stored.Some? then Some(Validation(answer.authz, index)) else None)
              && (sa.View() == if stored.Some? then stored.value else old(sa.View()))
    {
      dispatched := None;
      if base.expires.None? || base.expires.value < now || index >= |base.challenges| {
        return;
      }
      var authz := base;
      if policy.reuseValidAuthz && authz.status.Valid? {
        return;
      }
      if thumbprint.None? || ExpectedKeyAuthorization(slice[index], thumbprint.value) != provided {
        return;
      }
      slice[index] := slice[index].(keyAuthorization := provided);
      authz := authz.(challenges := slice[..]);
      if !IsSane(slice[index], true) {
        return;
      }
      var ok := sa.UpdatePendingAuthorization(authz);
      if ok {
        dispatched := Some(Validation(authz, index));
      }
    }

    /** The map of validated challenges and the loop over combinations in onValidationUpdate. */
    method Decide(now: int, a: Authorization) returns (authz: Authorization)
      ensures authz == Verdict(policy, now, a)
    {
      var validated: set<int> := {};
      for i := 0 to |a.challenges|
        invariant forall k :: k in validated <==> 0 <= k < i && a.challenges[k].status.Valid?
      {
        if a.challenges[i].status.Valid? {
          validated := validated + {i};
        }
      }
      authz := a;
      for c := 0 to |a.combinations|
        invariant authz == if a.status.Valid? || SomeFulfilled(a.combinations[..c], a.challenges) then a.(status := Status.Valid) else a
      {
        var combo := a.combinations[c];
        var comboValid := true;
        var k := 0;
        while k < |combo| && comboValid
          invariant 0 <= k <= |combo|
          invariant comboValid ==> forall j | 0 <= j < k :: combo[j] in validated
          invariant !comboValid ==> exists j | 0 <= j < k :: combo[j] !in validated
        {
          comboValid := combo[k] in validated;
          k := k + 1;
        }
        assert comboValid <==> Fulfilled(combo, a.challenges);
        FulfilledSnoc(a.combinations, a.challenges, c);
        if comboValid {
          authz := authz.(status := Status.Valid);
        }
      }
      assert a.combinations[..|a.combinations|] == a.combinations;
      if !authz.status.Valid? {
        authz := authz.(status := Invalid);
      } else {
        authz := authz.(expires := Some(now + policy.authorizationLifetime));
      }
    }

    method OnValidationUpdate(now: int, a: Authorization) returns (ok: bool)
      requires sa.Valid()
      modifies sa
      ensures sa.Valid()
      ensures ok <==> Finalize(old(sa.View()), Verdict(policy, now, a)).Some?
      ensures sa.View() == if ok then Finalize(old(sa.View()), Verdict(policy, now, a)).value else old(sa.View())
    {
      var authz := Decide(now, a);
      ok := sa.FinalizeAuthorization(authz);
    }

    /** The background goroutine, once the Validation Authority has answered. */
    method RecordValidation(now: int, v: Validation, slice: array<Challenge>, records: seq<ValidationRecord>,
                            problem: Option<string>)
      returns (ok: bool)
      requires Valid() && system.now <= now && v in system.validations
      requires v.index < |v.authz.challenges| && slice[..] == v.authz.challenges
      modifies this`system, sa, slice
      ensures Valid() && system.now == now
      ensures slice[..] == v.authz.challenges[v.index := Outcome(v.authz.challenges[v.index], records, problem)]
      ensures ok <==> v.authz.id in old(sa.pending)
      ensures ok <==> Finalize(old(sa.View()), Judged(policy, now, v, records, problem)).Some?
      ensures sa.View() == if ok then Finalize(old(sa.View()), Judged(policy, now, v, records, problem)).value
                           else old(sa.View())
    {
      Advance(now);
      ghost var verdict := Judged(policy, now, v, records, problem);
      assert Finalize(sa.View(), verdict).Some? <==> v.authz.id in sa.pending by {
        ReachableStep(policy, system, Validate(v, records, problem));
        FirstVerdictWins(policy, Apply(policy, system, Validate(v, records, problem)), verdict);
      }
      ok := JudgeAndFinalize(now, v, slice, records, problem);
      RecordIsSteps(policy, system, v, records, problem);
      Follow([Validate(v, records, problem), FinalizeStep(verdict)]);
    }

    /** It works on the slice that UpdateAuthorization wrote to, so that the caller sees the outcome there. */
    method JudgeAndFinalize(now: int, v: Validation, slice: array<Challenge>, records: seq<ValidationRecord>,
                            problem: Option<string>)
      returns (ok: bool)
      requires sa.Valid() && v.index < |v.authz.challenges| && slice[..] == v.authz.challenges
      modifies sa, slice
      ensures sa.Valid()
      ensures slice[..] == v.authz.challenges[v.index := Outcome(v.authz.challenges[v.index], records, problem)]
      ensures ok <==> Finalize(old(sa.View()), Judged(policy, now, v, records, problem)).Some?
      ensures sa.View() == if ok then Finalize(old(sa.View()), Judged(policy, now, v, records, problem)).value
                           else old(sa.View())
    {
      var authz := v.authz;
      var prob := problem;
      slice[v.index] := slice[v.index].(records := records);
      var challenge := slice[v.index];
      var sane := CheckRecords(challenge);
      if !sane && prob.None? {
        prob := Some("Records for validation failed sanity check");
      }
      if prob.Some? {
        challenge := challenge.(status := Invalid, error := prob);
      } else {
        challenge := challenge.(status := Status.Valid);
      }
      slice[v.index] := challenge;
      authz := authz.(challenges := slice[..]);
      assert challenge == Outcome(v.authz.challenges[v.index], records, problem);
      ok := OnValidationUpdate(now, authz);
    }
  }

  lemma FulfilledSnoc(combos: seq<seq<int>>, cs: seq<Challenge>, c: nat)
    requires c < |combos|
    ensures SomeFulfilled(combos[..c + 1], cs) <==> SomeFulfilled(combos[..c], cs) || Fulfilled(combos[c], cs)
  {
  }
}
