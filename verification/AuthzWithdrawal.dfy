/** Deactivating or revoking an authorization that is still in the pending table is not final:
    work on it that is under way can overtake the withdrawal. This module says exactly when, in
    terms of what challenge requests and validations hold at the moment. */
module AuthzWithdrawal {
  import opened Prelude
  import opened Acme
  import opened AuthzStore
  import opened AuthzUpdate
  import opened AuthzLifecycle
  import opened AuthzRuns

  predicate Withdrawn(s: System, id: string) {
    id in s.db.pending && !StatusIsPending(s.db.pending[id].status)
  }

  predicate IsValid(db: Db, id: string) {
    id in db.final && db.final[id].status.Valid?
  }

  /** Unexpired, with a pending challenge that has a token. */
  predicate Answerable(now: int, a: Authorization) {
    && a.expires.Some? && now <= a.expires.value
    && exists i | 0 <= i < |a.challenges| :: a.challenges[i].status.Pending? && LooksLikeAToken(a.challenges[i].token)
  }

  /** That is when some answer to a copy that is not valid is accepted. */
  lemma AnswerableIff(p: Policy, now: int, a: Authorization)
    requires !a.status.Valid?
    ensures Answerable(now, a) <==>
            exists index, provided, thumbprint :: CheckAnswer(p, now, a, index, provided, thumbprint).Proceed?
  {
    if Answerable(now, a) {
      var i :| 0 <= i < |a.challenges| && a.challenges[i].status.Pending? && LooksLikeAToken(a.challenges[i].token);
      var thumbprint := seq(43, _ => 'a');
      var provided := ExpectedKeyAuthorization(a.challenges[i], thumbprint);
      AnswerAcceptedIff(p, now, a, i, provided, Some(thumbprint));
      assert CheckAnswer(p, now, a, i, provided, Some(thumbprint)).Proceed?;
    }
    forall index: nat, provided, thumbprint | CheckAnswer(p, now, a, index, provided, thumbprint).Proceed?
      ensures Answerable(now, a)
    {
      assert a.challenges[index].status.Pending?;
    }
  }

  /** Some caller holds a pending copy of which it can still answer a challenge. */
  predicate CopyHeld(now: int, bases: set<Authorization>, id: string) {
    exists a | a in bases :: a.id == id && StatusIsPending(a.status) && Answerable(now, a)
  }

  ghost predicate AnswerWaiting(answers: set<Validation>, id: string) {
    exists v | v in answers :: v.authz.id == id && StatusIsPending(v.authz.status)
  }

  ghost predicate Validating(validations: set<Validation>, id: string) {
    exists v | v in validations :: v.authz.id == id
  }

  ghost predicate Succeeded(verdicts: set<Authorization>, id: string) {
    exists a | a in verdicts :: a.id == id && a.status.Valid?
  }

  ghost predicate UnderWay(s: System, id: string) {
    || CopyHeld(s.now, s.bases, id)
    || AnswerWaiting(s.answers, id)
    || Validating(s.validations, id)
    || Succeeded(s.verdicts, id)
  }

  ghost predicate CanBecomeValid(p: Policy, s: System, id: string) {
    exists steps :: IsValid(Run(p, s, steps).db, id)
  }

  // ---------------------------------------------------------------- nothing under way: never valid

  ghost predicate Quiet(s: System, id: string) {
    || (Withdrawn(s, id) && !UnderWay(s, id))
    || (id in s.db.final && !s.db.final[id].status.Valid?)
  }

  lemma StaysWithdrawn(p: Policy, s: System, step: Step, id: string)
    requires Tables(s) && Withdrawn(s, id) && !UnderWay(s, id)
    ensures var db := Apply(p, s, step).db;
            Withdrawn(Apply(p, s, step), id) || (id in db.final && !db.final[id].status.Valid?)
  {
    match step
    case Create(candidates, _, _, _, _, _) => FreshIsFresh(s.db, candidates);
    case Store(answer) => assert answer in s.answers && answer.authz.id == id ==> !StatusIsPending(answer.authz.status);
    case _ =>
  }

  lemma NoCopyHeld(p: Policy, s: System, step: Step, id: string)
    requires Withdrawn(s, id) && !CopyHeld(s.now, s.bases, id)
    ensures !CopyHeld(Apply(p, s, step).now, Apply(p, s, step).bases, id)
  {
  }

  lemma NothingStarts(p: Policy, s: System, step: Step, id: string)
    requires !UnderWay(s, id)
    ensures var s' := Apply(p, s, step);
            !AnswerWaiting(s'.answers, id) && !Validating(s'.validations, id) && !Succeeded(s'.verdicts, id)
  {
    match step
    case Check(base, index, provided, thumbprint) =>
      if base in s.bases && base.id == id && StatusIsPending(base.status) {
        AnswerableIff(p, s.now, base);
      }
    case _ =>
  }

  lemma QuietStep(p: Policy, s: System, step: Step, id: string)
    requires Inv(p, s) && Quiet(s, id)
    ensures Quiet(Apply(p, s, step), id)
  {
    if id in s.db.final {
      StepIsLater(p, s, step);
    } else {
      StaysWithdrawn(p, s, step, id);
      NoCopyHeld(p, s, step, id);
      NothingStarts(p, s, step, id);
    }
  }

  lemma {:induction false} QuietRun(p: Policy, s: System, steps: seq<Step>, id: string)
    requires Inv(p, s) && Quiet(s, id)
    ensures Quiet(Run(p, s, steps), id) && Inv(p, Run(p, s, steps))
  {
    if |steps| > 0 {
      var n := |steps| - 1;
      QuietRun(p, s, steps[..n], id);
      QuietStep(p, Run(p, s, steps[..n]), steps[n], id);
      StepKeeps(p, Run(p, s, steps[..n]), steps[n]);
    }
  }

  // ---------------------------------------------------------------- under way: can become valid

  lemma FirstStep(p: Policy, s: System, step: Step, id: string)
    requires CanBecomeValid(p, Apply(p, s, step), id)
    ensures CanBecomeValid(p, s, id)
  {
    var rest :| IsValid(Run(p, Apply(p, s, step), rest).db, id);
    RunSplit(p, s, [step], rest);
    assert [step][..0] == [];
    assert Run(p, s, [step]) == Apply(p, s, step);
    assert IsValid(Run(p, s, [step] + rest).db, id);
  }

  lemma FromVerdict(p: Policy, s: System, a: Authorization)
    requires Inv(p, s) && a in s.verdicts && a.status.Valid? && a.id in s.db.pending
    ensures CanBecomeValid(p, s, a.id)
  {
    var s' := Apply(p, s, FinalizeStep(a));
    assert IsValid(Run(p, s', []).db, a.id);
    FirstStep(p, s, FinalizeStep(a), a.id);
  }

  /** Records that pass the sanity check for each kind of challenge there is. */
  function GoodRecords(kind: string): seq<ValidationRecord> {
    var r := ValidationRecord("", "example.com", "80", ["192.0.2.1"], Some("192.0.2.1"));
    [if kind == HTTP01 then r.(url := "http://example.com/") else r]
  }

  /** With good records a running validation ends in a valid verdict. */
  lemma ValidationSucceeds(p: Policy, s: System, v: Validation, step: Step)
    requires v in s.validations && StatusIsPending(v.authz.status)
    requires Undecided(p, s.origins, s.db.challenges, v.authz) && v.index < |v.authz.challenges|
    requires step == Validate(v, GoodRecords(v.authz.challenges[v.index].kind), None)
    ensures var a := Judged(p, s.now, v, step.records, None);
            a.status.Valid? && a.id == v.authz.id && Apply(p, s, step) == s.(verdicts := s.verdicts + {a})
  {
    var ch := v.authz.challenges[v.index];
    assert KnownKind(ch.kind);
    assert RecordsSane(ch.(records := GoodRecords(ch.kind)));
    JudgedIsDecided(p, s.now, s.origins, s.db.challenges, v, GoodRecords(ch.kind), None);
  }

  lemma FromValidation(p: Policy, s: System, v: Validation)
    requires Inv(p, s) && v in s.validations && v.authz.id in s.db.pending
    ensures CanBecomeValid(p, s, v.authz.id)
  {
    var step := Validate(v, GoodRecords(v.authz.challenges[v.index].kind), None);
    ValidationSucceeds(p, s, v, step);
    StepKeeps(p, s, step);
    FromVerdict(p, Apply(p, s, step), Judged(p, s.now, v, step.records, None));
    FirstStep(p, s, step, v.authz.id);
  }

  /** Storing an answer overwrites whatever status the pending row had. */
  lemma StoreSucceeds(p: Policy, s: System, v: Validation)
    requires Tables(s) && v in s.answers && StatusIsPending(v.authz.status) && v.authz.id in s.db.pending
    requires Undecided(p, s.origins, s.db.challenges, v.authz)
    ensures var s' := Apply(p, s, Store(v));
            && v in s'.validations && v.authz.id in s'.db.pending
            && s'.db.pending[v.authz.id].status == v.authz.status
  {
  }

  lemma FromAnswer(p: Policy, s: System, v: Validation)
    requires Inv(p, s) && v in s.answers && StatusIsPending(v.authz.status) && v.authz.id in s.db.pending
    ensures CanBecomeValid(p, s, v.authz.id)
  {
    StoreSucceeds(p, s, v);
    StepKeeps(p, s, Store(v));
    FromValidation(p, Apply(p, s, Store(v)), v);
    FirstStep(p, s, Store(v), v.authz.id);
  }

  lemma FromCopy(p: Policy, s: System, a: Authorization)
    requires Inv(p, s) && a in s.bases && StatusIsPending(a.status) && Answerable(s.now, a) && a.id in s.db.pending
    ensures CanBecomeValid(p, s, a.id)
  {
    AnswerableIff(p, s.now, a);
    var index, provided, thumbprint :| CheckAnswer(p, s.now, a, index, provided, thumbprint).Proceed?;
    var step := Check(a, index, provided, thumbprint);
    var v := CheckAdds(p, s, a, index, provided, thumbprint);
    var s' := Apply(p, s, step);
    StepKeeps(p, s, step);
    FromAnswer(p, s', v);
    FirstStep(p, s, step, a.id);
  }

  lemma CheckAdds(p: Policy, s: System, a: Authorization, index: nat, provided: string, thumbprint: Option<string>)
    returns (v: Validation)
    requires a in s.bases && CheckAnswer(p, s.now, a, index, provided, thumbprint).Proceed?
    ensures Apply(p, s, Check(a, index, provided, thumbprint)) == s.(answers := s.answers + {v})
    ensures v.authz.id == a.id && v.authz.status == a.status
  {
    v := Validation(CheckAnswer(p, s.now, a, index, provided, thumbprint).authz, index);
  }

  /** A withdrawn authorization that is still in the pending table can become valid if and only if a
      challenge request, an answer, a validation or a successful verdict on it is held now. */
  lemma WithdrawalHoldsUnlessUnderWay(p: Policy, s: System, id: string)
    requires Reachable(p, s) && Withdrawn(s, id)
    ensures CanBecomeValid(p, s, id) <==> UnderWay(s, id)
  {
    ReachableKeeps(p, s);
    if CopyHeld(s.now, s.bases, id) {
      var a :| a in s.bases && a.id == id && StatusIsPending(a.status) && Answerable(s.now, a);
      FromCopy(p, s, a);
    } else if AnswerWaiting(s.answers, id) {
      var v :| v in s.answers && v.authz.id == id && StatusIsPending(v.authz.status);
      FromAnswer(p, s, v);
    } else if Validating(s.validations, id) {
      var v :| v in s.validations && v.authz.id == id;
      FromValidation(p, s, v);
    } else if Succeeded(s.verdicts, id) {
      var a :| a in s.verdicts && a.id == id && a.status.Valid?;
      FromVerdict(p, s, a);
    } else if CanBecomeValid(p, s, id) {
      var steps :| IsValid(Run(p, s, steps).db, id);
      QuietRun(p, s, steps, id);
    }
  }

  /** Deactivating a pending authorization on which nothing is under way is final. */
  lemma DeactivationAtRestHolds(p: Policy, s: System, id: string, steps: seq<Step>)
    requires Reachable(p, s) && id in s.db.pending && s.db.pending[id].status.Pending? && !UnderWay(s, id)
    ensures !IsValid(Run(p, Apply(p, s, DeactivateStep(id)), steps).db, id)
  {
    var s' := Apply(p, s, DeactivateStep(id));
    ReachableStep(p, s, DeactivateStep(id));
    WithdrawalHoldsUnlessUnderWay(p, s', id);
  }

  /** Once everyone has let go of what they held, a withdrawal is final. */
  lemma LettingGoEndsIt(p: Policy, s: System, id: string, steps: seq<Step>)
    requires Reachable(p, s) && Withdrawn(s, id)
    ensures var rest := Apply(p, s, LetGo(s.bases, s.answers, s.validations, s.verdicts, s.batches));
            rest.db == s.db && !IsValid(Run(p, rest, steps).db, id)
  {
    var step := LetGo(s.bases, s.answers, s.validations, s.verdicts, s.batches);
    var rest := Apply(p, s, step);
    ReachableStep(p, s, step);
    WithdrawalHoldsUnlessUnderWay(p, rest, id);
  }

  /** An authorization that has just been created and read by someone. */
  lemma CopyInHand(p: Policy, token: string) returns (s: System, a: Authorization)
    requires LooksLikeAToken(token)
    ensures Reachable(p, s) && s.now == 0 && a in s.bases
    ensures "a" in s.db.pending && s.db.pending["a"].status.Pending?
    ensures a.id == "a" && a.status.Pending? && a.expires == Some(p.pendingLifetime)
    ensures |a.challenges| == 1 && a.challenges[0].status.Pending? && a.challenges[0].token == token
  {
    var ch := Challenge(0, HTTP01, Pending, None, token, "", []);
    var create := Create(["a"], 1, Identifier(IDENTIFIER_DNS, "example.com"), [ch], [[0]], 0);
    s := Start(0);
    assert s == Run(p, Start(0), []);
    ReachableStep(p, s, create);
    assert [0] in [[0]] && Offer([ch], [[0]]);
    s := Apply(p, s, create);
    assert ChallengesOf(s.db, "a") == NumberedFrom([ch], 0);
    a := GetAuthorization(s.db, "a").value;
    ReachableStep(p, s, Read("a"));
    s := Apply(p, s, Read("a"));
  }

  /** And it does happen: an authorization is created, read by someone, and deactivated. */
  lemma DeactivatedCanBecomeValid(p: Policy, token: string) returns (s: System)
    requires LooksLikeAToken(token) && p.pendingLifetime >= 0
    ensures Reachable(p, s) && Withdrawn(s, "a") && s.db.pending["a"].status.Deactivated?
    ensures CanBecomeValid(p, s, "a")
  {
    var a;
    s, a := CopyInHand(p, token);
    assert Answerable(0, a);
    ReachableStep(p, s, DeactivateStep("a"));
    s := Apply(p, s, DeactivateStep("a"));
    WithdrawalHoldsUnlessUnderWay(p, s, "a");
  }
}
