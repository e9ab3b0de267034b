/** What a challenge request does when nothing comes between its steps (ra/ra.go, sa/sa.go): from
    every reachable state, a right answer ends the authorization as the Validation Authority says. */
module AuthzProgress {
  import opened Prelude
  import opened Acme
  import opened AuthzStore
  import opened AuthzUpdate
  import opened AuthzLifecycle
  import opened AuthzRuns
  import opened ValidAuthorizations

  /** Whether the Validation Authority's report makes the challenge valid. */
  predicate Succeeds(ch: Challenge, records: seq<ValidationRecord>, problem: Option<string>) {
    problem.None? && RecordsSane(ch.(records := records))
  }

  function Answered(a: Authorization, index: nat, provided: string): Authorization
    requires index < |a.challenges|
  {
    a.(challenges := a.challenges[index := a.challenges[index].(keyAuthorization := provided)])
  }

  /** The verdict keeps everything but the challenge, the status and, when valid, the expiry. */
  lemma JudgedChanges(p: Policy, s: System, v: Validation, records: seq<ValidationRecord>, problem: Option<string>)
    requires Undecided(p, s.origins, s.db.challenges, v.authz) && v.index < |v.authz.challenges|
    requires StatusIsPending(v.authz.status)
    ensures var a, valid := Judged(p, s.now, v, records, problem), Succeeds(v.authz.challenges[v.index], records, problem);
            && a.id == v.authz.id && a.identifier == v.authz.identifier && a.regID == v.authz.regID
            && a.combinations == v.authz.combinations
            && a.status == (if valid then Valid else Invalid)
            && a.expires == (if valid then Some(s.now + p.authorizationLifetime) else v.authz.expires)
            && |a.challenges| == |v.authz.challenges|
            && (var ch, ch' := v.authz.challenges[v.index], a.challenges[v.index];
                && ch' == ch.(status := if valid then Valid else Invalid, records := records, error := ch'.error)
                && (problem.Some? ==> ch'.error == problem) && (valid ==> ch'.error == ch.error))
            && (forall k | 0 <= k < |a.challenges| && k != v.index :: a.challenges[k] == v.authz.challenges[k])
  {
    JudgedIsDecided(p, s.now, s.origins, s.db.challenges, v, records, problem);
  }

  /** The account can answer a challenge of a pending authorization. */
  predicate Ready(s: System, id: string, index: nat, thumbprint: string) {
    && id in s.db.pending && StatusIsPending(s.db.pending[id].status)
    && index < |ChallengesOf(s.db, id)| && LooksLikeAToken(ChallengesOf(s.db, id)[index].token)
    && LooksLikeAToken(thumbprint)
    && s.db.pending[id].expires.Some? && s.now <= s.db.pending[id].expires.value
  }

  /** The authorization as it is read, and the validation that a right answer starts. */
  function Copy(s: System, id: string): Authorization
    requires id in s.db.pending
  {
    FromRow(id, s.db.pending[id], ChallengesOf(s.db, id))
  }

  function Provided(s: System, id: string, index: nat, thumbprint: string): string
    requires Ready(s, id, index, thumbprint)
  {
    ChallengesOf(s.db, id)[index].token + "." + thumbprint
  }

  function Started(s: System, id: string, index: nat, thumbprint: string): Validation
    requires Ready(s, id, index, thumbprint)
  {
    Validation(Answered(Copy(s, id), index, Provided(s, id, index, thumbprint)), index)
  }

  /** The steps of UpdateAuthorization. */
  function Requesting(s: System, id: string, index: nat, thumbprint: string): seq<Step>
    requires Ready(s, id, index, thumbprint)
  {
    [Read(id), Check(Copy(s, id), index, Provided(s, id, index, thumbprint), Some(thumbprint)), Store(Started(s, id, index, thumbprint))]
  }

  /** The steps of its background goroutine. */
  function Recording(p: Policy, now: int, v: Validation, records: seq<ValidationRecord>, problem: Option<string>): seq<Step>
    requires v.index < |v.authz.challenges|
  {
    [Validate(v, records, problem), FinalizeStep(Judged(p, now, v, records, problem))]
  }

  lemma AnswerPasses(p: Policy, s: System, id: string, index: nat, thumbprint: string)
    requires Ready(s, id, index, thumbprint) && Undecided(p, s.origins, s.db.challenges, Copy(s, id))
    ensures CheckAnswer(p, s.now, Copy(s, id), index, Provided(s, id, index, thumbprint), Some(thumbprint))
            == Proceed(Started(s, id, index, thumbprint).authz)
    ensures Undecided(p, s.origins, s.db.challenges, Started(s, id, index, thumbprint).authz)
  {
    var a, provided := Copy(s, id), Provided(s, id, index, thumbprint);
    assert a.challenges[index].status.Pending?;
    AnswerAcceptedIff(p, s.now, a, index, provided, Some(thumbprint));
    AnswerIsUndecided(p, s.now, s.origins, s.db.challenges, a, index, provided, Some(thumbprint));
  }

  /** Reading, answering and storing leave the rows as they were. */
  lemma StartsValidation(p: Policy, s: System, id: string, index: nat, thumbprint: string) returns (s': System)
    requires Ready(s, id, index, thumbprint) && id !in s.db.final && Undecided(p, s.origins, s.db.challenges, Copy(s, id))
    ensures var v := Started(s, id, index, thumbprint);
            && s' == Run(p, s, Requesting(s, id, index, thumbprint)) && v in s'.validations && s'.now == s.now && s'.origins == s.origins
            && s'.db.pending == s.db.pending && s'.db.final == s.db.final
            && Undecided(p, s'.origins, s'.db.challenges, v.authz)
  {
    var a, provided, v := Copy(s, id), Provided(s, id, index, thumbprint), Started(s, id, index, thumbprint);
    AnswerPasses(p, s, id, index, thumbprint);
    var s1 := s.(bases := s.bases + {a});
    assert s1 == Apply(p, s, Read(id));
    var s2 := s1.(answers := s1.answers + {v});
    assert s2 == Apply(p, s1, Check(a, index, provided, Some(thumbprint)));
    UpdateIsRead(s.db, v.authz);
    s' := Apply(p, s2, Store(v));
    assert s'.db == UpdatePending(s.db, v.authz).value;
    ThreeSteps(p, s, Read(id), Check(a, index, provided, Some(thumbprint)), Store(v));
  }

  /** Judging and finalizing move the authorization to the final table. */
  lemma EndsValidation(p: Policy, s: System, v: Validation, records: seq<ValidationRecord>, problem: Option<string>) returns (s': System)
    requires v in s.validations && v.index < |v.authz.challenges| && StatusIsPending(v.authz.status)
    requires v.authz.id in s.db.pending && v.authz.id !in s.db.final && Undecided(p, s.origins, s.db.challenges, v.authz)
    ensures s' == Run(p, s, Recording(p, s.now, v, records, problem))
    ensures var a, valid := v.authz, Succeeds(v.authz.challenges[v.index], records, problem);
            && s'.db.pending == s.db.pending - {a.id}
            && s'.db.final == s.db.final[a.id := Row(a.identifier, a.regID, if valid then Valid else Invalid,
                                                    if valid then Some(s.now + p.authorizationLifetime) else a.expires, a.combinations)]
            && |ChallengesOf(s'.db, a.id)| == |a.challenges|
            && ChallengesOf(s'.db, a.id)[v.index].status == (if valid then Valid else Invalid)
            && ChallengesOf(s'.db, a.id)[v.index].records == records
  {
    var verdict := Judged(p, s.now, v, records, problem);
    JudgedChanges(p, s, v, records, problem);
    FinalizeIsRead(s.db, verdict);
    var judged := s.(verdicts := s.verdicts + {verdict});
    assert judged == Apply(p, s, Validate(v, records, problem));
    s' := Apply(p, judged, FinalizeStep(verdict));
    assert s'.db == Finalize(s.db, verdict).value;
    TwoSteps(p, s, Validate(v, records, problem), FinalizeStep(verdict));
  }

  /** In every reachable state, a right answer to a challenge of a pending, unexpired authorization ends
      it: it moves to the final table for the same account and name, valid for the configured time from
      now if the validation succeeds, and otherwise invalid with the expiry it had. No other row changes. */
  lemma UndisturbedValidation(p: Policy, s: System, id: string, index: nat, thumbprint: string,
                              records: seq<ValidationRecord>, problem: Option<string>) returns (db: Db)
    requires Reachable(p, s) && Ready(s, id, index, thumbprint)
    ensures db == Run(p, s, Requesting(s, id, index, thumbprint)
                            + Recording(p, s.now, Started(s, id, index, thumbprint), records, problem)).db
    ensures var row, valid := s.db.pending[id], Succeeds(Started(s, id, index, thumbprint).authz.challenges[index], records, problem);
            && db.pending == s.db.pending - {id}
            && db.final == s.db.final[id := Row(row.identifier, row.regID, if valid then Valid else Invalid,
                                               if valid then Some(s.now + p.authorizationLifetime) else row.expires, row.combinations)]
            && |ChallengesOf(db, id)| == |ChallengesOf(s.db, id)|
            && ChallengesOf(db, id)[index].status == (if valid then Valid else Invalid)
            && ChallengesOf(db, id)[index].records == records
  {
    PendingIsUndecided(p, s, id);
    var v := Started(s, id, index, thumbprint);
    var started := StartsValidation(p, s, id, index, thumbprint);
    var ended := EndsValidation(p, started, v, records, problem);
    db := ended.db;
    RunSplit(p, s, Requesting(s, id, index, thumbprint), Recording(p, s.now, v, records, problem));
  }

  lemma PendingIsUndecided(p: Policy, s: System, id: string)
    requires Reachable(p, s) && id in s.db.pending
    ensures id !in s.db.final && Undecided(p, s.origins, s.db.challenges, Copy(s, id))
  {
    ReachableKeeps(p, s);
    assert PendingRow(p, s, id);
  }

  /** What an entitlement rests on, in every reachable state: an authorization that the account asked for,
      for that name, one of whose challenges is valid with sane records. */
  lemma EntitledWasValidated(p: Policy, s: System, regID: int, name: string, now: int) returns (id: string, k: nat)
    requires Reachable(p, s) && Entitled(s.db.final, regID, name, now)
    ensures id in s.origins && s.origins[id].regID == regID && s.origins[id].identifier == Identifier("dns", name)
    ensures id in s.db.final && s.db.final[id].status == Valid && s.db.final[id].expires.Some? && now < s.db.final[id].expires.value
    ensures k < |ChallengesOf(s.db, id)| && ChallengesOf(s.db, id)[k].status == Valid && RecordsSane(ChallengesOf(s.db, id)[k])
  {
    ReachableKeeps(p, s);
    id :| id in s.db.final && Entitles(s.db.final[id], regID, name, now);
    assert FinalRow(p, s, id);
    k :| DecidedAt(ChallengesOf(s.db, id), true, k);
  }

  /** And it is what a successful validation gives the account, until the expiry. */
  lemma ValidationEntitles(p: Policy, s: System, id: string, index: nat, thumbprint: string, records: seq<ValidationRecord>,
                           name: string, now: int) returns (db: Db)
    requires Reachable(p, s) && Ready(s, id, index, thumbprint) && s.db.pending[id].identifier == Identifier("dns", name)
    requires Succeeds(Started(s, id, index, thumbprint).authz.challenges[index], records, None)
    ensures db == Run(p, s, Requesting(s, id, index, thumbprint)
                            + Recording(p, s.now, Started(s, id, index, thumbprint), records, None)).db
    ensures now < s.now + p.authorizationLifetime ==> Entitled(db.final, s.db.pending[id].regID, name, now)
  {
    db := UndisturbedValidation(p, s, id, index, thumbprint, records, None);
    assert id in db.final;
  }
}
