/** The authorization lifecycle as a state machine: requests, reads, answers, background
    validations, deactivation and batch revocation interleave in any order. What a process has
    read or worked out stays with it, however stale, until the process lets go of it. */
module AuthzLifecycle {
  import opened Prelude
  import opened Acme
  import opened AuthzStore
  import opened AuthzUpdate

  /** What was asked for, and when. */
  datatype Origin = Origin(at: int, regID: int, identifier: Identifier)

  datatype Validation = Validation(authz: Authorization, index: nat)

  datatype Batch = Batch(inFinal: bool, ids: set<string>)

  /** What is held now, and by whom. Several holders may hold equal values, so a value stays until the
      last of them lets go of it, which may happen at any time. */
  datatype System = System(
    db: Db,
    now: int,
    origins: map<string, Origin>,       // every authorization ever created
    bases: set<Authorization>,          // read by a challenge request that may yet answer
    answers: set<Validation>,           // checked by UpdateAuthorization, not yet stored
    validations: set<Validation>,       // stored and dispatched to the Validation Authority
    verdicts: set<Authorization>,       // decided by onValidationUpdate, not yet finalized
    batches: set<Batch>)                // IDs selected by RevokeAuthorizationsByDomain

  datatype Step =
    | Create(candidates: seq<string>, regID: int, identifier: Identifier,
             challenges: seq<Challenge>, combinations: seq<seq<int>>, firstChallenge: int)
    | Read(id: string)
    | Check(base: Authorization, index: nat, provided: string, thumbprint: Option<string>)
    | Store(answer: Validation)
    | Validate(running: Validation, records: seq<ValidationRecord>, problem: Option<string>)
    | FinalizeStep(verdict: Authorization)
    | DeactivateStep(target: string)
    | SelectBatch(inFinal: bool, ident: Identifier, since: int, chosen: set<string>)
    | RevokeBatch(batch: Batch)
    | LetGo(oldBases: set<Authorization>, oldAnswers: set<Validation>, oldValidations: set<Validation>,
            oldVerdicts: set<Authorization>, oldBatches: set<Batch>)
    | Tick(elapsed: nat)

  /** One singleton combination per challenge, in any order. */
  predicate Singletons(combos: seq<seq<int>>, n: nat) {
    && (forall c | 0 <= c < |combos| :: |combos[c]| == 1 && 0 <= combos[c][0] < n)
    && (forall i | 0 <= i < n :: [i] in combos)
  }

  predicate AllPending(cs: seq<Challenge>) {
    forall k | 0 <= k < |cs| :: cs[k].status.Pending?
  }

  predicate AllKnown(cs: seq<Challenge>) {
    forall k | 0 <= k < |cs| :: KnownKind(cs[k].kind)
  }

  /** What ChallengesFor hands to a new authorization. */
  predicate Offer(cs: seq<Challenge>, combos: seq<seq<int>>) {
    AllPending(cs) && AllKnown(cs) && Singletons(combos, |cs|)
  }

  function Created(p: Policy, s: System, id: string, regID: int, identifier: Identifier,
                   challenges: seq<Challenge>, combinations: seq<seq<int>>, firstChallenge: int): System
  {
    var a := Authorization("", identifier, regID, Pending, Some(s.now + p.pendingLifetime), challenges, combinations);
    s.(db := NewPending(s.db, id, a, firstChallenge), origins := s.origins[id := Origin(s.now, regID, identifier)])
  }

  function Judged(p: Policy, now: int, v: Validation, records: seq<ValidationRecord>, problem: Option<string>): Authorization
    requires v.index < |v.authz.challenges|
  {
    var ch := Outcome(v.authz.challenges[v.index], records, problem);
    Verdict(p, now, v.authz.(challenges := v.authz.challenges[v.index := ch]))
  }

  function BatchRevoked(s: System, batch: Batch): System {
    if batch.inFinal then s.(db := s.db.(final := MarkRevoked(s.db.final, batch.ids)))
    else s.(db := s.db.(pending := MarkRevoked(s.db.pending, batch.ids)))
  }

  function Apply(p: Policy, s: System, step: Step): System {
    match step
    case Create(candidates, regID, identifier, challenges, combinations, firstChallenge) =>
      var id := Fresh(s.db, candidates);
      if id.Some? && Offer(challenges, combinations)
      then Created(p, s, id.value, regID, identifier, challenges, combinations, firstChallenge)
      else s
    case Read(id) =>
      var a := GetAuthorization(s.db, id);
      if a.Some? then s.(bases := s.bases + {a.value}) else s
    case Check(base, index, provided, thumbprint) =>
      var r := CheckAnswer(p, s.now, base, index, provided, thumbprint);
      if base in s.bases && r.Proceed? then s.(answers := s.answers + {Validation(r.authz, index)}) else s
    case Store(answer) =>
      var r := UpdatePending(s.db, answer.authz);
      if answer in s.answers && r.Some? then s.(db := r.value, validations := s.validations + {answer}) else s
    case Validate(v, records, problem) =>
      if v in s.validations && v.index < |v.authz.challenges|
      then s.(verdicts := s.verdicts + {Judged(p, s.now, v, records, problem)})
      else s
    case FinalizeStep(verdict) =>
      var r := Finalize(s.db, verdict);
      if verdict in s.verdicts && r.Some? then s.(db := r.value) else s
    case DeactivateStep(id) =>
      s.(db := Deactivate(s.db, id))
    case SelectBatch(inFinal, ident, since, chosen) =>
      if chosen <= Revocable(if inFinal then s.db.final else s.db.pending, ident, since)
      then s.(batches := s.batches + {Batch(inFinal, chosen)})
      else s
    case RevokeBatch(batch) =>
      if batch in s.batches then BatchRevoked(s, batch) else s
    case LetGo(bases, answers, validations, verdicts, batches) =>
      s.(bases := s.bases - bases, answers := s.answers - answers, validations := s.validations - validations,
         verdicts := s.verdicts - verdicts, batches := s.batches - batches)
    case Tick(elapsed) =>
      s.(now := s.now + elapsed)
  }

  function Start(now: int): System {
    System(Db(map[], map[], map[]), now, map[], {}, {}, {}, {}, {})
  }

  function Run(p: Policy, s: System, steps: seq<Step>): System {
    if |steps| == 0 then s
    else Apply(p, Run(p, s, steps[..|steps| - 1]), steps[|steps| - 1])
  }

  // ---------------------------------------------------------------- the invariant

  type Origins = map<string, Origin>
  type Challenges = map<string, seq<Challenge>>

  /** The authorization is for the account and name it was created for, with as many
      challenges as it was created with. */
  predicate Matches(o: Origins, t: Challenges, a: Authorization) {
    && a.id in o && a.id in t
    && a.regID == o[a.id].regID
    && a.identifier == o[a.id].identifier
    && |a.challenges| == |t[a.id]|
  }

  predicate ExpiresAsCreated(p: Policy, o: Origins, a: Authorization) {
    a.id in o && a.expires == Some(o[a.id].at + p.pendingLifetime)
  }

  /** An authorization on which no validation has been decided. */
  predicate Undecided(p: Policy, o: Origins, t: Challenges, a: Authorization) {
    Matches(o, t, a) && ExpiresAsCreated(p, o, a) && Offer(a.challenges, a.combinations)
  }

  /** Challenge k alone has been decided, valid (with sane records) or invalid. */
  predicate DecidedAt(cs: seq<Challenge>, valid: bool, k: int) {
    && 0 <= k < |cs|
    && (if valid then cs[k].status.Valid? && RecordsSane(cs[k]) else cs[k].status.Invalid?)
    && forall j | 0 <= j < |cs| && j != k :: cs[j].status.Pending?
  }

  ghost predicate OneDecided(cs: seq<Challenge>, valid: bool) {
    exists k :: DecidedAt(cs, valid, k)
  }

  /** An authorization carrying the one outcome it was decided on; `valid` is that outcome. */
  ghost predicate Decided(p: Policy, o: Origins, t: Challenges, a: Authorization, valid: bool) {
    Matches(o, t, a) && (!valid ==> ExpiresAsCreated(p, o, a)) && OneDecided(a.challenges, valid)
  }

  predicate Tables(s: System) {
    && s.db.pending.Keys !! s.db.final.Keys
    && s.origins.Keys == s.db.challenges.Keys == s.db.pending.Keys + s.db.final.Keys
    && (forall id | id in s.origins :: s.origins[id].at <= s.now)
  }

  predicate PendingRow(p: Policy, s: System, id: string) {
    id in s.db.pending ==>
      Undecided(p, s.origins, s.db.challenges, FromRow(id, s.db.pending[id], ChallengesOf(s.db, id)))
  }

  ghost predicate FinalRow(p: Policy, s: System, id: string) {
    id in s.db.final ==>
      && !StatusIsPending(s.db.final[id].status)
      && Decided(p, s.origins, s.db.challenges, FromRow(id, s.db.final[id], ChallengesOf(s.db, id)),
                 !s.db.final[id].status.Invalid?)
  }

  ghost predicate Rows(p: Policy, s: System) {
    && (forall id | id in s.db.pending :: PendingRow(p, s, id))
    && (forall id | id in s.db.final :: FinalRow(p, s, id))
  }

  predicate HeldBases(p: Policy, o: Origins, t: Challenges, held: set<Authorization>) {
    forall a | a in held :: StatusIsPending(a.status) ==> Undecided(p, o, t, a)
  }

  predicate HeldAnswers(p: Policy, o: Origins, t: Challenges, held: set<Validation>) {
    forall v | v in held ::
      StatusIsPending(v.authz.status) ==> Undecided(p, o, t, v.authz) && v.index < |v.authz.challenges|
  }

  predicate Dispatched(held: set<Validation>) {
    forall v | v in held :: StatusIsPending(v.authz.status)
  }

  ghost predicate HeldVerdicts(p: Policy, o: Origins, t: Challenges, held: set<Authorization>) {
    forall a | a in held :: (a.status.Valid? || a.status.Invalid?) && Decided(p, o, t, a, a.status.Valid?)
  }

  /** Rows selected from the final table for revocation had not failed validation. */
  predicate HeldBatches(db: Db, held: set<Batch>) {
    forall b, id | b in held && b.inFinal && id in b.ids :: id in db.final && !db.final[id].status.Invalid?
  }

  ghost predicate Held(p: Policy, s: System, o: Origins, t: Challenges) {
    && HeldBases(p, o, t, s.bases)
    && HeldAnswers(p, o, t, s.answers)
    && HeldAnswers(p, o, t, s.validations)
    && Dispatched(s.validations)
    && HeldVerdicts(p, o, t, s.verdicts)
  }

  ghost predicate Inv(p: Policy, s: System) {
    && Tables(s)
    && Rows(p, s)
    && Held(p, s, s.origins, s.db.challenges)
    && HeldBatches(s.db, s.batches)
  }

  // ---------------------------------------------------------------- each step keeps it

  /** Origins are never forgotten and no authorization gains or loses challenges. */
  predicate Extends(o: Origins, t: Challenges, o': Origins, t': Challenges) {
    && (forall id | id in o :: id in o' && o'[id] == o[id])
    && (forall id | id in t :: id in t' && |t'[id]| == |t[id]|)
  }

  lemma HeldExtends(p: Policy, s: System, o: Origins, t: Challenges, o': Origins, t': Challenges)
    requires Held(p, s, o, t) && Extends(o, t, o', t')
    ensures Held(p, s, o', t')
  {
  }

  /** Nothing about this authorization differs between the two databases but, perhaps, a
      status that stays on the same side of having failed. */
  predicate SameButStatus(db: Db, db': Db, id: string) {
    && (id in db.pending <==> id in db'.pending)
    && (id in db.pending ==> db'.pending[id] == db.pending[id].(status := db'.pending[id].status))
    && (id in db.final <==> id in db'.final)
    && (id in db.final ==>
          && db'.final[id] == db.final[id].(status := db'.final[id].status)
          && !StatusIsPending(db'.final[id].status)
          && (db'.final[id].status.Invalid? <==> db.final[id].status.Invalid?))
    && ChallengesOf(db', id) == ChallengesOf(db, id)
  }

  lemma RowFrame(p: Policy, s: System, s': System, id: string)
    requires PendingRow(p, s, id) && FinalRow(p, s, id)
    requires Extends(s.origins, s.db.challenges, s'.origins, s'.db.challenges)
    requires SameButStatus(s.db, s'.db, id)
    ensures PendingRow(p, s', id) && FinalRow(p, s', id)
  {
  }

  /** A step that rewrites one authorization, and statuses of others, keeps the invariant
      when it keeps it for that authorization. */
  lemma RowsWritten(p: Policy, s: System, s': System, id: string)
    requires Rows(p, s) && PendingRow(p, s', id) && FinalRow(p, s', id)
    requires Extends(s.origins, s.db.challenges, s'.origins, s'.db.challenges)
    requires forall who | who != id :: SameButStatus(s.db, s'.db, who)
    ensures Rows(p, s')
  {
    forall who ensures PendingRow(p, s', who) && FinalRow(p, s', who) {
      if who != id {
        assert SameButStatus(s.db, s'.db, who);
        RowFrame(p, s, s', who);
      }
    }
  }

  lemma BatchesKept(s: System, s': System)
    requires HeldBatches(s.db, s.batches) && s'.batches == s.batches
    requires forall who | who in s.db.final ::
               who in s'.db.final && (s'.db.final[who].status.Invalid? ==> s.db.final[who].status.Invalid?)
    ensures HeldBatches(s'.db, s'.batches)
  {
  }

  lemma OneWritten(p: Policy, s: System, s': System, id: string)
    requires Inv(p, s) && Tables(s')
    requires s' == s.(db := s'.db, origins := s'.origins)
    requires Extends(s.origins, s.db.challenges, s'.origins, s'.db.challenges)
    requires forall who | who != id :: SameButStatus(s.db, s'.db, who)
    requires PendingRow(p, s', id) && FinalRow(p, s', id)
    requires id in s.db.final ==> id in s'.db.final && (s'.db.final[id].status.Invalid? ==> s.db.final[id].status.Invalid?)
    ensures Inv(p, s')
  {
    HeldExtends(p, s, s.origins, s.db.challenges, s'.origins, s'.db.challenges);
    RowsWritten(p, s, s', id);
    forall who | who in s.db.final
      ensures who in s'.db.final && (s'.db.final[who].status.Invalid? ==> s.db.final[who].status.Invalid?)
    {
      if who != id {
        assert SameButStatus(s.db, s'.db, who);
      }
    }
    BatchesKept(s, s');
  }

  predicate NoPendingFinal(db: Db) {
    forall id | id in db.final :: !StatusIsPending(db.final[id].status)
  }

  lemma FinalNotPending(p: Policy, s: System)
    requires Rows(p, s)
    ensures NoPendingFinal(s.db)
  {
  }

  lemma CreateWrites(p: Policy, s: System, s': System, id: string, regID: int, identifier: Identifier,
                     challenges: seq<Challenge>, combinations: seq<seq<int>>, firstChallenge: int)
    requires Tables(s) && NoPendingFinal(s.db) && !Exists(s.db, id) && Offer(challenges, combinations)
    requires s' == Created(p, s, id, regID, identifier, challenges, combinations, firstChallenge)
    ensures Tables(s') && Extends(s.origins, s.db.challenges, s'.origins, s'.db.challenges)
    ensures PendingRow(p, s', id) && id !in s'.db.final
    ensures forall who | who != id :: SameButStatus(s.db, s'.db, who)
  {
    LeavesOthers(s.db, s'.db, id);
  }

  /** The tables differ at one authorization only. */
  predicate DifferAt(db: Db, db': Db, id: string) {
    && db'.pending - {id} == db.pending - {id}
    && db'.final - {id} == db.final - {id}
    && db'.challenges - {id} == db.challenges - {id}
  }

  lemma LeavesOthers(db: Db, db': Db, id: string)
    requires NoPendingFinal(db) && DifferAt(db, db', id)
    ensures forall who | who != id :: SameButStatus(db, db', who)
  {
    forall who | who != id ensures SameButStatus(db, db', who) {
      SamePlace(db.pending, db'.pending, id, who);
      SamePlace(db.final, db'.final, id, who);
      SamePlace(db.challenges, db'.challenges, id, who);
    }
  }

  lemma SamePlace<V>(m: map<string, V>, m': map<string, V>, id: string, who: string)
    requires m' - {id} == m - {id} && who != id
    ensures (who in m <==> who in m') && (who in m ==> m'[who] == m[who])
  {
    assert who in m - {id} <==> who in m' - {id};
  }

  lemma CreateKeeps(p: Policy, s: System, id: string, regID: int, identifier: Identifier,
                    challenges: seq<Challenge>, combinations: seq<seq<int>>, firstChallenge: int)
    requires Inv(p, s) && !Exists(s.db, id) && Offer(challenges, combinations)
    ensures Inv(p, Created(p, s, id, regID, identifier, challenges, combinations, firstChallenge))
  {
    var s' := Created(p, s, id, regID, identifier, challenges, combinations, firstChallenge);
    FinalNotPending(p, s);
    CreateWrites(p, s, s', id, regID, identifier, challenges, combinations, firstChallenge);
    OneWritten(p, s, s', id);
  }

  lemma ReadKeeps(p: Policy, s: System, id: string)
    requires Inv(p, s)
    ensures Inv(p, Apply(p, s, Read(id)))
  {
  }

  /** Answering a challenge changes its key authorization and nothing else. */
  lemma AnswerIsUndecided(p: Policy, now: int, o: Origins, t: Challenges, base: Authorization, index: nat,
                          provided: string, thumbprint: Option<string>)
    requires StatusIsPending(base.status) ==> Undecided(p, o, t, base)
    ensures var r := CheckAnswer(p, now, base, index, provided, thumbprint);
            r.Proceed? && StatusIsPending(r.authz.status) ==>
              Undecided(p, o, t, r.authz) && index < |r.authz.challenges|
  {
  }

  lemma CheckKeeps(p: Policy, s: System, base: Authorization, index: nat, a: Authorization)
    requires Inv(p, s)
    requires StatusIsPending(a.status) ==> Undecided(p, s.origins, s.db.challenges, a) && index < |a.challenges|
    ensures Inv(p, s.(answers := s.answers + {Validation(a, index)}))
  {
  }

  lemma StoreWrites(p: Policy, s: System, s': System, a: Authorization)
    requires Tables(s) && NoPendingFinal(s.db) && Undecided(p, s.origins, s.db.challenges, a)
    requires UpdatePending(s.db, a).Some? && s' == s.(db := UpdatePending(s.db, a).value)
    ensures Tables(s') && Extends(s.origins, s.db.challenges, s'.origins, s'.db.challenges)
    ensures PendingRow(p, s', a.id) && a.id !in s'.db.final
    ensures forall who | who != a.id :: SameButStatus(s.db, s'.db, who)
  {
    LeavesOthers(s.db, s'.db, a.id);
  }

  lemma StoreKeeps(p: Policy, s: System, v: Validation)
    requires Inv(p, s) && v in s.answers && UpdatePending(s.db, v.authz).Some?
    ensures Inv(p, s.(db := UpdatePending(s.db, v.authz).value, validations := s.validations + {v}))
  {
    var s' := s.(db := UpdatePending(s.db, v.authz).value);
    FinalNotPending(p, s);
    StoreWrites(p, s, s', v.authz);
    OneWritten(p, s, s', v.authz.id);
    Dispatch(p, s', v);
  }

  lemma Dispatch(p: Policy, s: System, v: Validation)
    requires Inv(p, s) && v in s.answers && StatusIsPending(v.authz.status)
    ensures Inv(p, s.(validations := s.validations + {v}))
  {
  }

  /** One validation decides exactly the challenge it was started for, and the verdict on
      the authorization is that challenge's outcome. */
  lemma JudgedIsDecided(p: Policy, now: int, o: Origins, t: Challenges, v: Validation,
                        records: seq<ValidationRecord>, problem: Option<string>)
    requires Undecided(p, o, t, v.authz) && v.index < |v.authz.challenges|
    requires StatusIsPending(v.authz.status)
    ensures var a := Judged(p, now, v, records, problem);
            && (a.status.Valid? || a.status.Invalid?)
            && Decided(p, o, t, a, a.status.Valid?)
            && DecidedAt(a.challenges, a.status.Valid?, v.index)
            && a.expires == (if a.status.Valid? then Some(now + p.authorizationLifetime) else v.authz.expires)
            && (a.status.Valid? <==> problem == None && RecordsSane(v.authz.challenges[v.index].(records := records)))
  {
    var ch := Outcome(v.authz.challenges[v.index], records, problem);
    var a := v.authz.(challenges := v.authz.challenges[v.index := ch]);
    assert [v.index] in a.combinations;
    var c :| 0 <= c < |a.combinations| && a.combinations[c] == [v.index];
    assert ch.status.Valid? ==> Fulfilled(a.combinations[c], a.challenges);
    assert DecidedAt(a.challenges, ch.status.Valid?, v.index);
  }

  lemma ValidateKeeps(p: Policy, s: System, v: Validation, records: seq<ValidationRecord>, problem: Option<string>)
    requires Inv(p, s)
    ensures Inv(p, Apply(p, s, Validate(v, records, problem)))
  {
    if v in s.validations && v.index < |v.authz.challenges| {
      JudgedIsDecided(p, s.now, s.origins, s.db.challenges, v, records, problem);
    }
  }

  lemma NumberingKeepsDecision(cs: seq<Challenge>, stored: seq<Challenge>, valid: bool, k: int)
    requires |cs| == |stored| && DecidedAt(cs, valid, k)
    ensures DecidedAt(NumberedLike(cs, stored), valid, k)
  {
  }

  lemma FinalizeWrites(p: Policy, s: System, s': System, a: Authorization)
    requires Tables(s) && NoPendingFinal(s.db)
    requires a.status.Valid? || a.status.Invalid?
    requires Decided(p, s.origins, s.db.challenges, a, a.status.Valid?)
    requires Finalize(s.db, a).Some? && s' == s.(db := Finalize(s.db, a).value)
    ensures Tables(s') && Extends(s.origins, s.db.challenges, s'.origins, s'.db.challenges)
    ensures FinalRow(p, s', a.id) && a.id !in s'.db.pending && a.id !in s.db.final
    ensures forall who | who != a.id :: SameButStatus(s.db, s'.db, who)
  {
    var k :| DecidedAt(a.challenges, a.status.Valid?, k);
    NumberingKeepsDecision(a.challenges, ChallengesOf(s.db, a.id), a.status.Valid?, k);
    LeavesOthers(s.db, s'.db, a.id);
  }

  lemma FinalizeKeeps(p: Policy, s: System, a: Authorization)
    requires Inv(p, s) && a in s.verdicts && Finalize(s.db, a).Some?
    ensures Inv(p, s.(db := Finalize(s.db, a).value))
  {
    var s' := s.(db := Finalize(s.db, a).value);
    FinalNotPending(p, s);
    FinalizeWrites(p, s, s', a);
    OneWritten(p, s, s', a.id);
  }

  lemma DeactivateSame(db: Db, id: string)
    requires NoPendingFinal(db)
    ensures forall who :: SameButStatus(db, Deactivate(db, id), who)
  {
  }

  lemma RevokedSame(s: System, batch: Batch)
    requires NoPendingFinal(s.db) && HeldBatches(s.db, s.batches) && batch in s.batches
    ensures forall who :: SameButStatus(s.db, BatchRevoked(s, batch).db, who)
  {
  }

  lemma StatusesWritten(p: Policy, s: System, s': System)
    requires Inv(p, s) && s' == s.(db := s'.db)
    requires s'.db.challenges == s.db.challenges
    requires s'.db.pending.Keys == s.db.pending.Keys && s'.db.final.Keys == s.db.final.Keys
    requires forall who :: SameButStatus(s.db, s'.db, who)
    ensures Inv(p, s')
  {
    assert SameButStatus(s.db, s'.db, "");
    RowFrame(p, s, s', "");
    OneWritten(p, s, s', "");
  }

  lemma DeactivateKeeps(p: Policy, s: System, id: string)
    requires Inv(p, s)
    ensures Inv(p, s.(db := Deactivate(s.db, id)))
  {
    FinalNotPending(p, s);
    DeactivateSame(s.db, id);
    StatusesWritten(p, s, s.(db := Deactivate(s.db, id)));
  }

  lemma SelectKeeps(p: Policy, s: System, inFinal: bool, ident: Identifier, since: int, chosen: set<string>)
    requires Inv(p, s)
    ensures Inv(p, Apply(p, s, SelectBatch(inFinal, ident, since, chosen)))
  {
  }

  lemma RevokeKeeps(p: Policy, s: System, batch: Batch)
    requires Inv(p, s) && batch in s.batches
    ensures Inv(p, BatchRevoked(s, batch))
  {
    FinalNotPending(p, s);
    RevokedSame(s, batch);
    StatusesWritten(p, s, BatchRevoked(s, batch));
  }

  lemma LetGoKeeps(p: Policy, s: System, s': System)
    requires Inv(p, s) && s' == s.(bases := s'.bases, answers := s'.answers, validations := s'.validations,
                                   verdicts := s'.verdicts, batches := s'.batches)
    requires s'.bases <= s.bases && s'.answers <= s.answers && s'.validations <= s.validations
    requires s'.verdicts <= s.verdicts && s'.batches <= s.batches
    ensures Inv(p, s')
  {
    assert Rows(p, s') by {
      forall id ensures id in s'.db.pending ==> PendingRow(p, s', id) {
        assert id in s.db.pending ==> PendingRow(p, s, id);
      }
      forall id ensures id in s'.db.final ==> FinalRow(p, s', id) {
        assert id in s.db.final ==> FinalRow(p, s, id);
      }
    }
  }

  lemma StepKeeps(p: Policy, s: System, step: Step)
    requires Inv(p, s)
    ensures Inv(p, Apply(p, s, step))
  {
    match step
    case Create(candidates, regID, identifier, challenges, combinations, firstChallenge) =>
      FreshIsFresh(s.db, candidates);
      var id := Fresh(s.db, candidates);
      if id.Some? && Offer(challenges, combinations) {
        CreateKeeps(p, s, id.value, regID, identifier, challenges, combinations, firstChallenge);
      }
    case Read(id) => ReadKeeps(p, s, id);
    case Check(base, index, provided, thumbprint) =>
      var r := CheckAnswer(p, s.now, base, index, provided, thumbprint);
      if base in s.bases && r.Proceed? {
        AnswerIsUndecided(p, s.now, s.origins, s.db.challenges, base, index, provided, thumbprint);
        CheckKeeps(p, s, base, index, r.authz);
      }
    case Store(answer) =>
      if answer in s.answers && UpdatePending(s.db, answer.authz).Some? {
        StoreKeeps(p, s, answer);
      }
    case Validate(v, records, problem) => ValidateKeeps(p, s, v, records, problem);
    case FinalizeStep(verdict) =>
      if verdict in s.verdicts && Finalize(s.db, verdict).Some? {
        FinalizeKeeps(p, s, verdict);
      }
    case DeactivateStep(id) => DeactivateKeeps(p, s, id);
    case SelectBatch(inFinal, ident, since, chosen) => SelectKeeps(p, s, inFinal, ident, since, chosen);
    case RevokeBatch(batch) =>
      if batch in s.batches {
        RevokeKeeps(p, s, batch);
      }
    case LetGo(_, _, _, _, _) => LetGoKeeps(p, s, Apply(p, s, step));
    case Tick(elapsed) =>
  }
}
