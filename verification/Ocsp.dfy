/** Revocation against the OCSP updater: two writers of `certificateStatus` (sa/sa.go,
    cmd/ocsp-updater/main.go). The updater reads a row, has a response signed and stores it
    if the status is still the one it read; a revocation selects the row, notes the time and
    writes the whole row back under an optimistic lock. The select of a revocation does not
    lock the row, so its transaction is three steps here, and all steps interleave freely. */
module Ocsp {
  import opened Prelude

  datatype CertStatus = Good | Revoked

  /** A signed response, as far as its meaning goes. */
  datatype Response = Response(serial: string, status: CertStatus)

  datatype Row = Row(
    status: CertStatus,
    revokedDate: int,
    ocspLastUpdated: int,
    response: Option<Response>,
    isExpired: bool,
    lockCol: nat)

  type Table = map<string, Row>

  /** A row as someone has read it. */
  datatype Copy = Copy(serial: string, row: Row)

  /** A revocation about to write: the row it read and the time it noted afterwards. */
  datatype Revocation = Revocation(serial: string, row: Row, at: int)

  /** What generateResponse returned: a response for the status the worker had read. */
  datatype Signed = Signed(serial: string, status: CertStatus, response: Response, at: int)

  /** What is held now, and by whom. Several holders may hold equal values, so a value stays until the
      last of them lets go of it, which may happen at any time. */
  datatype System = System(
    table: Table,
    now: int,
    read: set<Copy>,            // rows that updater workers have read and not yet signed for
    signed: set<Signed>,        // responses that updater workers have yet to store
    begun: set<Copy>,           // rows that open revocations have selected
    revocations: set<Revocation>)

  datatype Step =
    | Issue(serial: string, early: bool)
    | ReadRow(serial: string)
    | Sign(copy: Copy)
    | SignRevoked(copy: Copy)
    | Store(signed: Signed)
    | BeginRevoke(serial: string)
    | NoteTime(copy: Copy)
    | CommitRevoke(revocation: Revocation)
    | LetGo(copies: set<Copy>, answers: set<Signed>, selects: set<Copy>, writes: set<Revocation>)
    | MarkExpired(serial: string)
    | Tick(elapsed: nat)

  /** storeResponse: `WHERE serial = … AND status = …`. */
  function StoreResponse(t: Table, m: Signed): Table {
    if m.serial in t && t[m.serial].status == m.status
    then t[m.serial := t[m.serial].(response := Some(m.response), ocspLastUpdated := m.at)]
    else t
  }

  /** The update of MarkCertificateRevoked; None is the optimistic lock failing. */
  function CommitRevocation(t: Table, r: Revocation): Option<Table> {
    if r.serial !in t || t[r.serial].lockCol != r.row.lockCol then None
    else Some(t[r.serial := r.row.(status := Revoked, revokedDate := r.at, lockCol := r.row.lockCol + 1)])
  }

  /** AddCertificate's row; `early` is whether the CA signed a response at issuance. */
  function IssuedRow(serial: string, now: int, early: bool): Row {
    if early then Row(Good, 0, now, Some(Response(serial, Good)), false, 1) else Row(Good, 0, 0, None, false, 1)
  }

  function Apply(s: System, step: Step): System {
    match step
    case Issue(serial, early) =>
      if serial in s.table then s else s.(table := s.table[serial := IssuedRow(serial, s.now, early)])
    case ReadRow(serial) =>
      if serial in s.table then s.(read := s.read + {Copy(serial, s.table[serial])}) else s
    case Sign(c) =>
      if c in s.read
      then s.(signed := s.signed + {Signed(c.serial, c.row.status, Response(c.serial, c.row.status), s.now)})
      else s
    case SignRevoked(c) =>
      if c in s.read && c.row.status.Revoked?
      then s.(signed := s.signed + {Signed(c.serial, c.row.status, Response(c.serial, Revoked), s.now)})
      else s
    case Store(m) =>
      if m in s.signed then s.(table := StoreResponse(s.table, m)) else s
    case BeginRevoke(serial) =>
      if serial in s.table then s.(begun := s.begun + {Copy(serial, s.table[serial])}) else s
    case NoteTime(c) =>
      if c in s.begun
      then s.(revocations := s.revocations + {Revocation(c.serial, c.row, s.now)})
      else s
    case CommitRevoke(r) =>
      var t := CommitRevocation(s.table, r);
      if r in s.revocations && t.Some? then s.(table := t.value) else s
    case LetGo(copies, answers, selects, writes) =>
      s.(read := s.read - copies, signed := s.signed - answers,
         begun := s.begun - selects, revocations := s.revocations - writes)
    case MarkExpired(serial) =>
      if serial in s.table then s.(table := s.table[serial := s.table[serial].(isExpired := true)]) else s
    case Tick(elapsed) =>
      s.(now := s.now + elapsed)
  }

  function Start(now: int): System {
    System(map[], now, {}, {}, {}, {})
  }

  function Run(s: System, steps: seq<Step>): System {
    if |steps| == 0 then s else Apply(Run(s, steps[..|steps| - 1]), steps[|steps| - 1])
  }

  // ---------------------------------------------------------------- the invariant

  /** What a row stores is about its own certificate, not from the future, and says revoked
      unless the row is good or was revoked no earlier than the response was signed. */
  predicate Sound(serial: string, r: Row, now: int) {
    && 0 <= r.ocspLastUpdated <= now && 0 <= r.revokedDate <= now
    && (r.response.Some? ==> r.response.value.serial == serial)
    && (r.response.Some? && r.response.value.status.Good? && r.status.Revoked? ==> r.ocspLastUpdated <= r.revokedDate)
    && (r.response.None? ==> r.ocspLastUpdated == 0)
  }

  predicate SoundTable(s: System) {
    forall serial | serial in s.table :: Sound(serial, s.table[serial], s.now)
  }

  predicate SoundCopies(copies: set<Copy>, now: int) {
    forall c | c in copies :: Sound(c.serial, c.row, now)
  }

  predicate SoundSigned(s: System) {
    forall m | m in s.signed :: 0 <= m.at <= s.now && m.response == Response(m.serial, m.status)
  }

  /** A revocation's copy was sound when read, and is no newer than its time stamp. */
  predicate SoundRevocations(s: System) {
    forall r | r in s.revocations :: r.at <= s.now && Sound(r.serial, r.row, r.at)
  }

  predicate Inv(s: System) {
    s.now > 0 && SoundTable(s) && SoundCopies(s.begun, s.now) && SoundSigned(s) && SoundRevocations(s)
  }

  lemma StepKeeps(s: System, step: Step)
    requires Inv(s)
    ensures Inv(Apply(s, step))
  {
  }

  lemma {:induction false} RunKeeps(s: System, steps: seq<Step>)
    requires Inv(s)
    ensures Inv(Run(s, steps))
  {
    if |steps| > 0 {
      RunKeeps(s, steps[..|steps| - 1]);
      StepKeeps(Run(s, steps[..|steps| - 1]), steps[|steps| - 1]);
    }
  }

  // ---------------------------------------------------------------- over every run

  /** Once revoked, a certificate is revoked in every later state. */
  lemma {:induction false} RevokedForever(s: System, steps: seq<Step>, serial: string)
    requires serial in s.table && s.table[serial].status.Revoked?
    ensures serial in Run(s, steps).table && Run(s, steps).table[serial].status.Revoked?
  {
    if |steps| > 0 {
      RevokedForever(s, steps[..|steps| - 1], serial);
    }
  }

  ghost predicate Reachable(s: System) {
    exists start, steps :: start > 0 && s == Run(Start(start), steps)
  }

  lemma ReachableKeeps(s: System)
    requires Reachable(s)
    ensures Inv(s)
  {
    var start, steps :| start > 0 && s == Run(Start(start), steps);
    RunKeeps(Start(start), steps);
  }

  /** In every reachable state a revoked certificate whose response was signed after its
      revocation date holds a response that says revoked, about that certificate. */
  lemma FreshResponseSaysRevoked(s: System, serial: string)
    requires Reachable(s)
    requires serial in s.table && s.table[serial].status.Revoked?
    requires s.table[serial].ocspLastUpdated > s.table[serial].revokedDate
    ensures s.table[serial].response == Some(Response(serial, Revoked))
  {
    ReachableKeeps(s);
    assert Sound(serial, s.table[serial], s.now);
  }

  /** Whatever a worker read and however late it stores, a response that goes in matches the
      status its row has at that moment, and one that does not go in changes nothing. */
  lemma StoredMatchesStatus(s: System, m: Signed)
    requires Reachable(s) && m in s.signed
    ensures var t, t' := s.table, StoreResponse(s.table, m);
            if m.serial in t && t[m.serial].status == m.status
            then t' == t[m.serial := t[m.serial].(response := Some(Response(m.serial, t[m.serial].status)), ocspLastUpdated := m.at)]
            else t' == t
  {
    ReachableKeeps(s);
  }

  // ---------------------------------------------------------------- what each write does

  /** All that can happen to a row in one step: a response is stored, a revocation is written over
      it, or it is marked as expired. */
  lemma WhoWrites(s: System, step: Step, serial: string)
    requires serial in s.table
    ensures Apply(s, step).now == s.now + if step.Tick? then step.elapsed else 0
    ensures serial in Apply(s, step).table
    ensures var row, row' := s.table[serial], Apply(s, step).table[serial];
            || row' == row
            || (step.Store? && step.signed.serial == serial && step.signed in s.signed && row.status == step.signed.status
                && row' == row.(response := Some(step.signed.response), ocspLastUpdated := step.signed.at))
            || (step.CommitRevoke? && step.revocation.serial == serial && step.revocation in s.revocations
                && row'.status.Revoked? && row'.lockCol == row.lockCol + 1)
            || (step.MarkExpired? && step.serial == serial && row' == row.(isExpired := true))
  {
  }

  /** A certificate is issued once: good, and with a good response if one was signed early. */
  lemma IssuedIsGood(s: System, serial: string, early: bool)
    ensures var table := Apply(s, Issue(serial, early)).table;
            if serial in s.table then table == s.table
            else
              && table.Keys == s.table.Keys + {serial}
              && (forall other | other in s.table :: table[other] == s.table[other])
              && table[serial].status.Good? && !table[serial].isExpired
              && (early ==> table[serial].response == Some(Response(serial, Good)) && table[serial].ocspLastUpdated == s.now)
              && (!early ==> table[serial].response == None && table[serial].ocspLastUpdated == 0)
  {
  }

  /** Rows of one lock version have one status and one revocation date. */
  predicate SameVersion(s: System, serial: string, row: Row) {
    && serial in s.table
    && row.lockCol <= s.table[serial].lockCol
    && (row.lockCol == s.table[serial].lockCol ==> row.status == s.table[serial].status && row.revokedDate == s.table[serial].revokedDate)
  }

  predicate AllSameVersion(s: System) {
    && (forall c | c in s.begun :: SameVersion(s, c.serial, c.row))
    && (forall r | r in s.revocations :: SameVersion(s, r.serial, r.row))
  }

  lemma VersionStep(s: System, step: Step)
    requires AllSameVersion(s)
    ensures AllSameVersion(Apply(s, step))
  {
  }

  lemma {:induction false} VersionRun(s: System, steps: seq<Step>)
    requires AllSameVersion(s)
    ensures AllSameVersion(Run(s, steps))
  {
    if |steps| > 0 {
      VersionRun(s, steps[..|steps| - 1]);
      VersionStep(Run(s, steps[..|steps| - 1]), steps[|steps| - 1]);
    }
  }

  /** In every reachable state, a revocation about to write revokes its certificate, with the time it
      noted and what else it read, if and only if no revocation was written since its select; otherwise
      it changes nothing. What it can undo is the last response or the mark of expiry, never a status. */
  lemma RevocationRevokesIff(s: System, r: Revocation)
    requires Reachable(s) && r in s.revocations
    ensures r.serial in s.table
    ensures var row, table := s.table[r.serial], Apply(s, CommitRevoke(r)).table;
            if row.lockCol == r.row.lockCol
            then && table == s.table[r.serial := Row(Revoked, r.at, r.row.ocspLastUpdated, r.row.response, r.row.isExpired, row.lockCol + 1)]
                 && row.status == r.row.status && row.revokedDate == r.row.revokedDate
            else table == s.table && row.lockCol > r.row.lockCol
  {
    var start, steps :| start > 0 && s == Run(Start(start), steps);
    VersionRun(Start(start), steps);
  }

  lemma RunThree(s: System, a: Step, b: Step, c: Step)
    ensures Run(s, [a, b, c]) == Apply(Apply(Apply(s, a), b), c)
  {
    assert [a, b, c][..2] == [a, b] && [a, b][..1] == [a] && [a][..0] == [];
    assert Run(s, [a]) == Apply(s, a);
    assert Run(s, [a, b]) == Apply(Apply(s, a), b);
  }

  /** A revocation that nothing comes between revokes, whatever the row was. */
  lemma UndisturbedRevocation(s: System, serial: string)
    requires serial in s.table
    ensures var row := s.table[serial];
            var steps := [BeginRevoke(serial), NoteTime(Copy(serial, row)), CommitRevoke(Revocation(serial, row, s.now))];
            Run(s, steps).table ==
              s.table[serial := Row(Revoked, s.now, row.ocspLastUpdated, row.response, row.isExpired, row.lockCol + 1)]
  {
    var row := s.table[serial];
    RunThree(s, BeginRevoke(serial), NoteTime(Copy(serial, row)), CommitRevoke(Revocation(serial, row, s.now)));
  }

  /** A worker that nothing comes between leaves a response that says the row's status, signed now. */
  lemma UndisturbedAnswer(s: System, serial: string)
    requires serial in s.table
    ensures var row := s.table[serial];
            var answer := Signed(serial, row.status, Response(serial, row.status), s.now);
            var table := s.table[serial := Row(row.status, row.revokedDate, s.now, Some(Response(serial, row.status)), row.isExpired, row.lockCol)];
            && Run(s, [ReadRow(serial), Sign(Copy(serial, row)), Store(answer)]).table == table
            && (row.status.Revoked? ==> Run(s, [ReadRow(serial), SignRevoked(Copy(serial, row)), Store(answer)]).table == table)
  {
    var row := s.table[serial];
    var answer := Signed(serial, row.status, Response(serial, row.status), s.now);
    RunThree(s, ReadRow(serial), Sign(Copy(serial, row)), Store(answer));
    RunThree(s, ReadRow(serial), SignRevoked(Copy(serial, row)), Store(answer));
  }

  // ---------------------------------------------------------------- losing a revoked response

  predicate SaysRevoked(s: System, serial: string) {
    serial in s.table && s.table[serial].status.Revoked? && s.table[serial].response == Some(Response(serial, Revoked))
  }

  /** A copy of the row, of the same lock version, that lacks the revoked response. */
  predicate Undoes(s: System, serial: string, row: Row) {
    && serial in s.table
    && row.lockCol == s.table[serial].lockCol
    && row.response != Some(Response(serial, Revoked))
  }

  /** An open revocation holds such a copy. */
  predicate OverwriteWaits(s: System, serial: string) {
    || (exists c | c in s.begun :: c.serial == serial && Undoes(s, serial, c.row))
    || (exists r | r in s.revocations :: r.serial == serial && Undoes(s, serial, r.row))
  }

  predicate LocksKnown(s: System, serial: string) {
    && serial in s.table
    && (forall c | c in s.begun && c.serial == serial :: c.row.lockCol <= s.table[serial].lockCol)
    && (forall r | r in s.revocations && r.serial == serial :: r.row.lockCol <= s.table[serial].lockCol)
  }

  ghost predicate Settled(s: System, serial: string) {
    SaysRevoked(s, serial) && LocksKnown(s, serial) && !OverwriteWaits(s, serial)
  }

  lemma SettledStep(s: System, step: Step, serial: string)
    requires Inv(s) && Settled(s, serial)
    ensures Settled(Apply(s, step), serial)
  {
  }

  lemma {:induction false} SettledRun(s: System, steps: seq<Step>, serial: string)
    requires Inv(s) && Settled(s, serial)
    ensures Inv(Run(s, steps)) && Settled(Run(s, steps), serial)
  {
    if |steps| > 0 {
      var n := |steps| - 1;
      SettledRun(s, steps[..n], serial);
      StepKeeps(Run(s, steps[..n]), steps[n]);
      SettledStep(Run(s, steps[..n]), steps[n], serial);
    }
  }

  ghost predicate CanLose(s: System, serial: string) {
    exists steps :: Loses(s, steps, serial)
  }

  predicate Loses(s: System, steps: seq<Step>, serial: string) {
    serial in Run(s, steps).table && Run(s, steps).table[serial].response != Some(Response(serial, Revoked))
  }

  lemma CommitLoses(s: System, r: Revocation)
    requires r in s.revocations && Undoes(s, r.serial, r.row)
    ensures Loses(s, [CommitRevoke(r)], r.serial)
  {
  }

  lemma CopyLoses(s: System, c: Copy)
    requires c in s.begun && Undoes(s, c.serial, c.row)
    ensures Loses(s, [NoteTime(c), CommitRevoke(Revocation(c.serial, c.row, s.now))], c.serial)
  {
    var r := Revocation(c.serial, c.row, s.now);
    var steps := [NoteTime(c), CommitRevoke(r)];
    assert steps[..1] == [NoteTime(c)] && [NoteTime(c)][..0] == [];
    assert Run(s, [NoteTime(c)]) == Apply(s, NoteTime(c));
    assert Run(s, steps) == Apply(Apply(s, NoteTime(c)), CommitRevoke(r));
  }

  /** The updater's store does not bump the row's lock, so a second revocation that selected the
      row before can put back the response that the store has just replaced. A certificate that
      already holds a revoked response can lose it if and only if such a revocation is open. */
  lemma ResponseLostIffOverwriteWaits(s: System, serial: string)
    requires Reachable(s) && SaysRevoked(s, serial)
    ensures CanLose(s, serial) <==> OverwriteWaits(s, serial)
  {
    ReachableKeeps(s);
    assert LocksKnown(s, serial) by {
      var start, steps :| start > 0 && s == Run(Start(start), steps);
      VersionRun(Start(start), steps);
    }
    if OverwriteWaits(s, serial) {
      if c :| c in s.begun && c.serial == serial && Undoes(s, serial, c.row) {
        CopyLoses(s, c);
      } else {
        var r :| r in s.revocations && r.serial == serial && Undoes(s, serial, r.row);
        CommitLoses(s, r);
      }
    } else if CanLose(s, serial) {
      var steps :| Loses(s, steps, serial);
      SettledRun(s, steps, serial);
    }
  }

  /** With no other revocation of the certificate open, its revoked response is never lost, whatever
      the updater and later revocations do. */
  lemma AnsweredStays(s: System, serial: string, steps: seq<Step>)
    requires Reachable(s) && SaysRevoked(s, serial)
    requires forall c | c in s.begun :: c.serial != serial
    requires forall r | r in s.revocations :: r.serial != serial
    ensures SaysRevoked(Run(s, steps), serial)
  {
    ResponseLostIffOverwriteWaits(s, serial);
    RevokedForever(s, steps, serial);
    assert !Loses(s, steps, serial);
  }

  /** The same once every open revocation has ended. */
  lemma LettingGoSettles(s: System, serial: string, steps: seq<Step>)
    requires Reachable(s) && SaysRevoked(s, serial)
    ensures var rest := Apply(s, LetGo({}, {}, s.begun, s.revocations));
            rest.table == s.table && SaysRevoked(Run(rest, steps), serial)
  {
    ReachableStep(s, LetGo({}, {}, s.begun, s.revocations));
    AnsweredStays(Apply(s, LetGo({}, {}, s.begun, s.revocations)), serial, steps);
  }

  lemma ReachableStep(s: System, step: Step)
    requires Reachable(s)
    ensures Reachable(Apply(s, step))
  {
    var start, steps :| start > 0 && s == Run(Start(start), steps);
    assert (steps + [step])[..|steps|] == steps;
    assert Apply(s, step) == Run(Start(start), steps + [step]);
  }

  /** A certificate that has been issued and revoked. */
  lemma RevokedOnce() returns (s: System)
    ensures Reachable(s) && s == System(map["1" := Row(Revoked, 1, 0, None, false, 2)], 1, {}, {}, {}, {})
  {
    var copy := Copy("1", Row(Good, 0, 0, None, false, 1));
    s := Start(1);
    assert s == Run(Start(1), []);
    ReachableStep(s, Issue("1", false));
    s := Apply(s, Issue("1", false));
    ReachableStep(s, BeginRevoke("1"));
    s := Apply(s, BeginRevoke("1"));
    ReachableStep(s, NoteTime(copy));
    s := Apply(s, NoteTime(copy));
    ReachableStep(s, CommitRevoke(Revocation("1", copy.row, 1)));
    s := Apply(s, CommitRevoke(Revocation("1", copy.row, 1)));
    var done := LetGo({}, {}, s.begun, s.revocations);
    ReachableStep(s, done);
    s := Apply(s, done);
    assert s.table == map["1" := Row(Revoked, 1, 0, None, false, 2)];
  }

  /** And it does happen: after a revocation, a second one selects the row, the updater answers the
      first one, and the second one can then write the old response back. */
  lemma SecondRevocationUndoes() returns (s: System)
    ensures Reachable(s) && SaysRevoked(s, "1") && CanLose(s, "1")
  {
    var copy := Copy("1", Row(Revoked, 1, 0, None, false, 2));
    var signed := Signed("1", Revoked, Response("1", Revoked), 1);
    s := RevokedOnce();
    ReachableStep(s, BeginRevoke("1"));
    s := Apply(s, BeginRevoke("1"));
    ReachableStep(s, ReadRow("1"));
    s := Apply(s, ReadRow("1"));
    ReachableStep(s, SignRevoked(copy));
    s := Apply(s, SignRevoked(copy));
    ReachableStep(s, Store(signed));
    s := Apply(s, Store(signed));
    CopyLoses(s, copy);
  }
}
