/** The authorization tables of the Storage Authority (sa/sa.go) as values: the pending table,
    the final table and the challenges of each authorization in the order of their IDs.
    Every operation is one transaction, and `None` is a rollback. */
module AuthzStore {
  import opened Prelude
  import opened Acme

  /** A row of either authorization table; challenges live in their own table. */
  datatype Row = Row(
    identifier: Identifier,
    regID: int,
    status: Status,
    expires: Option<int>,
    combinations: seq<seq<int>>)

  datatype Db = Db(
    pending: map<string, Row>,
    final: map<string, Row>,
    challenges: map<string, seq<Challenge>>)

  function ToRow(a: Authorization): Row {
    Row(a.identifier, a.regID, a.status, a.expires, a.combinations)
  }

  function FromRow(id: string, r: Row, cs: seq<Challenge>): Authorization {
    Authorization(id, r.identifier, r.regID, r.status, r.expires, cs, r.combinations)
  }

  function ChallengesOf(db: Db, id: string): seq<Challenge> {
    if id in db.challenges then db.challenges[id] else []
  }

  /** The challenges as stored by an insertion that gives them consecutive IDs. */
  function NumberedFrom(cs: seq<Challenge>, first: int): (r: seq<Challenge>)
    ensures |r| == |cs|
    ensures forall k | 0 <= k < |cs| :: r[k] == cs[k].(id := first + k)
  {
    seq(|cs|, k requires 0 <= k < |cs| => cs[k].(id := first + k))
  }

  /** The challenges as stored over existing rows: an update keeps the ID of each row. */
  function NumberedLike(cs: seq<Challenge>, stored: seq<Challenge>): (r: seq<Challenge>)
    requires |cs| == |stored|
    ensures |r| == |cs|
    ensures forall k | 0 <= k < |cs| :: r[k] == cs[k].(id := stored[k].id)
  {
    seq(|cs|, k requires 0 <= k < |cs| => cs[k].(id := stored[k].id))
  }

  predicate Exists(db: Db, id: string) {
    id in db.pending || id in db.final
  }

  /** NewPendingAuthorization draws tokens until one is in neither table. */
  function Fresh(db: Db, candidates: seq<string>): Option<string> {
    if |candidates| == 0 then None
    else if Exists(db, candidates[0]) then Fresh(db, candidates[1..])
    else Some(candidates[0])
  }

  /** The first candidate that is in neither table, if there is one. */
  lemma {:induction false} FreshIsFresh(db: Db, candidates: seq<string>)
    ensures Fresh(db, candidates).Some? ==> !Exists(db, Fresh(db, candidates).value)
    ensures Fresh(db, candidates).Some? <==> exists k | 0 <= k < |candidates| :: !Exists(db, candidates[k])
    ensures forall k | 0 <= k < |candidates| && !Exists(db, candidates[k]) && (forall j | 0 <= j < k :: Exists(db, candidates[j])) ::
              Fresh(db, candidates) == Some(candidates[k])
  {
    if |candidates| > 0 && Exists(db, candidates[0]) {
      var rest := candidates[1..];
      FreshIsFresh(db, rest);
      forall k | 0 <= k < |candidates| && !Exists(db, candidates[k])
        ensures Fresh(db, candidates).Some?
        ensures (forall j | 0 <= j < k :: Exists(db, candidates[j])) ==> Fresh(db, candidates) == Some(candidates[k])
      {
        assert rest[k - 1] == candidates[k];
        assert (forall j | 0 <= j < k :: Exists(db, candidates[j])) ==> forall j | 0 <= j < k - 1 :: Exists(db, rest[j]);
      }
    }
  }

  function NewPending(db: Db, id: string, a: Authorization, firstChallenge: int): Db {
    db.(pending := db.pending[id := ToRow(a)],
        challenges := db.challenges[id := NumberedFrom(a.challenges, firstChallenge)])
  }

  function GetAuthorization(db: Db, id: string): Option<Authorization> {
    if id in db.pending then Some(FromRow(id, db.pending[id], ChallengesOf(db, id)))
    else if id in db.final then Some(FromRow(id, db.final[id], ChallengesOf(db, id)))
    else None
  }

  function UpdateChallenges(db: Db, a: Authorization): Option<map<string, seq<Challenge>>> {
    if |ChallengesOf(db, a.id)| != |a.challenges| then None
    else Some(db.challenges[a.id := NumberedLike(a.challenges, ChallengesOf(db, a.id))])
  }

  function UpdatePending(db: Db, a: Authorization): Option<Db> {
    if !StatusIsPending(a.status) || a.id in db.final || a.id !in db.pending then None
    else
      var cs := UpdateChallenges(db, a);
      if cs.None? then None
      else Some(db.(pending := db.pending[a.id := ToRow(a)], challenges := cs.value))
  }

  function Finalize(db: Db, a: Authorization): Option<Db> {
    if a.id !in db.pending || StatusIsPending(a.status) then None
    else if a.id in db.final then None  // duplicate primary key
    else
      var cs := UpdateChallenges(db, a);
      if cs.None? then None
      else Some(Db(db.pending - {a.id}, db.final[a.id := ToRow(a)], cs.value))
  }

  function Deactivate(db: Db, id: string): Db {
    if id in db.pending then
      if db.pending[id].status.Pending?
      then db.(pending := db.pending[id := db.pending[id].(status := Deactivated)])
      else db
    else if id in db.final && db.final[id].status.Valid?
    then db.(final := db.final[id := db.final[id].(status := Deactivated)])
    else db
  }

  /** `WHERE identifier = … AND status NOT IN (invalid, revoked) AND expires > now`. */
  function Revocable(t: map<string, Row>, ident: Identifier, now: int): set<string> {
    set id | id in t && t[id].identifier == ident && !t[id].status.Invalid? && !t[id].status.Revoked?
             && t[id].expires.Some? && t[id].expires.value > now
  }

  /** `UPDATE … SET status = revoked WHERE id IN ids`. */
  function MarkRevoked(t: map<string, Row>, ids: set<string>): (r: map<string, Row>)
    ensures r.Keys == t.Keys
    ensures forall id | id in t :: r[id] == if id in ids then t[id].(status := Revoked) else t[id]
  {
    map id | id in t :: if id in ids then t[id].(status := Revoked) else t[id]
  }

  /** CountInvalidAuthorizations: it looks at expiry and status. */
  function InvalidBetween(db: Db, regID: int, hostname: string, earliest: int, latest: int): set<string> {
    set id | id in db.final && db.final[id].regID == regID
             && db.final[id].identifier == Identifier(IDENTIFIER_DNS, hostname)
             && db.final[id].expires.Some? && earliest < db.final[id].expires.value <= latest
             && db.final[id].status.Invalid?
  }

  function CountInvalid(db: Db, regID: int, hostname: string, earliest: int, latest: int): nat {
    |InvalidBetween(db, regID, hostname, earliest, latest)|
  }

  /** CountPendingAuthorizations: the unexpired rows of the pending table. */
  function CountPending(db: Db, regID: int, now: int): nat {
    |set id | id in db.pending && db.pending[id].regID == regID && db.pending[id].status.Pending?
              && db.pending[id].expires.Some? && db.pending[id].expires.value > now|
  }

  // ---------------------------------------------------------------- what the operations amount to

  ghost predicate SameBut(db: Db, db': Db, id: string) {
    forall other | other != id :: GetAuthorization(db', other) == GetAuthorization(db, other)
  }

  /** What a creation stores is what is read, and no other authorization is touched. */
  lemma NewIsRead(db: Db, id: string, a: Authorization, firstChallenge: int)
    ensures var db' := NewPending(db, id, a, firstChallenge);
            && GetAuthorization(db', id) == Some(a.(id := id, challenges := NumberedFrom(a.challenges, firstChallenge)))
            && SameBut(db, db', id) && db'.final == db.final
  {
  }

  /** An update is accepted if and only if it leaves a pending authorization pending, with as many
      challenges; it is then read back, the challenges under the IDs they had. */
  lemma UpdateIsRead(db: Db, a: Authorization)
    ensures UpdatePending(db, a).Some? <==>
            && a.status in {Status.Unknown, Pending, Processing} && a.id in db.pending && a.id !in db.final
            && |ChallengesOf(db, a.id)| == |a.challenges|
    ensures UpdatePending(db, a).Some? ==>
              var db' := UpdatePending(db, a).value;
              && GetAuthorization(db', a.id) == Some(a.(challenges := NumberedLike(a.challenges, ChallengesOf(db, a.id))))
              && SameBut(db, db', a.id) && db'.final == db.final
  {
  }

  /** A finalization is accepted if and only if it decides a pending authorization, with as many
      challenges; the authorization leaves the pending table for the final one. */
  lemma FinalizeIsRead(db: Db, a: Authorization)
    ensures Finalize(db, a).Some? <==>
            && a.status !in {Status.Unknown, Pending, Processing} && a.id in db.pending && a.id !in db.final
            && |ChallengesOf(db, a.id)| == |a.challenges|
    ensures Finalize(db, a).Some? ==>
              var db' := Finalize(db, a).value;
              && db'.pending == db.pending - {a.id}
              && db'.final == db.final[a.id := Row(a.identifier, a.regID, a.status, a.expires, a.combinations)]
              && GetAuthorization(db', a.id) == Some(a.(challenges := NumberedLike(a.challenges, ChallengesOf(db, a.id))))
              && SameBut(db, db', a.id)
  {
  }

  /** Of tables that share no ID, deactivation changes the status of the authorization and nothing
      else, and that if and only if the authorization is pending in its table or valid in its. */
  lemma DeactivateChanges(db: Db, id: string)
    requires db.pending.Keys !! db.final.Keys
    ensures var db' := Deactivate(db, id);
            && db'.pending.Keys == db.pending.Keys && db'.final.Keys == db.final.Keys && db'.challenges == db.challenges
            && (forall other | other in db.pending :: db'.pending[other] ==
                  if other == id && db.pending[id].status == Pending then db.pending[other].(status := Deactivated) else db.pending[other])
            && (forall other | other in db.final :: db'.final[other] ==
                  if other == id && db.final[id].status == Valid then db.final[other].(status := Deactivated) else db.final[other])
  {
  }

  /** The count of pending authorizations, one row at a time. */
  lemma CountPendingRow(db: Db, id: string, row: Row, regID: int, now: int)
    requires id !in db.pending
    ensures CountPending(db.(pending := map[]), regID, now) == 0
    ensures CountPending(db.(pending := db.pending[id := row]), regID, now) == CountPending(db, regID, now)
            + if row.regID == regID && row.status == Pending && row.expires.Some? && row.expires.value > now then 1 else 0
  {
    var counted := set other | other in db.pending && db.pending[other].regID == regID && db.pending[other].status.Pending?
                               && db.pending[other].expires.Some? && db.pending[other].expires.value > now;
    var more := db.pending[id := row];
    var counts := row.regID == regID && row.status == Pending && row.expires.Some? && row.expires.value > now;
    assert (set other | other in more && more[other].regID == regID && more[other].status.Pending?
                        && more[other].expires.Some? && more[other].expires.value > now)
           == if counts then counted + {id} else counted;
  }
}
