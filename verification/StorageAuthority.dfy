/** The Storage Authority's authorization methods (sa/sa.go, sa/authz.go), which change the
    tables row by row, proved against the transactions of AuthzStore. */
module StorageAuthority {
  import opened Prelude
  import opened Acme
  import opened AuthzStore

  datatype ChallengeRow = ChallengeRow(authzID: string, challenge: Challenge)

  // ---------------------------------------------------------------- challenge rows

  /** Row numbers of the challenges of one authorization, ascending. */
  function RowIds(t: seq<ChallengeRow>, id: string): (ids: seq<nat>)
    ensures forall k | 0 <= k < |ids| :: ids[k] < |t| && t[ids[k]].authzID == id
    ensures forall j, k | 0 <= j < k < |ids| :: ids[j] < ids[k]
  {
    if |t| == 0 then []
    else
      var n := |t| - 1;
      RowIds(t[..n], id) + if t[n].authzID == id then [n] else []
  }

  /** What `getChallengesQuery` returns for an authorization. */
  function Selected(t: seq<ChallengeRow>, id: string): seq<Challenge> {
    if |t| == 0 then []
    else
      var n := |t| - 1;
      Selected(t[..n], id) + if t[n].authzID == id then [t[n].challenge] else []
  }

  lemma {:induction false} SelectedAt(t: seq<ChallengeRow>, id: string)
    ensures |Selected(t, id)| == |RowIds(t, id)|
    ensures forall k | 0 <= k < |RowIds(t, id)| :: Selected(t, id)[k] == t[RowIds(t, id)[k]].challenge
  {
    if |t| > 0 {
      SelectedAt(t[..|t| - 1], id);
    }
  }

  lemma {:induction false} NoneSelected(t: seq<ChallengeRow>, id: string)
    requires forall i | 0 <= i < |t| :: t[i].authzID != id
    ensures Selected(t, id) == []
  {
    if |t| > 0 {
      NoneSelected(t[..|t| - 1], id);
    }
  }

  /** Row numbers depend on the owners of the rows only. */
  lemma {:induction false} RowIdsByOwner(t: seq<ChallengeRow>, u: seq<ChallengeRow>, id: string)
    requires |t| == |u|
    requires forall i | 0 <= i < |t| :: t[i].authzID == u[i].authzID
    ensures RowIds(t, id) == RowIds(u, id)
  {
    if |t| > 0 {
      var n := |t| - 1;
      RowIdsByOwner(t[..n], u[..n], id);
    }
  }

  /** Rows whose challenge carries its own row number, as an auto-increment key does. */
  predicate SelfNumbered(t: seq<ChallengeRow>) {
    forall i | 0 <= i < |t| :: t[i].challenge.id == i
  }

  /** u is t with the first n of the rows `ids` overwritten by the challenges cs. */
  predicate Overwritten(t: seq<ChallengeRow>, u: seq<ChallengeRow>, ids: seq<nat>, id: string, cs: seq<Challenge>, n: nat)
    requires |cs| == |ids| && n <= |ids|
    requires forall k | 0 <= k < |ids| :: ids[k] < |t|
  {
    && |u| == |t|
    && (forall k | 0 <= k < n :: u[ids[k]] == ChallengeRow(id, cs[k].(id := ids[k])))
    && (forall i | 0 <= i < |t| && i !in ids[..n] :: u[i] == t[i])
  }

  /** Rows of another authorization that are as they were. */
  lemma SelectedUntouched(t: seq<ChallengeRow>, u: seq<ChallengeRow>, other: string)
    requires |u| == |t| && forall i | 0 <= i < |t| :: u[i].authzID == t[i].authzID
    requires forall i | 0 <= i < |t| && t[i].authzID == other :: u[i] == t[i]
    ensures Selected(u, other) == Selected(t, other)
  {
  }

  /** Overwriting rows of one authorization keeps every row's owner and number. */
  lemma OverwriteKeepsOwners(t: seq<ChallengeRow>, u: seq<ChallengeRow>, ids: seq<nat>, id: string, cs: seq<Challenge>)
    requires SelfNumbered(t) && |cs| == |ids|
    requires forall k | 0 <= k < |ids| :: ids[k] < |t| && t[ids[k]].authzID == id
    requires Overwritten(t, u, ids, id, cs, |cs|)
    ensures SelfNumbered(u) && forall i | 0 <= i < |t| :: u[i].authzID == t[i].authzID
    ensures forall i | 0 <= i < |t| && t[i].authzID != id :: u[i] == t[i]
  {
    assert ids[..|cs|] == ids;
    forall i | 0 <= i < |t| ensures u[i].authzID == t[i].authzID && u[i].challenge.id == i {
      if i in ids {
        var k :| 0 <= k < |ids| && ids[k] == i;
      }
    }
  }

  /** Overwriting the rows of one authorization replaces its challenges and no others. */
  lemma OverwriteReplaces(t: seq<ChallengeRow>, u: seq<ChallengeRow>, id: string, cs: seq<Challenge>)
    requires SelfNumbered(t) && |cs| == |RowIds(t, id)|
    requires Overwritten(t, u, RowIds(t, id), id, cs, |cs|)
    ensures |Selected(t, id)| == |cs| && Selected(u, id) == NumberedLike(cs, Selected(t, id))
    ensures forall other | other != id :: Selected(u, other) == Selected(t, other)
    ensures SelfNumbered(u) && forall i | 0 <= i < |t| :: u[i].authzID == t[i].authzID
  {
    OverwriteKeepsOwners(t, u, RowIds(t, id), id, cs);
    RowIdsByOwner(t, u, id);
    SelectedAt(t, id);
    SelectedAt(u, id);
    forall other | other != id ensures Selected(u, other) == Selected(t, other) {
      SelectedUntouched(t, u, other);
    }
  }

  lemma SelectedAppends(t: seq<ChallengeRow>, row: ChallengeRow)
    ensures forall id :: Selected(t + [row], id) == Selected(t, id) + if row.authzID == id then [row.challenge] else []
  {
  }

  lemma NumberedSnoc(cs: seq<Challenge>, i: nat, first: int)
    requires i < |cs|
    ensures NumberedFrom(cs[..i + 1], first) == NumberedFrom(cs[..i], first) + [cs[i].(id := first + i)]
  {
  }

  /** The tables as the value that AuthzStore's transactions work on. */
  function Viewed(pending: map<string, Row>, final: map<string, Row>, t: seq<ChallengeRow>): Db {
    Db(pending, final, map id | id in pending.Keys + final.Keys :: Selected(t, id))
  }

  lemma ViewedOverwritten(db: Db, pending: map<string, Row>, final: map<string, Row>, t: seq<ChallengeRow>, u: seq<ChallengeRow>,
                          id: string, cs: seq<Challenge>)
    requires db == Viewed(db.pending, db.final, t)
    requires pending.Keys + final.Keys == db.pending.Keys + db.final.Keys && id in pending.Keys + final.Keys
    requires |Selected(t, id)| == |cs| && Selected(u, id) == NumberedLike(cs, Selected(t, id))
    requires forall other | other != id :: Selected(u, other) == Selected(t, other)
    ensures Viewed(pending, final, u).challenges == db.challenges[id := NumberedLike(cs, ChallengesOf(db, id))]
  {
  }

  lemma {:induction false} ViewedInserted(db: Db, pending: map<string, Row>, t: seq<ChallengeRow>, u: seq<ChallengeRow>, id: string, cs: seq<Challenge>)
    requires db == Viewed(db.pending, db.final, t) && id !in db.pending.Keys + db.final.Keys
    requires pending.Keys == db.pending.Keys + {id}
    requires Selected(u, id) == NumberedFrom(cs, |t|)
    requires forall other | other != id :: Selected(u, other) == Selected(t, other)
    ensures Viewed(pending, db.final, u).challenges == db.challenges[id := NumberedFrom(cs, |t|)]
  {
  }

  // What a rollback undoes: a deletion, an insertion and an update.

  lemma Restored(t: map<string, Row>, id: string)
    requires id in t
    ensures (t - {id})[id := t[id]] == t
  {
  }

  lemma Withdrawn(t: map<string, Row>, id: string, row: Row)
    requires id !in t
    ensures t[id := row] - {id} == t
  {
  }

  lemma Rewritten(t: map<string, Row>, id: string, row: Row)
    requires id in t
    ensures t[id := row][id := t[id]] == t
  {
  }

  // ---------------------------------------------------------------- the class

  class SQLStorageAuthority {
    var pending: map<string, Row>
    var final: map<string, Row>
    var challenges: seq<ChallengeRow>

    ghost predicate Valid()
      reads this
    {
      && SelfNumbered(challenges)
      && pending.Keys !! final.Keys
      && forall i | 0 <= i < |challenges| :: challenges[i].authzID in pending.Keys + final.Keys
    }

    /** The database as the value that AuthzStore's transactions work on. */
    ghost function View(): Db
      reads this
    {
      Viewed(pending, final, challenges)
    }

    constructor ()
      ensures Valid() && View() == Db(map[], map[], map[])
    {
      pending, final, challenges := map[], map[], [];
    }

    /** NewPendingAuthorization: `candidates` are the tokens that NewToken will produce. */
    method NewPendingAuthorization(a: Authorization, candidates: seq<string>) returns (id: Option<string>)
      requires Valid()
      modifies this
      ensures Valid()
      ensures id == Fresh(old(View()), candidates)
      ensures View() == if id.Some? then NewPending(old(View()), id.value, a, |old(challenges)|) else old(View())
    {
      var n := 0;
      while n < |candidates| && (candidates[n] in pending || candidates[n] in final)
        invariant n <= |candidates|
        invariant Fresh(View(), candidates) == Fresh(View(), candidates[n..])
      {
        n := n + 1;
      }
      if n == |candidates| {
        return None;
      }
      var key := candidates[n];
      id := Some(key);
      ghost var before := View();
      NoneSelected(challenges, key);
      InsertChallenges(key, a.challenges);
      pending := pending[key := ToRow(a)];
      ViewedInserted(before, pending, old(challenges), challenges, key, a.challenges);
    }

    /** The challenges of a new authorization get the next row numbers. */
    method InsertChallenges(key: string, cs: seq<Challenge>)
      requires SelfNumbered(challenges) && Selected(challenges, key) == []
      modifies this`challenges
      ensures SelfNumbered(challenges) && |challenges| == |old(challenges)| + |cs|
      ensures Selected(challenges, key) == NumberedFrom(cs, |old(challenges)|)
      ensures forall other | other != key :: Selected(challenges, other) == Selected(old(challenges), other)
      ensures forall i | 0 <= i < |challenges| ::
                if i < |old(challenges)| then challenges[i] == old(challenges)[i] else challenges[i].authzID == key
    {
      for i := 0 to |cs|
        invariant |challenges| == |old(challenges)| + i && SelfNumbered(challenges)
        invariant Selected(challenges, key) == NumberedFrom(cs[..i], |old(challenges)|)
        invariant forall other | other != key :: Selected(challenges, other) == Selected(old(challenges), other)
        invariant forall k | 0 <= k < |challenges| ::
                    if k < |old(challenges)| then challenges[k] == old(challenges)[k] else challenges[k].authzID == key
      {
        var row := ChallengeRow(key, cs[i].(id := |challenges|));
        SelectedAppends(challenges, row);
        NumberedSnoc(cs, i, |old(challenges)|);
        challenges := challenges + [row];
      }
      assert cs[..|cs|] == cs;
    }

    /** updateChallenges: the rows of one authorization are overwritten in order of their IDs. */
    method UpdateChallenges(id: string, cs: seq<Challenge>) returns (ok: bool)
      requires SelfNumbered(challenges)
      modifies this`challenges
      ensures ok <==> |Selected(old(challenges), id)| == |cs|
      ensures !ok ==> challenges == old(challenges)
      ensures ok ==> Selected(challenges, id) == NumberedLike(cs, Selected(old(challenges), id))
      ensures forall other | other != id :: Selected(challenges, other) == Selected(old(challenges), other)
      ensures SelfNumbered(challenges) && |challenges| == |old(challenges)|
      ensures forall i | 0 <= i < |challenges| :: challenges[i].authzID == old(challenges)[i].authzID
    {
      var ids := RowIds(challenges, id);
      SelectedAt(challenges, id);
      if |ids| != |cs| {
        return false;
      }
      for i := 0 to |cs|
        invariant Overwritten(old(challenges), challenges, ids, id, cs, i)
      {
        challenges := challenges[ids[i] := ChallengeRow(id, cs[i].(id := ids[i]))];
        assert ids[..i + 1] == ids[..i] + [ids[i]];
      }
      OverwriteReplaces(old(challenges), challenges, id, cs);
      ok := true;
    }

    method UpdatePendingAuthorization(a: Authorization) returns (ok: bool)
      requires Valid()
      modifies this
      ensures Valid()
      ensures ok <==> UpdatePending(old(View()), a).Some?
      ensures View() == if ok then UpdatePending(old(View()), a).value else old(View())
    {
      if !StatusIsPending(a.status) || a.id in final || a.id !in pending {
        return false;
      }
      var row := pending[a.id];
      pending := pending[a.id := ToRow(a)];
      ok := UpdateChallenges(a.id, a.challenges);
      if ok {
        ViewedOverwritten(old(View()), pending, final, old(challenges), challenges, a.id, a.challenges);
      } else {
        Rewritten(old(pending), a.id, ToRow(a));
        pending := pending[a.id := row];  // rollback
      }
    }

    method FinalizeAuthorization(a: Authorization) returns (ok: bool)
      requires Valid()
      modifies this
      ensures Valid()
      ensures ok <==> Finalize(old(View()), a).Some?
      ensures View() == if ok then Finalize(old(View()), a).value else old(View())
    {
      if a.id !in pending || StatusIsPending(a.status) || a.id in final {
        return false;
      }
      var row := pending[a.id];
      final := final[a.id := ToRow(a)];
      pending := pending - {a.id};
      assert pending.Keys + final.Keys == old(pending.Keys + final.Keys);
      ok := UpdateChallenges(a.id, a.challenges);
      if ok {
        ViewedOverwritten(old(View()), pending, final, old(challenges), challenges, a.id, a.challenges);
      } else {
        Restored(old(pending), a.id);
        Withdrawn(old(final), a.id, ToRow(a));
        pending, final := pending[a.id := row], final - {a.id};  // rollback
      }
    }

    method DeactivateAuthorization(id: string)
      requires Valid()
      modifies this
      ensures Valid() && View() == Deactivate(old(View()), id)
    {
      if id in pending {
        if pending[id].status.Pending? {
          pending := pending[id := pending[id].(status := Deactivated)];
        }
      } else if id in final && final[id].status.Valid? {
        final := final[id := final[id].(status := Deactivated)];
      }
    }

    /** GetAuthorization: the row from whichever table has it, and its challenges. */
    method ReadAuthorization(id: string) returns (a: Option<Authorization>)
      requires Valid()
      ensures a == GetAuthorization(View(), id)
    {
      var row: Row;
      if id in pending {
        row := pending[id];
      } else if id in final {
        row := final[id];
      } else {
        return None;
      }
      a := Some(FromRow(id, row, Selected(challenges, id)));
    }

    method CountPendingAuthorizations(regID: int, now: int) returns (n: nat)
      ensures n == CountPending(View(), regID, now)
    {
      var ids := set id | id in pending && pending[id].regID == regID && pending[id].status.Pending?
                          && pending[id].expires.Some? && pending[id].expires.value > now;
      n := |ids|;
    }

    method CountInvalidAuthorizations(regID: int, hostname: string, earliest: int, latest: int) returns (n: nat)
      ensures n == CountInvalid(View(), regID, hostname, earliest, latest)
    {
      var ids := set id | id in final && final[id].regID == regID
                          && final[id].identifier == Identifier(IDENTIFIER_DNS, hostname)
                          && final[id].expires.Some? && earliest < final[id].expires.value <= latest
                          && final[id].status.Invalid?;
      n := |ids|;
    }

    // -------------------------------------------------------------- revocation by domain

    /** RevokeAuthorizationsByDomain: without interference, the batches amount to one update
        of every matching row of both tables. */
    method RevokeAuthorizationsByDomain(ident: Identifier, now: int) returns (finals: nat, pendings: nat, failed: bool)
      requires Valid()
      modifies this
      ensures Valid() && !failed
      ensures View() == RevokeAll(old(View()), ident, now)
      ensures RevokedByDomain(old(final), final, ident, now, finals)
      ensures RevokedByDomain(old(pending), pending, ident, now, pendings)
    {
      pendings := 0;
      final, finals, failed := RevokeTable(final, ident, now);
      if !failed {
        pending, pendings, failed := RevokeTable(pending, ident, now);
      }
    }
  }

  const GET_AUTHORIZATION_IDS_MAX := 1000

  /** getAuthorizationIDsByDomain: any of the matching rows, as many as the limit allows. */
  method GetAuthorizationIDsByDomain(t: map<string, Row>, ident: Identifier, now: int) returns (ids: set<string>)
    ensures ids <= Revocable(t, ident, now)
    ensures |ids| == Min(1000, |Revocable(t, ident, now)|)
    ensures forall id | id in ids ::
              && id in t && t[id].identifier == ident && t[id].status !in {Status.Invalid, Status.Revoked}
              && t[id].expires.Some? && t[id].expires.value > now
    ensures |ids| < 1000 ==> forall id | id in t && id !in ids ::
              || t[id].identifier != ident || t[id].status in {Status.Invalid, Status.Revoked}
              || t[id].expires.None? || t[id].expires.value <= now
  {
    var matching := Revocable(t, ident, now);
    ids := {};
    while |ids| < GET_AUTHORIZATION_IDS_MAX && matching - ids != {}
      invariant ids <= matching && |ids| <= GET_AUTHORIZATION_IDS_MAX
      decreases matching - ids
    {
      var id :| id in matching - ids;
      ids := ids + {id};
    }
    SubsetSize(ids, matching);
    if |ids| < GET_AUTHORIZATION_IDS_MAX {
      assert ids == matching;
    }
  }

  /** What a revocation of one name does to one table, row by row, and the number of rows it counts. */
  predicate RevokedByDomain(t: map<string, Row>, r: map<string, Row>, ident: Identifier, now: int, count: nat) {
    && r.Keys == t.Keys
    && (forall id | id in t :: r[id] ==
          if || t[id].identifier != ident || t[id].status.Invalid? || t[id].status.Revoked?
             || t[id].expires.None? || t[id].expires.value <= now
          then t[id]
          else t[id].(status := Status.Revoked))
    && count == |set id | id in t && r[id] != t[id]|
  }

  /** The rows that setting their status to revoked changes. */
  function Changed(t: map<string, Row>, ids: set<string>): set<string> {
    set id | id in ids && id in t && !t[id].status.Revoked?
  }

  /** revokeAuthorizations: one UPDATE, row by row, and the number of rows it changed. */
  method RevokeAuthorizations(t: map<string, Row>, ids: set<string>) returns (r: map<string, Row>, n: nat)
    ensures r == MarkRevoked(t, ids) && n == |Changed(t, ids)|
  {
    r, n := t, 0;
    ghost var done: set<string> := {};
    assert MarkRevoked(t, done) == t;
    var rest := ids;
    while rest != {}
      invariant rest !! done && rest + done == ids
      invariant r == MarkRevoked(t, done) && n == |Changed(t, done)|
      decreases |rest|
    {
      var id := Pick(rest);
      ChangedMore(t, done, id);
      MarkRevokedTwice(t, done, {id});
      if id in r && !r[id].status.Revoked? {
        n := n + 1;
      }
      r := MarkRevoked(r, {id});
      rest, done := rest - {id}, done + {id};
    }
  }

  lemma ChangedMore(t: map<string, Row>, ids: set<string>, id: string)
    requires id !in ids
    ensures |Changed(t, ids + {id})| == |Changed(t, ids)| + if id in t && !t[id].status.Revoked? then 1 else 0
  {
    assert Changed(t, ids + {id}) == Changed(t, ids) + Changed(t, {id});
    assert Changed(t, {id}) == if id in t && !t[id].status.Revoked? then {id} else {};
  }

  /** Of the matching rows of t, those in `done` have been revoked, which gives r. */
  ghost predicate Swept(t: map<string, Row>, ident: Identifier, now: int, done: set<string>, r: map<string, Row>) {
    done <= Revocable(t, ident, now) && r == MarkRevoked(t, done)
  }

  /** One turn of the loop: select a batch and revoke it. */
  method RevokeBatch(r: map<string, Row>, ident: Identifier, now: int, ghost t: map<string, Row>, ghost done: set<string>)
    returns (r': map<string, Row>, found: nat, revoked: nat, ghost done': set<string>)
    requires Swept(t, ident, now, done, r)
    ensures Swept(t, ident, now, done', r')
    ensures found == revoked && |done'| == |done| + found
    ensures found == 0 ==> done' == Revocable(t, ident, now)
  {
    RevocableAfter(t, ident, now, done);
    var ids := GetAuthorizationIDsByDomain(r, ident, now);
    SweptMore(t, ident, now, done, ids);
    r', revoked := RevokeAuthorizations(r, ids);
    found, done' := |ids|, done + ids;
  }

  lemma SweptMore(t: map<string, Row>, ident: Identifier, now: int, done: set<string>, ids: set<string>)
    requires done <= Revocable(t, ident, now) && ids <= Revocable(t, ident, now) - done
    ensures Swept(t, ident, now, done + ids, MarkRevoked(MarkRevoked(t, done), ids))
    ensures |done + ids| == |done| + |ids| && Changed(MarkRevoked(t, done), ids) == ids
  {
  }

  /** One table of RevokeAuthorizationsByDomain: batches until nothing matches. */
  method RevokeTable(t: map<string, Row>, ident: Identifier, now: int) returns (r: map<string, Row>, total: nat, failed: bool)
    ensures r == MarkRevoked(t, Revocable(t, ident, now)) && !failed
    ensures RevokedByDomain(t, r, ident, now, total)
  {
    r, total, failed := t, 0, false;
    ghost var done, all := {}, |Revocable(t, ident, now)|;
    assert MarkRevoked(t, {}) == t;
    while true
      invariant Swept(t, ident, now, done, r) && total == |done| <= all && !failed
      decreases all - total
    {
      var found, revoked;
      r, found, revoked, done := RevokeBatch(r, ident, now, t, done);
      SubsetSize(done, Revocable(t, ident, now));
      if found == 0 {
        break;
      }
      total := total + revoked;
      if revoked < found {
        failed := true;
        break;
      }
    }
    MarkedByDomain(t, ident, now);
  }

  lemma RevocableAfter(t: map<string, Row>, ident: Identifier, now: int, done: set<string>)
    ensures Revocable(MarkRevoked(t, done), ident, now) == Revocable(t, ident, now) - done
  {
  }

  lemma MarkRevokedTwice(t: map<string, Row>, a: set<string>, b: set<string>)
    ensures MarkRevoked(MarkRevoked(t, a), b) == MarkRevoked(t, a + b)
  {
  }

  function RevokeAll(db: Db, ident: Identifier, now: int): Db {
    db.(final := MarkRevoked(db.final, Revocable(db.final, ident, now)),
        pending := MarkRevoked(db.pending, Revocable(db.pending, ident, now)))
  }

  /** After a revocation by domain no unexpired row for the name is other than invalid or
      revoked, and every row it did not have to touch is as it was. */
  /** Of both tables exactly the unexpired rows of the name that are neither invalid nor revoked
      become revoked; nothing else changes, and a second revocation would find nothing. */
  lemma RevokeAllLeavesNone(db: Db, ident: Identifier, now: int)
    ensures var r := RevokeAll(db, ident, now);
            && r.challenges == db.challenges
            && RevokedByDomain(db.final, r.final, ident, now, |Revocable(db.final, ident, now)|)
            && RevokedByDomain(db.pending, r.pending, ident, now, |Revocable(db.pending, ident, now)|)
            && Revocable(r.final, ident, now) == {} && Revocable(r.pending, ident, now) == {}
  {
    MarkedByDomain(db.final, ident, now);
    MarkedByDomain(db.pending, ident, now);
    RevocableAfter(db.final, ident, now, Revocable(db.final, ident, now));
    RevocableAfter(db.pending, ident, now, Revocable(db.pending, ident, now));
  }

  lemma MarkedByDomain(t: map<string, Row>, ident: Identifier, now: int)
    ensures RevokedByDomain(t, MarkRevoked(t, Revocable(t, ident, now)), ident, now, |Revocable(t, ident, now)|)
  {
    var r := MarkRevoked(t, Revocable(t, ident, now));
    assert Revocable(t, ident, now) == set id | id in t && r[id] != t[id];
  }
}
