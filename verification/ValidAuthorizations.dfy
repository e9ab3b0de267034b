/** Which names an account may have certificates for: GetValidAuthorizations of the Storage
    Authority (sa/sa.go) and checkAuthorizations of the Registration Authority (ra/ra.go). */
module ValidAuthorizations {
  import opened Prelude
  import opened Names
  import opened Acme
  import opened AuthzStore

  /** A row that entitles the account to the name now. */
  predicate Entitles(r: Row, regID: int, name: string, now: int) {
    && r.regID == regID
    && r.identifier == Identifier(IDENTIFIER_DNS, name)
    && r.status.Valid?
    && r.expires.Some? && r.expires.value > now
  }

  ghost predicate Entitled(final: map<string, Row>, regID: int, name: string, now: int) {
    exists id | id in final :: Entitles(final[id], regID, name, now)
  }

  /** Entitlement, field by field. */
  lemma EntitledIff(final: map<string, Row>, regID: int, name: string, now: int)
    ensures Entitled(final, regID, name, now) <==> exists id | id in final ::
              && final[id].regID == regID && final[id].identifier == Identifier("dns", name)
              && final[id].status == Valid && final[id].expires.Some? && now < final[id].expires.value
  {
    forall id | id in final
      ensures Entitles(final[id], regID, name, now) <==>
              && final[id].regID == regID && final[id].identifier == Identifier("dns", name)
              && final[id].status == Valid && final[id].expires.Some? && now < final[id].expires.value
    {
    }
  }

  /** An entitling row that no entitling row outlasts. */
  predicate Latest(final: map<string, Row>, regID: int, name: string, now: int, id: string) {
    && id in final && Entitles(final[id], regID, name, now)
    && forall other | other in final && Entitles(final[other], regID, name, now) ::
         final[other].expires.value <= final[id].expires.value
  }

  /** selectAuthzs with the conditions of GetValidAuthorizations, in any order. */
  method SelectValid(final: map<string, Row>, regID: int, names: seq<string>, now: int) returns (auths: seq<Authorization>)
    ensures forall k | 0 <= k < |auths| ::
              && auths[k].id in final && auths[k] == FromRow(auths[k].id, final[auths[k].id], [])
              && auths[k].identifier.value in names
              && Entitles(final[auths[k].id], regID, auths[k].identifier.value, now)
    ensures forall id, name | id in final && name in names && Entitles(final[id], regID, name, now) ::
              FromRow(id, final[id], []) in auths
  {
    var left := final.Keys;
    auths := [];
    while left != {}
      invariant left <= final.Keys
      invariant forall k | 0 <= k < |auths| ::
                  && auths[k].id in final && auths[k] == FromRow(auths[k].id, final[auths[k].id], [])
                  && auths[k].identifier.value in names
                  && Entitles(final[auths[k].id], regID, auths[k].identifier.value, now)
      invariant forall id, name | id in final && id !in left && name in names && Entitles(final[id], regID, name, now) ::
                  FromRow(id, final[id], []) in auths
      decreases left
    {
      var id :| id in left;
      left := left - {id};
      var row := final[id];
      if row.identifier.value in names && Entitles(row, regID, row.identifier.value, now) {
        auths := auths + [FromRow(id, row, [])];
      }
    }
  }

  predicate Dated(a: Authorization, name: string) {
    a.expires.Some? && a.identifier.value == name
  }

  /** m holds, for each name with a dated authorization among the first n, one that expires last. */
  ghost predicate LatestByName(auths: seq<Authorization>, n: nat, m: map<string, Authorization>)
    requires n <= |auths|
  {
    && (forall name | name in m :: Dated(m[name], name) && m[name] in auths[..n])
    && (forall k | 0 <= k < n :: auths[k].expires.Some? ==>
          && auths[k].identifier.value in m
          && m[auths[k].identifier.value].expires.Some?
          && auths[k].expires.value <= m[auths[k].identifier.value].expires.value)
  }

  /** The loop that keeps the latest authorization of each name. */
  method IndexByName(auths: seq<Authorization>) returns (r: Result<map<string, Authorization>, string>)
    ensures r.Err? <==> exists k | 0 <= k < |auths| :: auths[k].expires.Some? && auths[k].identifier.kind != IDENTIFIER_DNS
    ensures r.Ok? ==> LatestByName(auths, |auths|, r.value)
  {
    var byName: map<string, Authorization> := map[];
    for i := 0 to |auths|
      invariant forall k | 0 <= k < i :: auths[k].expires.Some? ==> auths[k].identifier.kind == IDENTIFIER_DNS
      invariant LatestByName(auths, i, byName)
    {
      var a := auths[i];
      assert auths[..i + 1] == auths[..i] + [a];
      if a.expires.None? {
        continue;
      }
      if a.identifier.kind != IDENTIFIER_DNS {
        return Err("unknown identifier type");
      }
      var name := a.identifier.value;
      if name !in byName || a.expires.value > byName[name].expires.value {
        byName := byName[name := a];
      }
    }
    assert auths[..|auths|] == auths;
    r := Ok(byName);
  }

  /** For each requested name there is an entry exactly when the account is entitled to the
      name, and no entitling row outlasts it. */
  method GetValidAuthorizations(final: map<string, Row>, regID: int, names: seq<string>, now: int)
    returns (r: Result<map<string, Authorization>, string>)
    ensures r.Err? <==> names == []
    ensures r.Ok? ==> forall name | name in names :: name in r.value <==> Entitled(final, regID, name, now)
    ensures r.Ok? ==> forall name | name in r.value ::
              && name in names
              && Latest(final, regID, name, now, r.value[name].id)
              && r.value[name] == FromRow(r.value[name].id, final[r.value[name].id], [])
  {
    if names == [] {
      return Err("no names received");
    }
    var auths := SelectValid(final, regID, names, now);
    r := IndexByName(auths);
    if r.Ok? {
      forall name, id | name in names && id in final && Entitles(final[id], regID, name, now)
        ensures name in r.value && r.value[name].expires.Some? && final[id].expires.value <= r.value[name].expires.value
      {
        var k :| 0 <= k < |auths| && auths[k] == FromRow(id, final[id], []);
      }
      forall name | name in r.value
        ensures name in names && Latest(final, regID, name, now, r.value[name].id)
        ensures r.value[name] == FromRow(r.value[name].id, final[r.value[name].id], [])
      {
        var k :| 0 <= k < |auths| && auths[k] == r.value[name];
      }
    }
  }

  /** The loop of checkAuthorizations over whatever the Storage Authority answered. */
  method JudgeNames(names: seq<string>, auths: map<string, Authorization>, now: int) returns (r: Result<(), string>)
    ensures r.Ok? <==> forall i | 0 <= i < |names| ::
              names[i] in auths && auths[names[i]].expires.Some? && auths[names[i]].expires.value >= now
  {
    var badNames := [];
    for i := 0 to |names|
      invariant badNames == [] <==> forall k | 0 <= k < i ::
                  names[k] in auths && auths[names[k]].expires.Some? && auths[names[k]].expires.value >= now
    {
      var name := names[i];
      if name !in auths {
        badNames := badNames + [name];
      } else if auths[name].expires.None? {
        return Err("found an authorization with a nil Expires field");
      } else if auths[name].expires.value < now {
        badNames := badNames + [name];
      }
    }
    if badNames != [] {
      return Err("authorizations for these names not found or expired");
    }
    r := Ok(());
  }

  /** Issuance is allowed exactly for a non-empty list of names to each of which, in lower
      case, the account is entitled. */
  method CheckAuthorizations(final: map<string, Row>, names: seq<string>, regID: int, now: int) returns (r: Result<(), string>)
    ensures r.Ok? <==> names != [] && forall i | 0 <= i < |names| :: Entitled(final, regID, ToLower(names[i]), now)
  {
    var lowered := [];
    for i := 0 to |names|
      invariant |lowered| == i && forall k | 0 <= k < i :: lowered[k] == ToLower(names[k])
    {
      lowered := lowered + [ToLower(names[i])];
    }
    var auths := GetValidAuthorizations(final, regID, lowered, now);
    if auths.Err? {
      return Err(auths.error);
    }
    r := JudgeNames(lowered, auths.value, now);
    forall i | 0 <= i < |names|
      ensures Entitled(final, regID, ToLower(names[i]), now)
         <==> lowered[i] in auths.value && auths.value[lowered[i]].expires.Some? && auths.value[lowered[i]].expires.value >= now
    {
      assert lowered[i] in lowered;
    }
  }
}
