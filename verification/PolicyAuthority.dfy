/** The challenges offered for an identifier (policy/pa.go, core/challenges.go): fresh, sane, one of
    each enabled kind, in random order, any one of which is enough. */
module PolicyAuthority {
  import opened Prelude
  import opened Acme
  import opened AuthzLifecycle
  import B64 = Base64Url

  /** What Perm(n) of the random source returns. */
  predicate Permutation(perm: seq<nat>, n: nat) {
    && |perm| == n
    && (forall i | 0 <= i < n :: perm[i] < n)
    && (forall i, j | 0 <= i < j < n :: perm[i] != perm[j])
    && (forall k | 0 <= k < n :: k in perm)
  }

  /** newChallenge, given the bytes of its token. */
  function NewChallenge(kind: string, random: Bytes): Challenge {
    Challenge(0, kind, Pending, None, B64.RandomString(random), "", [])
  }

  predicate Offers(enabled: set<string>, allowTLS02: bool, kind: string) {
    && kind in enabled
    && (kind == HTTP01 || kind == TLSSNI01 || (kind == TLSSNI02 && allowTLS02) || kind == DNS01)
  }

  predicate DistinctKinds(cs: seq<Challenge>) {
    forall i, j | 0 <= i < j < |cs| :: cs[i].kind != cs[j].kind
  }

  predicate HasKind(cs: seq<Challenge>, kind: string) {
    exists i | 0 <= i < |cs| :: cs[i].kind == kind
  }

  predicate AllSane(cs: seq<Challenge>) {
    forall i | 0 <= i < |cs| :: IsSane(cs[i], false)
  }

  /** The enabled challenges, in the order of the code. */
  method EnabledChallenges(enabled: set<string>, allowTLS02: bool, random: seq<Bytes>) returns (cs: seq<Challenge>)
    requires |random| == 4 && forall i | 0 <= i < 4 :: |random[i]| == 32
    ensures AllKnown(cs) && AllSane(cs) && DistinctKinds(cs)
    ensures forall kind :: HasKind(cs, kind) <==> Offers(enabled, allowTLS02, kind)
  {
    cs := AppendIf(HTTP01 in enabled, [], HTTP01, random[0]);
    cs := AppendIf(TLSSNI01 in enabled, cs, TLSSNI01, random[1]);
    cs := AppendIf(allowTLS02 && TLSSNI02 in enabled, cs, TLSSNI02, random[2]);
    cs := AppendIf(DNS01 in enabled, cs, DNS01, random[3]);
  }

  method AppendIf(offered: bool, cs: seq<Challenge>, kind: string, random: Bytes) returns (r: seq<Challenge>)
    requires |random| == 32 && KnownKind(kind) && !HasKind(cs, kind)
    requires AllKnown(cs) && AllSane(cs) && DistinctKinds(cs)
    ensures AllKnown(r) && AllSane(r) && DistinctKinds(r)
    ensures forall k :: HasKind(r, k) <==> HasKind(cs, k) || (offered && k == kind)
  {
    if !offered {
      return cs;
    }
    var c := NewChallenge(kind, random);
    B64.NewTokenLooksLikeAToken(random);
    r := cs + [c];
    forall k ensures HasKind(r, k) <==> HasKind(cs, k) || k == kind {
      if HasKind(cs, k) {
        var i :| 0 <= i < |cs| && cs[i].kind == k;
        assert r[i].kind == k;
      }
      assert r[|cs|].kind == kind;
    }
  }

  /** The two loops that fill the shuffled arrays. */
  method Shuffle(cs: seq<Challenge>, perm: seq<nat>, comboPerm: seq<nat>)
    returns (shuffled: seq<Challenge>, shuffledCombos: seq<seq<int>>)
    requires Permutation(perm, |cs|) && Permutation(comboPerm, |cs|)
    ensures |shuffled| == |cs| && forall i | 0 <= i < |cs| :: shuffled[i] == cs[perm[i]]
    ensures |shuffledCombos| == |cs| && forall i | 0 <= i < |cs| :: shuffledCombos[i] == [comboPerm[i]]
  {
    var n := |cs|;
    var challenges, combinations := new Challenge[n](i requires 0 <= i < n => cs[i]), new seq<int>[n](_ => []);
    for i := 0 to n
      invariant forall k | 0 <= k < i :: challenges[k] == cs[perm[k]] && combinations[k] == [k]
    {
      challenges[i] := cs[perm[i]];
      combinations[i] := [i];
    }
    var combos := new seq<int>[n](_ => []);
    for i := 0 to n
      invariant forall k | 0 <= k < n :: challenges[k] == cs[perm[k]] && combinations[k] == [k]
      invariant forall k | 0 <= k < i :: combos[k] == [comboPerm[k]]
    {
      combos[i] := combinations[comboPerm[i]];
    }
    shuffled, shuffledCombos := challenges[..], combos[..];
  }

  lemma ShuffledKinds(cs: seq<Challenge>, perm: seq<nat>, shuffled: seq<Challenge>)
    requires Permutation(perm, |cs|)
    requires |shuffled| == |cs| && forall i | 0 <= i < |cs| :: shuffled[i] == cs[perm[i]]
    requires AllKnown(cs) && AllSane(cs) && DistinctKinds(cs)
    ensures AllKnown(shuffled) && AllSane(shuffled) && DistinctKinds(shuffled)
    ensures forall kind :: HasKind(shuffled, kind) <==> HasKind(cs, kind)
  {
    forall i, j | 0 <= i < j < |cs| ensures shuffled[i].kind != shuffled[j].kind {
      assert perm[i] != perm[j];
    }
    forall kind ensures HasKind(shuffled, kind) <==> HasKind(cs, kind) {
      if HasKind(cs, kind) {
        var k :| 0 <= k < |cs| && cs[k].kind == kind;
        assert k in perm;
        var i :| 0 <= i < |perm| && perm[i] == k;
        assert shuffled[i].kind == kind;
      }
    }
  }

  /** ChallengesFor. `Offer` is what the lifecycle of authorizations rests on. */
  method ChallengesFor(enabled: set<string>, allowTLS02: bool, random: seq<Bytes>, perms: (nat, bool) -> seq<nat>)
    returns (challenges: seq<Challenge>, combinations: seq<seq<int>>)
    requires |random| == 4 && forall i | 0 <= i < 4 :: |random[i]| == 32
    requires forall n, b :: Permutation(perms(n, b), n)
    ensures Offer(challenges, combinations) && |combinations| == |challenges|
    ensures AllSane(challenges) && DistinctKinds(challenges)
    ensures forall kind :: HasKind(challenges, kind) <==> Offers(enabled, allowTLS02, kind)
  {
    var cs := EnabledChallenges(enabled, allowTLS02, random);
    var perm, comboPerm := perms(|cs|, false), perms(|cs|, true);
    challenges, combinations := Shuffle(cs, perm, comboPerm);
    ShuffledKinds(cs, perm, challenges);
    forall i | 0 <= i < |challenges| ensures [i] in combinations {
      assert i in comboPerm;
      var k :| 0 <= k < |comboPerm| && comboPerm[k] == i;
      assert combinations[k] == [i];
    }
  }
}
