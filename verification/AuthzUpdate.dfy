/** What the Registration Authority computes when a challenge is answered (ra/ra.go):
    the checks made before validation, the effect of a validation result on the challenge,
    and the verdict on the whole authorization. */
module AuthzUpdate {
  import opened Prelude
  import opened Acme

  datatype Policy = Policy(pendingLifetime: int, authorizationLifetime: int, reuseValidAuthz: bool)

  datatype Answer =
    | Refused(reason: string)
    | AlreadyValid
    | Proceed(authz: Authorization)

  /** The key authorization a client holding the account key must provide. */
  function ExpectedKeyAuthorization(ch: Challenge, thumbprint: string): string {
    ch.token + "." + thumbprint
  }

  /** UpdateAuthorization up to the call that stores the answered challenge. `thumbprint` is
      that of the account key, None when the registration cannot be read. */
  function CheckAnswer(policy: Policy, now: int, base: Authorization, index: nat, provided: string,
                       thumbprint: Option<string>): Answer
  {
    if base.expires.None? || base.expires.value < now then Refused("expired authorization")
    else if index >= |base.challenges| then Refused("invalid challenge index")
    else if policy.reuseValidAuthz && base.status.Valid? then AlreadyValid
    else if thumbprint.None? then Refused("registration not found")
    else if ExpectedKeyAuthorization(base.challenges[index], thumbprint.value) != provided then
      Refused("provided key authorization was incorrect")
    else
      var answered := base.challenges[index].(keyAuthorization := provided);
      if !IsSane(answered, true) then Refused("response does not complete challenge")
      else Proceed(base.(challenges := base.challenges[index := answered]))
  }

  /** A token and the thumbprint of a key, joined by a dot, are always a key authorization. */
  lemma ExpectedIsKeyAuthorization(ch: Challenge, thumbprint: string)
    requires LooksLikeAToken(ch.token) && LooksLikeAToken(thumbprint)
    ensures LooksLikeKeyAuthorization(ExpectedKeyAuthorization(ch, thumbprint))
  {
  }

  /** An answer goes through if and only if the authorization has not expired and is not one to be reused,
      the challenge is pending with a token, and the answer is the token, a dot and the thumbprint of
      the account's key. It then changes that key authorization and nothing else. */
  lemma AnswerAcceptedIff(policy: Policy, now: int, base: Authorization, index: nat, provided: string, thumbprint: Option<string>)
    ensures var answer := CheckAnswer(policy, now, base, index, provided, thumbprint);
            && (answer.Proceed? <==>
                  && base.expires.Some? && now <= base.expires.value && !(policy.reuseValidAuthz && base.status == Valid)
                  && index < |base.challenges| && base.challenges[index].status == Pending && LooksLikeAToken(base.challenges[index].token)
                  && thumbprint.Some? && LooksLikeAToken(thumbprint.value)
                  && provided == base.challenges[index].token + "." + thumbprint.value)
            && (answer.Proceed? ==>
                  answer.authz == base.(challenges := base.challenges[index := base.challenges[index].(keyAuthorization := provided)]))
            && (answer.AlreadyValid? <==>
                  && base.expires.Some? && now <= base.expires.value && index < |base.challenges|
                  && policy.reuseValidAuthz && base.status == Valid)
  {
    if index < |base.challenges| && thumbprint.Some? && LooksLikeAToken(base.challenges[index].token) {
      var expected := base.challenges[index].token + "." + thumbprint.value;
      assert expected[..43] == base.challenges[index].token && expected[44..] == thumbprint.value;
      KeyAuthorizationIff(expected);
    }
  }

  /** The challenge after the Validation Authority has reported. */
  function Outcome(ch: Challenge, records: seq<ValidationRecord>, problem: Option<string>): Challenge {
    var seen := ch.(records := records);
    if problem.Some? then seen.(status := Invalid, error := problem)
    else if !RecordsSane(seen) then
      seen.(status := Invalid, error := Some("Records for validation failed sanity check"))
    else seen.(status := Valid)
  }

  /** Every challenge a combination names has been validated. */
  predicate Fulfilled(combo: seq<int>, cs: seq<Challenge>) {
    forall k | 0 <= k < |combo| :: 0 <= combo[k] < |cs| && cs[combo[k]].status.Valid?
  }

  predicate SomeFulfilled(combos: seq<seq<int>>, cs: seq<Challenge>) {
    exists c | 0 <= c < |combos| :: Fulfilled(combos[c], cs)
  }

  /** onValidationUpdate up to the call that finalizes. */
  function Verdict(policy: Policy, now: int, a: Authorization): Authorization {
    if a.status.Valid? || SomeFulfilled(a.combinations, a.challenges)
    then a.(status := Valid, expires := Some(now + policy.authorizationLifetime))
    else a.(status := Invalid)
  }
}
