/** ACME objects of core/objects.go and the sanity checks made on them. */
module Acme {
  import opened Prelude
  import opened Names

  datatype Status = Unknown | Pending | Processing | Valid | Invalid | Revoked | Deactivated

  predicate StatusIsPending(s: Status) {
    s.Pending? || s.Processing? || s.Unknown?
  }

  datatype Identifier = Identifier(kind: string, value: string)

  const IDENTIFIER_DNS := "dns"

  datatype ValidationRecord = ValidationRecord(
    url: string,
    hostname: string,
    port: string,
    addressesResolved: seq<string>,
    addressUsed: Option<string>)

  datatype Challenge = Challenge(
    id: int,
    kind: string,
    status: Status,
    error: Option<string>,
    token: string,
    keyAuthorization: string,
    records: seq<ValidationRecord>)

  const HTTP01 := "http-01"
  const TLSSNI01 := "tls-sni-01"
  const TLSSNI02 := "tls-sni-02"
  const DNS01 := "dns-01"

  predicate KnownKind(kind: string) {
    kind == HTTP01 || kind == TLSSNI01 || kind == TLSSNI02 || kind == DNS01
  }

  datatype Authorization = Authorization(
    id: string,
    identifier: Identifier,
    regID: int,
    status: Status,
    expires: Option<int>,
    challenges: seq<Challenge>,
    combinations: seq<seq<int>>)

  /** `[\w-]` of the token format. */
  predicate TokenChar(c: char) {
    'a' <= c <= 'z' || 'A' <= c <= 'Z' || '0' <= c <= '9' || c == '_' || c == '-'
  }

  predicate LooksLikeAToken(s: string) {
    |s| == 43 && forall i | 0 <= i < |s| :: TokenChar(s[i])
  }

  predicate LooksLikeKeyAuthorization(s: string) {
    var parts := Split(s, '.');
    |parts| == 2 && LooksLikeAToken(parts[0]) && LooksLikeAToken(parts[1])
  }

  predicate IsSane(ch: Challenge, completed: bool) {
    && ch.status.Pending?
    && LooksLikeAToken(ch.token)
    && (!completed ==> ch.keyAuthorization == "")
    && (completed ==> LooksLikeKeyAuthorization(ch.keyAuthorization))
  }

  predicate AddressedRecord(r: ValidationRecord) {
    r.hostname != "" && r.port != "" && r.addressUsed.Some? && |r.addressesResolved| > 0
  }

  predicate RecordsSane(ch: Challenge) {
    && |ch.records| > 0
    && if ch.kind == HTTP01 then
         forall i | 0 <= i < |ch.records| :: ch.records[i].url != "" && AddressedRecord(ch.records[i])
       else if ch.kind == TLSSNI01 || ch.kind == TLSSNI02 then
         |ch.records| == 1 && ch.records[0].url == "" && AddressedRecord(ch.records[0])
       else
         ch.kind == DNS01 && |ch.records| == 1 && ch.records[0].hostname != ""
  }

  /** RecordsSane as the loop that it is. */
  method CheckRecords(ch: Challenge) returns (sane: bool)
    ensures sane <==> RecordsSane(ch)
  {
    if |ch.records| == 0 {
      return false;
    }
    if ch.kind == "http-01" {
      for i := 0 to |ch.records|
        invariant forall k | 0 <= k < i :: ch.records[k].url != "" && AddressedRecord(ch.records[k])
      {
        var rec := ch.records[i];
        if rec.url == "" || rec.hostname == "" || rec.port == "" || rec.addressUsed.None? || |rec.addressesResolved| == 0 {
          return false;
        }
      }
    } else if ch.kind == "tls-sni-01" || ch.kind == "tls-sni-02" {
      if |ch.records| > 1 || ch.records[0].url != "" {
        return false;
      }
      var rec := ch.records[0];
      if rec.hostname == "" || rec.port == "" || rec.addressUsed.None? || |rec.addressesResolved| == 0 {
        return false;
      }
    } else {
      return ch.kind == "dns-01" && |ch.records| == 1 && ch.records[0].hostname != "";
    }
    sane := true;
  }

  /** Key authorizations are exactly the pairs of tokens joined by a dot. */
  lemma KeyAuthorizationIff(s: string)
    ensures LooksLikeKeyAuthorization(s)
            <==> |s| == 87 && s[43] == '.' && LooksLikeAToken(s[..43]) && LooksLikeAToken(s[44..])
  {
    var parts := Split(s, '.');
    JoinSplit(s, '.');
    if |parts| == 2 {
      assert parts[1..] == [parts[1]];
    }
    if |s| == 87 && s[43] == '.' && LooksLikeAToken(s[..43]) && LooksLikeAToken(s[44..]) {
      CutAt(s, 43, '.');
      SplitCut(s[..43], s[44..], '.');
      SplitWhole(s[44..], '.');
    }
  }

  /** A challenge that is sane has a token and is pending; before it is completed it has no key
      authorization, and when it is completed it has one. */
  lemma SaneStages(ch: Challenge)
    ensures IsSane(ch, false) <==> ch.status == Pending && LooksLikeAToken(ch.token) && |ch.keyAuthorization| == 0
    ensures IsSane(ch, true) ==> ch.status == Pending && LooksLikeAToken(ch.token) && |ch.keyAuthorization| == 87
    ensures forall token | LooksLikeAToken(token) && IsSane(ch, false) ::
              IsSane(ch.(keyAuthorization := ch.token + "." + token), true)
  {
    KeyAuthorizationIff(ch.keyAuthorization);
    forall token | LooksLikeAToken(token) && IsSane(ch, false)
      ensures IsSane(ch.(keyAuthorization := ch.token + "." + token), true)
    {
      var s := ch.token + "." + token;
      assert s[..43] == ch.token && s[44..] == token;
      KeyAuthorizationIff(s);
    }
  }
}
