/** CAA checking (va/va.go): the parallel lookup of a name and its parents, and the decision
    on the records found, against the climb of section 4 of RFC 6844. */
module Caa {
  import opened Prelude
  import opened Names

  datatype Record = Record(flag: bv8, tag: string, value: string)

  /** The outcome of one CAA query. */
  datatype Lookup = Found(records: seq<Record>) | Failed(error: string)

  type Resolver = string -> Lookup

  // ---------------------------------------------------------------- the climb

  /** Section 4 of RFC 6844: query the name; on no records go on to the parent. */
  function Climb(resolve: Resolver, name: string): Lookup
    decreases |name|
  {
    var r := resolve(name);
    var dot := IndexOf(name, '.');
    if r.Failed? || |r.records| > 0 || dot == |name| then r
    else Climb(resolve, name[dot + 1..])
  }

  /** The first error or non-empty answer, or the empty answer. */
  function FirstAnswer(results: seq<Lookup>): Lookup {
    if |results| == 0 then Found([])
    else if results[0].Failed? || |results[0].records| > 0 then results[0]
    else FirstAnswer(results[1..])
  }

  /** The results array once every goroutine has written its slot. */
  function Results(resolve: Resolver, labels: seq<string>): (r: seq<Lookup>)
    ensures |r| == |labels|
    ensures forall i | 0 <= i < |labels| :: r[i] == resolve(Join(labels[i..], '.'))
  {
    seq(|labels|, i requires 0 <= i < |labels| => resolve(Join(labels[i..], '.')))
  }

  /** Looking up all parents and then taking the first answer is the climb. */
  lemma {:induction false} FirstAnswerIsClimb(resolve: Resolver, name: string)
    ensures FirstAnswer(Results(resolve, Split(name, '.'))) == Climb(resolve, name)
    decreases |name|
  {
    var labels := Split(name, '.');
    var results := Results(resolve, labels);
    var dot := IndexOf(name, '.');
    assert labels[0..] == labels;
    JoinSplit(name, '.');
    assert results[0] == resolve(name);
    if dot < |name| {
      var parent := name[dot + 1..];
      FirstAnswerIsClimb(resolve, parent);
      assert labels[1..] == Split(parent, '.');
      forall i | 0 <= i < |labels| - 1 ensures results[1..][i] == Results(resolve, Split(parent, '.'))[i] {
        assert labels[i + 1..] == Split(parent, '.')[i..];
      }
      assert results[1..] == Results(resolve, Split(parent, '.'));
    }
  }

  lemma {:induction false} FirstAnswerAt(results: seq<Lookup>) returns (k: nat)
    requires |results| > 0
    ensures k < |results| && FirstAnswer(results) == results[k]
    ensures forall i | 0 <= i < k :: results[i] == Found([])
    ensures k == |results| - 1 || results[k] != Found([])
  {
    k := 0;
    if results[0] == Found([]) && |results| > 1 {
      k := FirstAnswerAt(results[1..]);
      k := k + 1;
    }
  }

  /** Where the climb ends: at the nearest name, counting from the name itself upwards a label at a time,
      for which the query fails or finds records, or else at the last label. */
  lemma ClimbEnds(resolve: Resolver, name: string) returns (k: nat)
    ensures var labels := Split(name, '.');
            && k < |labels| && Climb(resolve, name) == resolve(Join(labels[k..], '.'))
            && (forall i | 0 <= i < k :: resolve(Join(labels[i..], '.')) == Found([]))
            && (k == |labels| - 1 || resolve(Join(labels[k..], '.')) != Found([]))
  {
    FirstAnswerIsClimb(resolve, name);
    k := FirstAnswerAt(Results(resolve, Split(name, '.')));
  }

  /** The order in which the goroutines of one lookup finish. */
  predicate Schedule(order: seq<nat>, name: string) {
    && (forall k | 0 <= k < |order| :: order[k] < |Split(name, '.')|)
    && (forall i | 0 <= i < |Split(name, '.')| :: i in order)
  }

  /** parallelCAALookup: the goroutines write their slots in whatever order they finish. */
  method ParallelCAALookup(resolve: Resolver, name: string, order: seq<nat>) returns (results: seq<Lookup>)
    requires Schedule(order, name)
    ensures results == Results(resolve, Split(name, '.'))
  {
    var labels := Split(name, '.');
    var slots := new Lookup[|labels|](_ => Found([]));
    for k := 0 to |order|
      invariant forall j | 0 <= j < k :: slots[order[j]] == resolve(Join(labels[order[j]..], '.'))
    {
      slots[order[k]] := resolve(Join(labels[order[k]..], '.'));
    }
    forall i | 0 <= i < |labels| ensures slots[i] == Results(resolve, labels)[i] {
      assert i in order;
      var j :| 0 <= j < |order| && order[j] == i;
    }
    results := slots[..];
  }

  method ParseResults(results: seq<Lookup>) returns (r: Lookup)
    ensures r == FirstAnswer(results)
  {
    for i := 0 to |results|
      invariant FirstAnswer(results) == FirstAnswer(results[i..])
    {
      if results[i].Failed? || |results[i].records| > 0 {
        return results[i];
      }
      assert results[i..][1..] == results[i + 1..];
    }
    r := Found([]);
  }

  // ---------------------------------------------------------------- the decision

  datatype CAASet = CAASet(issue: seq<Record>, issuewild: seq<Record>, iodef: seq<Record>, unknown: seq<Record>)

  predicate KnownTag(tag: string) {
    tag == "issue" || tag == "issuewild" || tag == "iodef"
  }

  /** The critical bit, or the lowest bit that is often set in its place. */
  predicate Critical(r: Record) {
    (r.flag & (128 | 1)) != 0
  }

  predicate Blank(c: char) {
    c == ' ' || c == '\t'
  }

  function TrimStart(s: string): string {
    if |s| > 0 && Blank(s[0]) then TrimStart(s[1..]) else s
  }

  function TrimEnd(s: string): string {
    if |s| > 0 && Blank(s[|s| - 1]) then TrimEnd(s[..|s| - 1]) else s
  }

  function Trim(s: string): string {
    TrimEnd(TrimStart(s))
  }

  /** extractIssuerDomain. */
  function ExtractIssuerDomain(value: string): string {
    var v := Trim(value);
    var i := IndexOf(v, ';');
    if i == |v| then v else Trim(v[..i])
  }

  /** The issuer named by a record: what stands before the first semicolon, without blanks. */
  function Issuer(r: Record): string {
    Trim(r.value[..IndexOf(r.value, ';')])
  }

  predicate AllBlank(s: string) {
    forall i | 0 <= i < |s| :: Blank(s[i])
  }

  lemma {:induction false} TrimStartSplits(s: string) returns (k: nat)
    ensures k <= |s| && TrimStart(s) == s[k..] && AllBlank(s[..k]) && (k < |s| ==> !Blank(s[k]))
  {
    k := 0;
    if |s| > 0 && Blank(s[0]) {
      var rest := s[1..];
      k := TrimStartSplits(rest);
      assert s[..k + 1] == [s[0]] + rest[..k];
      k := k + 1;
    }
  }

  lemma {:induction false} TrimEndSplits(s: string) returns (m: nat)
    ensures m <= |s| && TrimEnd(s) == s[..m] && AllBlank(s[m..]) && (m > 0 ==> !Blank(s[m - 1]))
  {
    m := |s|;
    if |s| > 0 && Blank(s[|s| - 1]) {
      var rest := s[..|s| - 1];
      m := TrimEndSplits(rest);
      assert s[m..] == rest[m..] + [s[|s| - 1]];
    }
  }

  lemma {:induction false} TrimStartDrops(a: string, b: string)
    requires AllBlank(a)
    ensures TrimStart(a + b) == TrimStart(b)
  {
    if |a| == 0 {
      assert a + b == b;
    } else {
      assert (a + b)[1..] == a[1..] + b;
      TrimStartDrops(a[1..], b);
    }
  }

  lemma IndexOfShift(a: string, b: string, c: char)
    requires c !in a
    ensures IndexOf(a + b, c) == |a| + IndexOf(b, c)
    decreases |a|
  {
    if |a| == 0 {
      assert a + b == b;
    } else {
      assert (a + b)[1..] == a[1..] + b;
      IndexOfShift(a[1..], b, c);
    }
  }

  lemma IndexOfBefore(a: string, b: string, c: char)
    requires c in a
    ensures IndexOf(a + b, c) == IndexOf(a, c) < |a|
    decreases |a|
  {
    if a[0] != c {
      assert (a + b)[1..] == a[1..] + b;
      assert c in a[1..];
      IndexOfBefore(a[1..], b, c);
    }
  }

  /** A value in three parts, where `t` is the trimmed value. */
  lemma CutInParts(lead: string, t: string, tail: string)
    requires AllBlank(lead) && AllBlank(tail)
    requires ';' in t
    ensures Trim((lead + (t + tail))[..IndexOf(lead + (t + tail), ';')]) == Trim(t[..IndexOf(t, ';')])
  {
    var v := lead + (t + tail);
    var i := IndexOf(t, ';');
    IndexOfShift(lead, t + tail, ';');
    IndexOfBefore(t, tail, ';');
    assert v[..|lead| + i] == lead + t[..i];
    TrimStartDrops(lead, t[..i]);
  }

  lemma WholeInParts(lead: string, t: string, tail: string)
    requires AllBlank(lead) && AllBlank(tail)
    requires ';' !in t
    ensures IndexOf(t, ';') == |t|
    ensures (lead + (t + tail))[..IndexOf(lead + (t + tail), ';')] == lead + (t + tail)
  {
  }

  /** Trimming the whole value before cutting it makes no difference. */
  lemma ExtractedIsIssuer(r: Record)
    ensures ExtractIssuerDomain(r.value) == Issuer(r)
  {
    var v := r.value;
    var k := TrimStartSplits(v);
    var u := v[k..];
    var m := TrimEndSplits(u);
    var t, tail := u[..m], u[m..];
    assert v == v[..k] + (t + tail);
    if ';' in t {
      CutInParts(v[..k], t, tail);
      IndexOfBefore(t, "", ';');
      assert t + "" == t;
    } else {
      WholeInParts(v[..k], t, tail);
    }
  }

  function Tagged(records: seq<Record>, tag: string): seq<Record> {
    if |records| == 0 then []
    else
      var rest := Tagged(records[..|records| - 1], tag);
      if records[|records| - 1].tag == tag then rest + [records[|records| - 1]] else rest
  }

  function Unknown(records: seq<Record>): seq<Record> {
    if |records| == 0 then []
    else
      var rest := Unknown(records[..|records| - 1]);
      if KnownTag(records[|records| - 1].tag) then rest else rest + [records[|records| - 1]]
  }

  lemma {:induction false} TaggedHas(records: seq<Record>, tag: string)
    ensures forall r :: r in Tagged(records, tag) <==> r in records && r.tag == tag
  {
    if |records| > 0 {
      TaggedHas(records[..|records| - 1], tag);
      assert records == records[..|records| - 1] + [records[|records| - 1]];
    }
  }

  lemma {:induction false} UnknownHas(records: seq<Record>)
    ensures forall r :: r in Unknown(records) <==> r in records && !KnownTag(r.tag)
  {
    if |records| > 0 {
      UnknownHas(records[..|records| - 1]);
      assert records == records[..|records| - 1] + [records[|records| - 1]];
    }
  }

  /** newCAASet. */
  method NewCAASet(records: seq<Record>) returns (caas: CAASet)
    ensures caas.issue == Tagged(records, "issue") && caas.issuewild == Tagged(records, "issuewild")
    ensures caas.iodef == Tagged(records, "iodef") && caas.unknown == Unknown(records)
  {
    caas := CAASet([], [], [], []);
    for i := 0 to |records|
      invariant caas.issue == Tagged(records[..i], "issue") && caas.issuewild == Tagged(records[..i], "issuewild")
      invariant caas.iodef == Tagged(records[..i], "iodef") && caas.unknown == Unknown(records[..i])
    {
      var r := records[i];
      assert records[..i + 1][..i] == records[..i];
      if r.tag == "issue" {
        caas := caas.(issue := caas.issue + [r]);
      } else if r.tag == "issuewild" {
        caas := caas.(issuewild := caas.issuewild + [r]);
      } else if r.tag == "iodef" {
        caas := caas.(iodef := caas.iodef + [r]);
      } else {
        caas := caas.(unknown := caas.unknown + [r]);
      }
    }
    assert records[..|records|] == records;
  }

  method CriticalUnknown(caas: CAASet) returns (found: bool)
    ensures found <==> exists r | r in caas.unknown :: Critical(r)
  {
    found := false;
    for i := 0 to |caas.unknown|
      invariant forall k | 0 <= k < i :: !Critical(caas.unknown[k])
    {
      if Critical(caas.unknown[i]) {
        return true;
      }
    }
  }

  /** The flags that are critical: the highest bit or the lowest. */
  lemma CriticalBits(r: Record)
    ensures Critical(r) <==> r.flag >= 128 || r.flag % 2 == 1
  {
  }

  lemma TrimIs(s: string) returns (k: nat, m: nat)
    ensures k <= m <= |s| && Trim(s) == s[k..m]
    ensures forall i | 0 <= i < k || m <= i < |s| :: Blank(s[i])
    ensures k < m ==> !Blank(s[k]) && !Blank(s[m - 1])
  {
    k := TrimStartSplits(s);
    var rest := s[k..];
    var n := TrimEndSplits(rest);
    m := k + n;
    assert forall i | 0 <= i < k :: s[..k][i] == s[i];
    assert forall i | 0 <= i < |s| - m :: rest[n..][i] == s[m + i];
    assert forall i | m <= i < |s| :: s[i] == s[m + (i - m)];
  }

  /** The issuer stands before the first semicolon, without the blanks around it. */
  lemma IssuerIs(r: Record) returns (k: nat, m: nat)
    ensures k <= m <= IndexOf(r.value, ';') && Issuer(r) == r.value[k..m]
    ensures forall i | 0 <= i < k || m <= i < IndexOf(r.value, ';') :: r.value[i] == ' ' || r.value[i] == '\t'
    ensures k < m ==> r.value[k] != ' ' && r.value[k] != '\t' && r.value[m - 1] != ' ' && r.value[m - 1] != '\t'
  {
    var s := r.value[..IndexOf(r.value, ';')];
    k, m := TrimIs(s);
    assert s[k..m] == r.value[k..m];
    assert forall i | 0 <= i < |s| :: s[i] == r.value[i];
  }

  /** The decision, on the flags, tags and values themselves. */
  lemma PermitsIff(records: seq<Record>, issuer: string)
    ensures Permits(records, issuer) <==>
            || records == []
            || (&& (forall r | r in records :: r.flag >= 128 || r.flag % 2 == 1 ==> r.tag in {"issue", "issuewild", "iodef"})
                && ((forall r | r in records :: r.tag != "issue") || exists r | r in records :: r.tag == "issue" && Issuer(r) == issuer))
  {
    forall r ensures Critical(r) <==> r.flag >= 128 || r.flag % 2 == 1 {
      CriticalBits(r);
    }
  }

  /** What a relevant record set has to say for `issuer` to issue: nothing at all, or no
      critical property unknown to it and either no issue property or one that names it. */
  predicate Permits(records: seq<Record>, issuer: string) {
    || |records| == 0
    || (&& (forall r | r in records && Critical(r) :: KnownTag(r.tag))
        && (forall r | r in records && r.tag == "issue" ::
              exists q | q in records && q.tag == "issue" :: Issuer(q) == issuer))
  }

  /** validateCAASet on the set made from the records, where no records make no set. */
  method ValidateCAASet(records: seq<Record>, issuer: string) returns (valid: bool)
    ensures valid <==> Permits(records, issuer)
  {
    if |records| == 0 {
      return true;
    }
    var caas := NewCAASet(records);
    TaggedHas(records, "issue");
    UnknownHas(records);
    var critical := CriticalUnknown(caas);
    if critical {
      return false;
    }
    if |caas.issue| == 0 {
      return true;
    }
    valid := false;
    for i := 0 to |caas.issue|
      invariant forall k | 0 <= k < i :: Issuer(caas.issue[k]) != issuer
    {
      ExtractedIsIssuer(caas.issue[i]);
      if ExtractIssuerDomain(caas.issue[i].value) == issuer {
        assert caas.issue[i] in caas.issue;
        return true;
      }
    }
    assert caas.issue[0] in caas.issue;
  }

  // ---------------------------------------------------------------- checkCAA

  /** A name passes when its climb ends without an error in a record set that permits issuance. */
  predicate Passes(resolve: Resolver, name: string, issuer: string) {
    var answer := Climb(resolve, name);
    answer.Found? && Permits(answer.records, issuer)
  }

  /** The path shared by the local and the distributed check: look up, select, decide. */
  method CheckWith(resolve: Resolver, name: string, issuer: string, order: seq<nat>) returns (ok: bool)
    requires Schedule(order, name)
    ensures ok <==> Passes(resolve, name, issuer)
  {
    var results := ParallelCAALookup(resolve, name, order);
    var answer := ParseResults(results);
    FirstAnswerIsClimb(resolve, name);
    ok := false;
    if answer.Found? {
      ok := ValidateCAASet(answer.records, issuer);
    }
  }

  function CanonicalHost(host: string): string {
    TrimRight(ToLower(host), '.')
  }

  /** checkCAAInternal and the fallback of checkCAA: the distributed resolver, when there is one,
      is asked only after the local check has failed, and about the name as it was given. */
  method CheckCAA(local: Resolver, distributed: Option<Resolver>, host: string, issuer: string,
                  localOrder: seq<nat>, distributedOrder: seq<nat>) returns (ok: bool)
    requires Schedule(localOrder, CanonicalHost(host)) && Schedule(distributedOrder, host)
    ensures ok <==> || Passes(local, TrimRight(ToLower(host), '.'), issuer)
                    || (distributed.Some? && Passes(distributed.value, host, issuer))
  {
    ok := CheckWith(local, CanonicalHost(host), issuer, localOrder);
    if !ok && distributed.Some? {
      ok := CheckWith(distributed.value, host, issuer, distributedOrder);
    }
  }
}
