/** The indexes kept beside the certificates (sa/sa.go, AddCertificate): one row for every name in
    issuedNames, one row for every certificate in fqdnSets. What is counted on the indexes is what
    a scan of the certificates would count. */
module IssuedNames {
  import opened Prelude
  import opened Names
  import opened ReversedNames
  import CSR = CsrNames

  datatype Certificate = Certificate(serial: string, dnsNames: seq<string>, notBefore: int, notAfter: int)

  datatype NameRow = NameRow(reversedName: string, serial: string, notBefore: int)

  datatype SetRow = SetRow(setHash: Bytes, serial: string, issued: int, expires: int)

  datatype Tables = Tables(certificates: seq<Certificate>, issuedNames: seq<NameRow>, fqdnSets: seq<SetRow>)

  type Sha256 = string -> Bytes

  const MAX_ROWS := 10001

  function NameRowOf(c: Certificate, name: string): NameRow {
    NameRow(ReverseName(name), c.serial, c.notBefore)
  }

  function NameRows(c: Certificate, n: nat): (rows: seq<NameRow>)
    requires n <= |c.dnsNames|
    ensures |rows| == n
    ensures forall i | 0 <= i < n :: rows[i] == NameRowOf(c, c.dnsNames[i])
  {
    if n == 0 then [] else NameRows(c, n - 1) + [NameRowOf(c, c.dnsNames[n - 1])]
  }

  function SetRowOf(sha256: Sha256, c: Certificate): SetRow {
    SetRow(CSR.HashNames(sha256, c.dnsNames), c.serial, c.notBefore, c.notAfter)
  }

  predicate HasSerial(cs: seq<Certificate>, serial: string) {
    exists i | 0 <= i < |cs| :: cs[i].serial == serial
  }

  /** AddCertificate in one transaction: a repeated serial breaks a unique key, and without names
      the insertion into issuedNames has no values and fails. */
  function Add(sha256: Sha256, t: Tables, c: Certificate): Tables {
    if HasSerial(t.certificates, c.serial) || |c.dnsNames| == 0 then t
    else Tables(t.certificates + [c], t.issuedNames + NameRows(c, |c.dnsNames|), t.fqdnSets + [SetRowOf(sha256, c)])
  }

  function AddAll(sha256: Sha256, calls: seq<Certificate>): Tables {
    if |calls| == 0 then Tables([], [], [])
    else Add(sha256, AddAll(sha256, calls[..|calls| - 1]), calls[|calls| - 1])
  }

  /** The values that addIssuedNames inserts. */
  method IssuedNameValues(c: Certificate) returns (values: seq<NameRow>)
    ensures values == NameRows(c, |c.dnsNames|)
  {
    values := [];
    for i := 0 to |c.dnsNames|
      invariant values == NameRows(c, i)
    {
      var reversed := ReversedName(c.dnsNames[i]);
      values := values + [NameRow(reversed, c.serial, c.notBefore)];
    }
  }

  /** The map of serials that the rows are collected in. */
  method CollectSerials(rows: seq<NameRow>, chosen: set<nat>) returns (serialMap: set<string>)
    requires forall i | i in chosen :: i < |rows|
    ensures serialMap == SerialsAt(rows, chosen) && |serialMap| <= |chosen|
  {
    serialMap := {};
    var rest := chosen;
    while rest != {}
      invariant rest <= chosen
      invariant serialMap == SerialsAt(rows, chosen - rest)
      invariant |serialMap| <= |chosen| - |rest|
      decreases |rest|
    {
      var i := Pick(rest);
      assert chosen - (rest - {i}) == (chosen - rest) + {i};
      serialMap := serialMap + {rows[i].serial};
      rest := rest - {i};
    }
    assert chosen - rest == chosen;
  }

  class IssuanceTables {
    var certificates: seq<Certificate>
    var issuedNames: seq<NameRow>
    var fqdnSets: seq<SetRow>
    const sha256: Sha256

    constructor (sha256: Sha256)
      ensures Valid() && Value() == Tables([], [], []) && this.sha256 == sha256
    {
      this.sha256 := sha256;
      certificates, issuedNames, fqdnSets := [], [], [];
    }

    /** The indexes hold exactly the names and the name sets of the certificates. */
    ghost predicate Valid()
      reads this
    {
      Indexed(Value()) && RowsCounted(Value()) && SetsIndexed(sha256, Value())
    }

    function Value(): Tables
      reads this
    {
      Tables(certificates, issuedNames, fqdnSets)
    }

    method AddCertificate(c: Certificate) returns (ok: bool)
      requires Valid()
      modifies this
      ensures Valid() && Value() == Add(sha256, old(Value()), c)
      ensures ok <==> !HasSerial(old(certificates), c.serial) && |c.dnsNames| > 0
    {
      AddKeeps(sha256, Value(), c);
      if HasSerial(certificates, c.serial) {
        return false;
      }
      var values := IssuedNameValues(c);
      ok := |values| > 0;
      if ok {
        certificates := certificates + [c];
        issuedNames := issuedNames + values;
        fqdnSets := fqdnSets + [SetRowOf(sha256, c)];
      }
    }

    /** The rows that the query selects before LIMIT. */
    function Selected(domain: string, earliest: int, latest: int): set<nat>
      reads this
    {
      Selection(Value(), domain, earliest, latest)
    }

    /** countCertificatesByName; `chosen` are the rows that LIMIT lets through. */
    method CountCertificatesByName(domain: string, earliest: int, latest: int, chosen: set<nat>) returns (count: nat)
      requires Valid()
      requires MayChoose(Value(), domain, earliest, latest, chosen)
      ensures count == |SerialsAt(issuedNames, chosen)|
      ensures WildcardFree(domain) && NoneCrowdedOut(Value(), domain, earliest, latest) ==>
                count == |IssuedUnder(certificates, domain, earliest, latest)|
      ensures WildcardFree(domain) && |Selected(domain, earliest, latest)| <= 10001 ==>
                count == |IssuedUnder(certificates, domain, earliest, latest)|
      ensures WildcardFree(domain) ==> count <= |IssuedUnder(certificates, domain, earliest, latest)|
      ensures count <= 10001
      ensures forall m: nat | NamesAtMost(certificates, m) :: |chosen| <= m * count
    {
      var serialMap := CollectSerials(issuedNames, chosen);
      count := |serialMap|;
      ChosenAgree(Value(), domain, earliest, latest, chosen);
      if WildcardFree(domain) && NoneCrowdedOut(Value(), domain, earliest, latest) {
        ChoiceCountsAll(Value(), domain, earliest, latest, chosen);
      }
      forall m: nat | NamesAtMost(certificates, m) ensures |chosen| <= m * count {
        RowsBounded(Value(), m);
        ChosenBound(issuedNames, chosen, serialMap, m, count);
      }
    }
  }

  function SerialsAt(rows: seq<NameRow>, chosen: set<nat>): set<string>
    requires forall i | i in chosen :: i < |rows|
  {
    set i | i in chosen :: rows[i].serial
  }

  // ---------------------------------------------------------------- the invariant of the indexes

  predicate DistinctSerials(cs: seq<Certificate>) {
    forall i, j | 0 <= i < j < |cs| :: cs[i].serial != cs[j].serial
  }

  /** A row of issuedNames belongs to a name of a certificate. */
  predicate Backed(cs: seq<Certificate>, row: NameRow) {
    exists c | c in cs :: exists n | n in c.dnsNames :: row == NameRowOf(c, n)
  }

  predicate Indexed(t: Tables) {
    && DistinctSerials(t.certificates)
    && (forall row | row in t.issuedNames :: Backed(t.certificates, row))
    && (forall c | c in t.certificates :: forall n | n in c.dnsNames :: NameRowOf(c, n) in t.issuedNames)
  }

  /** The rows of one certificate. */
  function RowsOf(rows: seq<NameRow>, serial: string): set<nat> {
    set i | 0 <= i < |rows| && rows[i].serial == serial
  }

  /** A certificate has as many rows as names. */
  predicate RowsCounted(t: Tables) {
    forall c | c in t.certificates :: |RowsOf(t.issuedNames, c.serial)| == |c.dnsNames|
  }

  predicate NamesAtMost(cs: seq<Certificate>, m: nat) {
    forall c | c in cs :: |c.dnsNames| <= m
  }

  predicate RowsAtMost(rows: seq<NameRow>, m: nat) {
    forall i | 0 <= i < |rows| :: |RowsOf(rows, rows[i].serial)| <= m
  }

  predicate Among(rows: seq<NameRow>, chosen: set<nat>, serials: set<string>) {
    forall i | i in chosen :: i < |rows| && rows[i].serial in serials
  }

  lemma RowsBounded(t: Tables, m: nat)
    requires Indexed(t) && RowsCounted(t) && NamesAtMost(t.certificates, m)
    ensures RowsAtMost(t.issuedNames, m)
  {
    forall i | 0 <= i < |t.issuedNames| ensures |RowsOf(t.issuedNames, t.issuedNames[i].serial)| <= m {
      assert Backed(t.certificates, t.issuedNames[i]);
    }
  }

  /** With at most m rows for each serial, so many rows have at least a certain number of serials. */
  lemma {:induction false} ChosenBound(rows: seq<NameRow>, chosen: set<nat>, serials: set<string>, m: nat, n: nat)
    requires RowsAtMost(rows, m) && Among(rows, chosen, serials) && n == |serials|
    ensures |chosen| <= m * n
    decreases n
  {
    if chosen != {} {
      var i := AnyOf(chosen);
      var mine, s := RowsOf(rows, rows[i].serial), rows[i].serial;
      assert Among(rows, chosen - mine, serials - {s});
      ChosenBound(rows, chosen - mine, serials - {s}, m, n - 1);
      RemovedSize(chosen, mine);
      assert m * n == m * (n - 1) + m;
    }
  }

  lemma RemovedSize(chosen: set<nat>, mine: set<nat>)
    ensures |chosen| <= |chosen - mine| + |mine|
  {
    SubsetSize(chosen * mine, mine);
    assert chosen == (chosen - mine) + (chosen * mine);
  }

  function Interval(from: nat, n: nat): (s: set<nat>)
    ensures forall i: nat :: i in s <==> from <= i < from + n
    ensures |s| == n
  {
    if n == 0 then {} else Interval(from, n - 1) + {from + n - 1}
  }

  lemma AddKeepsCounts(sha256: Sha256, t: Tables, c: Certificate)
    requires Indexed(t) && RowsCounted(t)
    ensures RowsCounted(Add(sha256, t, c))
  {
    var t' := Add(sha256, t, c);
    if t' != t {
      var n := |t.issuedNames|;
      forall i | 0 <= i < n ensures t.issuedNames[i].serial != c.serial {
        assert Backed(t.certificates, t.issuedNames[i]);
      }
      forall c0 | c0 in t'.certificates ensures |RowsOf(t'.issuedNames, c0.serial)| == |c0.dnsNames| {
        if c0 in t.certificates {
          assert RowsOf(t'.issuedNames, c0.serial) == RowsOf(t.issuedNames, c0.serial);
        } else {
          assert c0 == c;
          assert RowsOf(t'.issuedNames, c.serial) == Interval(n, |c.dnsNames|);
        }
      }
    }
  }

  predicate SetsIndexed(sha256: Sha256, t: Tables) {
    && |t.fqdnSets| == |t.certificates|
    && (forall i | 0 <= i < |t.certificates| :: t.fqdnSets[i] == SetRowOf(sha256, t.certificates[i]))
    && (forall c | c in t.certificates :: |c.dnsNames| > 0)
  }

  lemma NameRowsHave(c: Certificate)
    ensures forall n | n in c.dnsNames :: NameRowOf(c, n) in NameRows(c, |c.dnsNames|)
    ensures forall row | row in NameRows(c, |c.dnsNames|) :: exists n | n in c.dnsNames :: row == NameRowOf(c, n)
  {
  }

  lemma AddKeeps(sha256: Sha256, t: Tables, c: Certificate)
    requires Indexed(t) && RowsCounted(t) && SetsIndexed(sha256, t)
    ensures Indexed(Add(sha256, t, c)) && RowsCounted(Add(sha256, t, c)) && SetsIndexed(sha256, Add(sha256, t, c))
  {
    AddKeepsCounts(sha256, t, c);
    AddKeepsIndex(sha256, t, c);
  }

  lemma BackedMore(cs: seq<Certificate>, c: Certificate, row: NameRow)
    requires Backed(cs, row)
    ensures Backed(cs + [c], row)
  {
    var c0 :| c0 in cs && exists n | n in c0.dnsNames :: row == NameRowOf(c0, n);
    assert c0 in cs + [c];
  }

  lemma AddKeepsIndex(sha256: Sha256, t: Tables, c: Certificate)
    requires Indexed(t)
    ensures Indexed(Add(sha256, t, c))
  {
    var t' := Add(sha256, t, c);
    if t' != t {
      NameRowsHave(c);
      assert c in t'.certificates;
      forall row | row in t'.issuedNames ensures Backed(t'.certificates, row) {
        if row in t.issuedNames {
          BackedMore(t.certificates, c, row);
        }
      }
      forall c0 | c0 in t'.certificates ensures forall n | n in c0.dnsNames :: NameRowOf(c0, n) in t'.issuedNames {
        assert c0 in t.certificates || c0 == c;
      }
    }
  }

  lemma {:induction false} RunKeeps(sha256: Sha256, calls: seq<Certificate>)
    ensures var t := AddAll(sha256, calls); Indexed(t) && RowsCounted(t) && SetsIndexed(sha256, t)
  {
    if |calls| > 0 {
      RunKeeps(sha256, calls[..|calls| - 1]);
      AddKeeps(sha256, AddAll(sha256, calls[..|calls| - 1]), calls[|calls| - 1]);
    }
  }

  // ---------------------------------------------------------------- counting names

  function Selection(t: Tables, domain: string, earliest: int, latest: int): set<nat> {
    set i | 0 <= i < |t.issuedNames|
            && Matches(t.issuedNames[i].reversedName, ReverseName(domain))
            && earliest < t.issuedNames[i].notBefore <= latest
  }

  predicate NamedUnder(c: Certificate, domain: string) {
    exists n | n in c.dnsNames :: Under(n, domain)
  }

  /** The plain scan. */
  function IssuedUnder(cs: seq<Certificate>, domain: string, earliest: int, latest: int): set<Certificate> {
    set c | c in cs && earliest < c.notBefore <= latest && NamedUnder(c, domain)
  }

  /** The scan over a window and the window after it is the scan over both, so that no certificate is
      counted twice or missed at the boundary. */
  lemma WindowsAddUp(cs: seq<Certificate>, domain: string, a: int, b: int, c: int)
    requires a <= b <= c
    ensures |IssuedUnder(cs, domain, a, c)| == |IssuedUnder(cs, domain, a, b)| + |IssuedUnder(cs, domain, b, c)|
    ensures forall cert | cert in cs :: cert in IssuedUnder(cs, domain, a, c) <==>
              a < cert.notBefore <= c && exists n | n in cert.dnsNames :: n == domain || (|n| > |domain| && n[|n| - |domain| - 1..] == "." + domain)
  {
    assert IssuedUnder(cs, domain, a, c) == IssuedUnder(cs, domain, a, b) + IssuedUnder(cs, domain, b, c);
  }

  function SerialsOf(cs: set<Certificate>): set<string> {
    set c | c in cs :: c.serial
  }

  lemma {:induction false} SerialsSize(cs: set<Certificate>)
    requires forall c, d | c in cs && d in cs && c.serial == d.serial :: c == d
    ensures |SerialsOf(cs)| == |cs|
  {
    if cs != {} {
      var c := AnyOf(cs);
      SerialsSize(cs - {c});
      assert SerialsOf(cs) == SerialsOf(cs - {c}) + {c.serial};
    }
  }

  lemma SerialIdentifies(cs: seq<Certificate>)
    requires DistinctSerials(cs)
    ensures forall c, d | c in cs && d in cs && c.serial == d.serial :: c == d
  {
  }

  /** A selected row comes from a certificate in the scan. */
  lemma RowIsScanned(t: Tables, domain: string, earliest: int, latest: int, i: nat)
    requires Indexed(t) && WildcardFree(domain) && i in Selection(t, domain, earliest, latest)
    ensures t.issuedNames[i].serial in SerialsOf(IssuedUnder(t.certificates, domain, earliest, latest))
  {
    var row := t.issuedNames[i];
    assert row in t.issuedNames;
    var c :| c in t.certificates && exists n | n in c.dnsNames :: row == NameRowOf(c, n);
    var n :| n in c.dnsNames && row == NameRowOf(c, n);
    SelectsExactlyIffWildcardFree(domain);
    assert Under(n, domain);
    assert c in IssuedUnder(t.certificates, domain, earliest, latest);
  }

  /** A certificate in the scan has a selected row. */
  lemma ScannedHasRow(t: Tables, domain: string, earliest: int, latest: int, c: Certificate)
    requires Indexed(t) && WildcardFree(domain) && c in IssuedUnder(t.certificates, domain, earliest, latest)
    ensures exists i | i in Selection(t, domain, earliest, latest) :: t.issuedNames[i].serial == c.serial
  {
    var n :| n in c.dnsNames && Under(n, domain);
    assert NameRowOf(c, n) in t.issuedNames;
    var i :| 0 <= i < |t.issuedNames| && t.issuedNames[i] == NameRowOf(c, n);
    SelectsExactlyIffWildcardFree(domain);
    assert Matches(ReverseName(n), ReverseName(domain));
    assert i in Selection(t, domain, earliest, latest);
  }

  lemma SelectionAgrees(t: Tables, domain: string, earliest: int, latest: int)
    requires Indexed(t) && WildcardFree(domain)
    ensures SerialsAt(t.issuedNames, Selection(t, domain, earliest, latest))
            == SerialsOf(IssuedUnder(t.certificates, domain, earliest, latest))
  {
    var sel, scan := Selection(t, domain, earliest, latest), IssuedUnder(t.certificates, domain, earliest, latest);
    forall s | s in SerialsAt(t.issuedNames, sel) ensures s in SerialsOf(scan) {
      var i :| i in sel && t.issuedNames[i].serial == s;
      RowIsScanned(t, domain, earliest, latest, i);
    }
    forall s | s in SerialsOf(scan) ensures s in SerialsAt(t.issuedNames, sel) {
      var c :| c in scan && c.serial == s;
      ScannedHasRow(t, domain, earliest, latest, c);
    }
  }

  /** Whatever rows the limit lets through, their serials are certificates in the scan; without a
      cut they are all of them. */
  lemma ChosenAgree(t: Tables, domain: string, earliest: int, latest: int, chosen: set<nat>)
    requires Indexed(t)
    requires chosen <= Selection(t, domain, earliest, latest)
    requires |chosen| == Min(MAX_ROWS, |Selection(t, domain, earliest, latest)|)
    ensures WildcardFree(domain) ==>
              |SerialsAt(t.issuedNames, chosen)| <= |IssuedUnder(t.certificates, domain, earliest, latest)|
    ensures WildcardFree(domain) && |Selection(t, domain, earliest, latest)| <= MAX_ROWS ==>
              |SerialsAt(t.issuedNames, chosen)| == |IssuedUnder(t.certificates, domain, earliest, latest)|
  {
    var sel, scan := Selection(t, domain, earliest, latest), IssuedUnder(t.certificates, domain, earliest, latest);
    if WildcardFree(domain) {
      SelectionAgrees(t, domain, earliest, latest);
      SerialIdentifies(t.certificates);
      SerialsSize(scan);
      SubsetSize(SerialsAt(t.issuedNames, chosen), SerialsAt(t.issuedNames, sel));
      SubsetSize(chosen, sel);
    }
  }

  /** Some rows that the limit may let through. */
  predicate MayChoose(t: Tables, domain: string, earliest: int, latest: int, chosen: set<nat>) {
    var sel := Selection(t, domain, earliest, latest);
    chosen <= sel && |chosen| == Min(MAX_ROWS, |sel|)
  }

  /** The count comes out right whatever rows come back. */
  ghost predicate CountsExactly(t: Tables, domain: string, earliest: int, latest: int) {
    forall chosen | MayChoose(t, domain, earliest, latest, chosen) ::
      |SerialsAt(t.issuedNames, chosen)| == |IssuedUnder(t.certificates, domain, earliest, latest)|
  }

  /** No certificate can be crowded out: without its rows the others do not fill the limit. */
  predicate NoneCrowdedOut(t: Tables, domain: string, earliest: int, latest: int) {
    forall c | c in IssuedUnder(t.certificates, domain, earliest, latest) ::
      |Selection(t, domain, earliest, latest) - RowsOf(t.issuedNames, c.serial)| < MAX_ROWS
  }

  lemma {:induction false} TakeSome(s: set<nat>, n: nat) returns (r: set<nat>)
    requires n <= |s|
    ensures r <= s && |r| == n
  {
    if n == 0 {
      r := {};
    } else {
      var x := AnyOf(s);
      r := TakeSome(s - {x}, n - 1);
      r := r + {x};
    }
  }

  /** Every choice of rows has one of a certificate that cannot be crowded out. */
  lemma ChoiceHits(t: Tables, domain: string, earliest: int, latest: int, chosen: set<nat>, c: Certificate)
    requires Indexed(t) && WildcardFree(domain) && MayChoose(t, domain, earliest, latest, chosen)
    requires c in IssuedUnder(t.certificates, domain, earliest, latest)
    requires |Selection(t, domain, earliest, latest) - RowsOf(t.issuedNames, c.serial)| < MAX_ROWS
    ensures c.serial in SerialsAt(t.issuedNames, chosen)
  {
    var sel, mine := Selection(t, domain, earliest, latest), RowsOf(t.issuedNames, c.serial);
    ScannedHasRow(t, domain, earliest, latest, c);
    var i :| i in sel && t.issuedNames[i].serial == c.serial;
    assert i in sel && i !in sel - mine;
    SubsetSize(sel - mine, sel);
    if c.serial !in SerialsAt(t.issuedNames, chosen) {
      assert forall k | k in chosen :: k in sel - mine;
      SubsetSize(chosen, sel - mine);
    }
  }

  lemma ChoiceCountsAll(t: Tables, domain: string, earliest: int, latest: int, chosen: set<nat>)
    requires Indexed(t) && WildcardFree(domain) && MayChoose(t, domain, earliest, latest, chosen)
    requires NoneCrowdedOut(t, domain, earliest, latest)
    ensures |SerialsAt(t.issuedNames, chosen)| == |IssuedUnder(t.certificates, domain, earliest, latest)|
  {
    var scan := IssuedUnder(t.certificates, domain, earliest, latest);
    SelectionAgrees(t, domain, earliest, latest);
    SerialIdentifies(t.certificates);
    SerialsSize(scan);
    forall c | c in scan ensures c.serial in SerialsAt(t.issuedNames, chosen) {
      ChoiceHits(t, domain, earliest, latest, chosen, c);
    }
    assert SerialsAt(t.issuedNames, chosen) == SerialsOf(scan);
  }

  /** A choice of rows from which a certificate is crowded out. */
  lemma ChoiceMisses(t: Tables, domain: string, earliest: int, latest: int, c: Certificate) returns (chosen: set<nat>)
    requires Indexed(t) && WildcardFree(domain)
    requires c in IssuedUnder(t.certificates, domain, earliest, latest)
    requires |Selection(t, domain, earliest, latest) - RowsOf(t.issuedNames, c.serial)| >= MAX_ROWS
    ensures MayChoose(t, domain, earliest, latest, chosen)
    ensures |SerialsAt(t.issuedNames, chosen)| < |IssuedUnder(t.certificates, domain, earliest, latest)|
  {
    var sel, mine := Selection(t, domain, earliest, latest), RowsOf(t.issuedNames, c.serial);
    var scan := IssuedUnder(t.certificates, domain, earliest, latest);
    SubsetSize(sel - mine, sel);
    chosen := TakeSome(sel - mine, MAX_ROWS);
    SelectionAgrees(t, domain, earliest, latest);
    SerialIdentifies(t.certificates);
    SerialsSize(scan);
    assert c.serial in SerialsOf(scan) && c.serial !in SerialsAt(t.issuedNames, chosen);
    SubsetSize(SerialsAt(t.issuedNames, chosen), SerialsOf(scan));
  }

  /** For a domain without wildcards the count is right for every choice of rows if and only if no
      certificate can be crowded out, which is so in particular when at most 10001 rows match. */
  lemma CountsExactlyIff(t: Tables, domain: string, earliest: int, latest: int)
    requires Indexed(t) && WildcardFree(domain)
    ensures CountsExactly(t, domain, earliest, latest) <==> NoneCrowdedOut(t, domain, earliest, latest)
  {
    if NoneCrowdedOut(t, domain, earliest, latest) {
      forall chosen | MayChoose(t, domain, earliest, latest, chosen)
        ensures |SerialsAt(t.issuedNames, chosen)| == |IssuedUnder(t.certificates, domain, earliest, latest)|
      {
        ChoiceCountsAll(t, domain, earliest, latest, chosen);
      }
    } else {
      var scan := IssuedUnder(t.certificates, domain, earliest, latest);
      var c :| c in scan && |Selection(t, domain, earliest, latest) - RowsOf(t.issuedNames, c.serial)| >= MAX_ROWS;
      var chosen := ChoiceMisses(t, domain, earliest, latest, c);
    }
  }

  // ---------------------------------------------------------------- counting name sets

  /** CountFQDNSets: the rows with this hash issued after a moment. */
  function CountSets(rows: seq<SetRow>, setHash: Bytes, after: int): nat {
    if |rows| == 0 then 0
    else
      var last := rows[|rows| - 1];
      CountSets(rows[..|rows| - 1], setHash, after) + if last.setHash == setHash && last.issued > after then 1 else 0
  }

  /** The certificates whose names are alike, cut at commas, issued after a moment. */
  function CountAlike(cs: seq<Certificate>, names: seq<string>, after: int): nat {
    if |cs| == 0 then 0
    else
      var last := cs[|cs| - 1];
      CountAlike(cs[..|cs| - 1], names, after)
      + if CSR.Alike(last.dnsNames, names) && last.notBefore > after then 1 else 0
  }

  /** The certificates for exactly these names, in any spelling, issued after a moment. */
  function CountSameNames(cs: seq<Certificate>, names: seq<string>, after: int): nat {
    if |cs| == 0 then 0
    else
      var last := cs[|cs| - 1];
      CountSameNames(cs[..|cs| - 1], names, after)
      + if CSR.LowerSet(last.dnsNames) == CSR.LowerSet(names) && last.notBefore > after then 1 else 0
  }

  lemma {:induction false} SameNamesCounted(cs: seq<Certificate>, names: seq<string>, after: int, counted: set<nat>)
    requires forall i: nat :: i in counted <==> i < |cs| && after < cs[i].notBefore && CSR.LowerSet(cs[i].dnsNames) == CSR.LowerSet(names)
    ensures CountSameNames(cs, names, after) == |counted|
  {
    if |cs| == 0 {
      assert counted == {};
    } else {
      SameNamesCounted(cs[..|cs| - 1], names, after, counted - {|cs| - 1});
    }
  }

  /** The rows of the certificates, with a hash that stands for the names. */
  lemma {:induction false} SetRowsCount(sha256: Sha256, cs: seq<Certificate>, rows: seq<SetRow>, names: seq<string>, hash: Bytes, after: int)
    requires |rows| == |cs| && forall i | 0 <= i < |cs| :: rows[i] == SetRowOf(sha256, cs[i])
    requires forall i | 0 <= i < |cs| :: rows[i].setHash == hash <==> CSR.Alike(cs[i].dnsNames, names)
    ensures CountSets(rows, hash, after) == CountAlike(cs, names, after)
    decreases |cs|
  {
    if |cs| > 0 {
      var n := |cs| - 1;
      SetRowsCount(sha256, cs[..n], rows[..n], names, hash, after);
    }
  }

  /** The count by hash is a count of certificates. */
  lemma SetCountIsScan(sha256: Sha256, t: Tables, names: seq<string>, after: int)
    requires CSR.Injective(sha256) && SetsIndexed(sha256, t)
    ensures CountSets(t.fqdnSets, CSR.HashNames(sha256, names), after) == CountAlike(t.certificates, names, after)
  {
    var hash := CSR.HashNames(sha256, names);
    forall i | 0 <= i < |t.certificates| ensures t.fqdnSets[i].setHash == hash <==> CSR.Alike(t.certificates[i].dnsNames, names) {
      CSR.HashesAgreeIffAlike(sha256, t.certificates[i].dnsNames, names);
    }
    SetRowsCount(sha256, t.certificates, t.fqdnSets, names, hash, after);
  }

  lemma AlikeIsSameNames(a: seq<string>, b: seq<string>)
    requires CSR.CommaFree(a) && CSR.CommaFree(b) && |a| > 0 && |b| > 0
    ensures CSR.Alike(a, b) <==> CSR.LowerSet(a) == CSR.LowerSet(b)
  {
    CSR.CommaFreeAlike(a, b);
    assert ToLower(a[0]) in CSR.LowerSet(a) && ToLower(b[0]) in CSR.LowerSet(b);
  }

  /** For names without commas it counts the certificates for the same names. */
  lemma {:induction false} AlikeCountsSameNames(cs: seq<Certificate>, names: seq<string>, after: int)
    requires CSR.CommaFree(names) && |names| > 0
    requires forall c | c in cs :: CSR.CommaFree(c.dnsNames) && |c.dnsNames| > 0
    ensures CountAlike(cs, names, after) == CountSameNames(cs, names, after)
  {
    if |cs| > 0 {
      assert cs[|cs| - 1] in cs;
      AlikeIsSameNames(cs[|cs| - 1].dnsNames, names);
      AlikeCountsSameNames(cs[..|cs| - 1], names, after);
    }
  }

  /** After any calls of AddCertificate, both counts on the indexes are counts of certificates. */
  lemma IndexesAgree(sha256: Sha256, calls: seq<Certificate>, domain: string, names: seq<string>, earliest: int, latest: int)
    requires CSR.Injective(sha256)
    ensures var t := AddAll(sha256, calls);
            && (WildcardFree(domain) ==>
                  |SerialsAt(t.issuedNames, Selection(t, domain, earliest, latest))|
                  == |IssuedUnder(t.certificates, domain, earliest, latest)|)
            && CountSets(t.fqdnSets, CSR.HashNames(sha256, names), earliest) == CountAlike(t.certificates, names, earliest)
  {
    var t := AddAll(sha256, calls);
    RunKeeps(sha256, calls);
    SetCountIsScan(sha256, t, names, earliest);
    if WildcardFree(domain) {
      SelectionAgrees(t, domain, earliest, latest);
      SerialIdentifies(t.certificates);
      SerialsSize(IssuedUnder(t.certificates, domain, earliest, latest));
    }
  }

  lemma AddedSerials(sha256: Sha256, t: Tables, c: Certificate, serial: string)
    requires HasSerial(t.certificates, serial) || (serial == c.serial && |c.dnsNames| > 0)
    ensures HasSerial(Add(sha256, t, c).certificates, serial)
  {
    var t' := Add(sha256, t, c);
    if HasSerial(t.certificates, serial) {
      var i :| 0 <= i < |t.certificates| && t.certificates[i].serial == serial;
      assert t'.certificates[i] == t.certificates[i];
    } else {
      assert t'.certificates[|t.certificates|] == c;
    }
  }

  /** What is stored is what was added: the first certificate of each serial that has names. */
  lemma {:induction false} StoredWereCalled(sha256: Sha256, calls: seq<Certificate>)
    ensures forall c | c in AddAll(sha256, calls).certificates :: c in calls && |c.dnsNames| > 0
    ensures forall c | c in calls && |c.dnsNames| > 0 :: HasSerial(AddAll(sha256, calls).certificates, c.serial)
  {
    if |calls| > 0 {
      var front, last := calls[..|calls| - 1], calls[|calls| - 1];
      StoredWereCalled(sha256, front);
      forall c | c in calls && |c.dnsNames| > 0 ensures HasSerial(AddAll(sha256, calls).certificates, c.serial) {
        assert c in front || c == last;
        AddedSerials(sha256, AddAll(sha256, front), last, c.serial);
      }
    }
  }
}
