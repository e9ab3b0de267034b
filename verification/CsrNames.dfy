/** The names of a certificate request (csr/csr.go, core/util.go): their normal form, the comparison
    of the issued certificate with it (ra/ra.go) and the hash that stands for it (sa/sa.go). */
module CsrNames {
  import opened Prelude
  import opened Names
  import opened Sorting

  function Itself(s: string): string {
    s
  }

  function LowerSet(names: seq<string>): set<string> {
    set n | n in names :: ToLower(n)
  }

  function Elements(s: seq<string>): set<string> {
    set n | n in s
  }

  predicate StrictlySorted(s: seq<string>) {
    forall i, j | 0 <= i < j < |s| :: Less(s[i], s[j])
  }

  // ---------------------------------------------------------------- sort.Strings

  function SortStrings(s: seq<string>): (r: seq<string>)
    ensures multiset(r) == multiset(s) && Sorted(Itself, r)
  {
    InsertionSortSorts(Itself, s);
    InsertionSort(Itself, s)
  }

  /** Sorted lists are equal exactly when they are permutations of each other. */
  lemma SortedEqual(s: seq<string>, t: seq<string>)
    ensures SortStrings(s) == SortStrings(t) <==> multiset(s) == multiset(t)
  {
    if multiset(s) == multiset(t) {
      SortedIsUnique(Itself, SortStrings(s), SortStrings(t));
    }
  }

  // ---------------------------------------------------------------- UniqueLowerNames

  /** The list of the members of a set, in order. */
  lemma StrictIsUnique(a: seq<string>, b: seq<string>)
    requires StrictlySorted(a) && StrictlySorted(b) && Elements(a) == Elements(b)
    ensures a == b
  {
    StrictMultiset(a);
    StrictMultiset(b);
    StrictIsSorted(a);
    StrictIsSorted(b);
    SortedIsUnique(Itself, a, b);
  }

  lemma StrictIsSorted(a: seq<string>)
    requires StrictlySorted(a)
    ensures Sorted(Itself, a)
  {
    forall i, j | 0 <= i < j < |a| ensures !Less(a[j], a[i]) {
      LessTrichotomy(a[i], a[j]);
    }
  }

  lemma LastIsNew(a: seq<string>)
    requires StrictlySorted(a) && |a| > 0
    ensures a[|a| - 1] !in Elements(a[..|a| - 1])
    ensures Elements(a) == Elements(a[..|a| - 1]) + {a[|a| - 1]}
  {
    var front, last := a[..|a| - 1], a[|a| - 1];
    forall i | 0 <= i < |front| ensures front[i] != last {
      LessTrichotomy(a[i], last);
    }
    assert a == front + [last];
  }

  lemma {:induction false} StrictMultiset(a: seq<string>)
    requires StrictlySorted(a)
    ensures multiset(a) == multiset(Elements(a))
  {
    if |a| > 0 {
      var front, last := a[..|a| - 1], a[|a| - 1];
      StrictMultiset(front);
      MultisetSnoc(a);
      LastIsNew(a);
      MultisetGrow(Elements(front), last);
    }
  }

  /** The value of UniqueLowerNames. */
  function UniqueLower(names: seq<string>): (r: seq<string>)
    ensures StrictlySorted(r) && Elements(r) == LowerSet(names)
  {
    if |names| == 0 then []
    else
      var rest, name := UniqueLower(names[..|names| - 1]), ToLower(names[|names| - 1]);
      assert names == names[..|names| - 1] + [names[|names| - 1]];
      assert LowerSet(names) == LowerSet(names[..|names| - 1]) + {name};
      if name in rest then rest else InsertNew(rest, name); Insert(Itself, name, rest)
  }

  lemma InsertNew(s: seq<string>, x: string)
    requires StrictlySorted(s) && x !in s
    ensures StrictlySorted(Insert(Itself, x, s)) && Elements(Insert(Itself, x, s)) == Elements(s) + {x}
  {
    var out := Insert(Itself, x, s);
    StrictIsSorted(s);
    InsertSorts(Itself, x, s);
    InsertPermutes(Itself, x, s);
    StrictMultiset(s);
    assert multiset(out) == multiset(s + [x]);
    SameElements(out, s + [x]);
    DistinctIsStrict(out);
  }

  lemma CountedTwice(s: seq<string>, i: nat, j: nat)
    requires i < j < |s|
    ensures s[i] == s[j] ==> multiset(s)[s[i]] >= 2
  {
    assert s == s[..i] + [s[i]] + (s[i + 1..j] + [s[j]] + s[j + 1..]);
  }

  lemma DistinctIsStrict(s: seq<string>)
    requires Sorted(Itself, s) && forall x | x in s :: multiset(s)[x] == 1
    ensures StrictlySorted(s)
  {
    forall i, j | 0 <= i < j < |s| ensures Less(s[i], s[j]) {
      CountedTwice(s, i, j);
      LessTrichotomy(s[i], s[j]);
    }
  }

  /** Any list of the lowercased names, each once, sorts to the value of UniqueLowerNames. */
  lemma SortsToUnique(names: seq<string>, s: seq<string>)
    requires multiset(s) == multiset(LowerSet(names))
    ensures SortStrings(s) == UniqueLower(names)
  {
    var u := UniqueLower(names);
    StrictMultiset(u);
    StrictIsSorted(u);
    SortedIsUnique(Itself, SortStrings(s), u);
  }

  /** UniqueLowerNames: a map of the lowercased names, iterated in any order, then sorted. */
  method UniqueLowerNames(names: seq<string>) returns (unique: seq<string>)
    ensures unique == UniqueLower(names)
  {
    var nameMap: set<string> := {};
    for i := 0 to |names|
      invariant nameMap == LowerSet(names[..i])
    {
      nameMap := nameMap + {ToLower(names[i])};
      assert names[..i + 1] == names[..i] + [names[i]];
    }
    assert names[..|names|] == names;
    unique := [];
    var rest := nameMap;
    while rest != {}
      invariant rest <= nameMap
      invariant multiset(unique) == multiset(nameMap - rest)
      decreases |rest|
    {
      var name := Pick(rest);
      unique := unique + [name];
      assert nameMap - (rest - {name}) == (nameMap - rest) + {name};
      rest := rest - {name};
    }
    assert nameMap - rest == nameMap;
    SortsToUnique(names, unique);
    unique := SortStrings(unique);
  }

  lemma UniqueLowerDepends(a: seq<string>, b: seq<string>)
    ensures UniqueLower(a) == UniqueLower(b) <==> LowerSet(a) == LowerSet(b)
  {
    if LowerSet(a) == LowerSet(b) {
      StrictIsUnique(UniqueLower(a), UniqueLower(b));
    }
  }

  lemma UniqueLowerEmpty(names: seq<string>)
    ensures UniqueLower(names) == [] <==> names == []
  {
    if names != [] {
      assert ToLower(names[0]) in Elements(UniqueLower(names));
    }
  }

  // ---------------------------------------------------------------- normalizeCSR

  /** The common name and the subject alternative names of a request. */
  datatype Subject = Subject(commonName: string, dnsNames: seq<string>)

  /** All the names that a request asks for. */
  function Asked(c: Subject): seq<string> {
    if c.commonName == "" then c.dnsNames else c.dnsNames + [c.commonName]
  }

  function Normalize(c: Subject, forceCNFromSAN: bool): Subject {
    Subject(ToLower(if forceCNFromSAN && c.commonName == "" && |c.dnsNames| > 0 then c.dnsNames[0] else c.commonName),
            UniqueLower(Asked(c)))
  }

  /** A certificate request as parsed; normalizeCSR changes it in place. */
  class CertificateRequest {
    var commonName: string
    var dnsNames: seq<string>

    constructor (commonName: string, dnsNames: seq<string>)
      ensures Value() == Subject(commonName, dnsNames)
    {
      this.commonName, this.dnsNames := commonName, dnsNames;
    }

    function Value(): Subject
      reads this
    {
      Subject(commonName, dnsNames)
    }

    method NormalizeCSR(forceCNFromSAN: bool)
      modifies this
      ensures Value() == Normalize(old(Value()), forceCNFromSAN)
    {
      if forceCNFromSAN && commonName == "" {
        if |dnsNames| > 0 {
          commonName := dnsNames[0];
        }
      } else if commonName != "" {
        dnsNames := dnsNames + [commonName];
      }
      commonName := ToLower(commonName);
      dnsNames := UniqueLowerNames(dnsNames);
    }

    /** The names that MatchesCSR expects; the request is left as it is. */
    method HostNames() returns (hostNames: seq<string>)
      ensures hostNames == UniqueLower(Asked(Value()))
    {
      hostNames := dnsNames;
      if |commonName| > 0 {
        hostNames := hostNames + [commonName];
      }
      hostNames := UniqueLowerNames(hostNames);
    }

    /** The comparison of names in MatchesCSR: a nil slice is not the empty one, and the expected
        names are never nil. */
    method NamesMatch(parsedNames: Option<seq<string>>) returns (matches: bool)
      ensures matches <==> ExpectedNames(Value(), parsedNames)
    {
      var hostNames := HostNames();
      matches := false;
      if parsedNames.Some? {
        StrictMultiset(hostNames);
        SortedEqual(parsedNames.value, hostNames);
        matches := SortStrings(parsedNames.value) == SortStrings(hostNames);
      }
    }

    /** What MatchesCSR makes of the names in a certificate. */
    method MatchesCSR(parsed: Parsed, forceCNFromSAN: bool) returns (matches: bool)
      ensures matches <==> Accepts(Value(), parsed, forceCNFromSAN)
    {
      if !forceCNFromSAN && |commonName| > 0 && parsed.commonName != ToLower(commonName) {
        return false;
      }
      matches := NamesMatch(parsed.dnsNames);
    }
  }

  /** The common name and the names of a parsed certificate; `None` is a nil slice. */
  datatype Parsed = Parsed(commonName: string, dnsNames: Option<seq<string>>)

  /** The names asked for, in lower case, each once and in any order. */
  predicate ExpectedNames(c: Subject, names: Option<seq<string>>) {
    names.Some? && multiset(names.value) == multiset(LowerSet(Asked(c)))
  }

  predicate ExpectedCommonName(c: Subject, commonName: string) {
    c.commonName == "" || commonName == ToLower(c.commonName)
  }

  predicate Accepts(c: Subject, parsed: Parsed, forceCNFromSAN: bool) {
    (forceCNFromSAN || ExpectedCommonName(c, parsed.commonName)) && ExpectedNames(c, parsed.dnsNames)
  }

  /** A certificate for a normalised request: its names in some order, which parse to nil if there
      are none. */
  predicate IssuedFor(c: Subject, parsed: Parsed) {
    && parsed.commonName == c.commonName
    && (parsed.dnsNames.None? <==> c.dnsNames == [])
    && (parsed.dnsNames.Some? ==> multiset(parsed.dnsNames.value) == multiset(c.dnsNames))
  }

  /** Acceptance, name by name: every name of the request is in the certificate, lowered and once, and no
      other name is. */
  lemma AcceptsIff(c: Subject, parsed: Parsed, forceCNFromSAN: bool)
    ensures Accepts(c, parsed, forceCNFromSAN) <==>
            && (forceCNFromSAN || c.commonName == "" || parsed.commonName == ToLower(c.commonName))
            && parsed.dnsNames.Some?
            && (forall n | n in c.dnsNames || (n == c.commonName && n != "") :: multiset(parsed.dnsNames.value)[ToLower(n)] == 1)
            && (forall x | x in parsed.dnsNames.value :: exists n | n in c.dnsNames + [c.commonName] ::
                  x == ToLower(n) && (n in c.dnsNames || n != ""))
  {
    if parsed.dnsNames.Some? {
      NamesOnceEach(c, parsed.dnsNames.value);
    }
  }

  lemma NamesOnceEach(c: Subject, names: seq<string>)
    ensures multiset(names) == multiset(LowerSet(Asked(c))) <==>
            && (forall n | n in c.dnsNames || (n == c.commonName && n != "") :: multiset(names)[ToLower(n)] == 1)
            && (forall x | x in names :: exists n | n in c.dnsNames + [c.commonName] :: x == ToLower(n) && (n in c.dnsNames || n != ""))
  {
    var asked := Asked(c);
    assert forall n :: n in asked <==> n in c.dnsNames || (n == c.commonName && n != "");
    if multiset(names) == multiset(LowerSet(asked)) {
      forall x | x in names ensures exists n | n in c.dnsNames + [c.commonName] :: x == ToLower(n) && (n in c.dnsNames || n != "") {
        assert x in multiset(names);
        var n :| n in asked && x == ToLower(n);
        assert n in c.dnsNames + [c.commonName];
      }
    } else if forall x | x in names :: exists n | n in c.dnsNames + [c.commonName] :: x == ToLower(n) && (n in c.dnsNames || n != "") {
      var x :| multiset(names)[x] != multiset(LowerSet(asked))[x];
      if x in names {
        var n :| n in c.dnsNames + [c.commonName] && x == ToLower(n) && (n in c.dnsNames || n != "");
        assert n in asked;
      } else {
        var n :| n in asked && x == ToLower(n);
      }
    }
  }

  /** Without a common name the first alternative name is hoisted, where that is asked for; a common name
      stays. Either is among the names. */
  lemma HoistedIsFirst(c: Subject, f: bool)
    ensures c.commonName != "" ==> Normalize(c, f).commonName == ToLower(c.commonName)
    ensures c.commonName == "" && |c.dnsNames| > 0 && f ==>
              Normalize(c, f).commonName == ToLower(c.dnsNames[0])
    ensures c.commonName == "" && (|c.dnsNames| == 0 || !f) ==> Normalize(c, f).commonName == ""
    ensures Normalize(c, f).commonName != "" ==> Normalize(c, f).commonName in Elements(Normalize(c, f).dnsNames)
  {
    if Asked(c) != [] {
      assert c.commonName != "" ==> c.commonName in Asked(c);
      assert c.commonName == "" ==> c.dnsNames[0] in Asked(c);
    }
  }

  lemma LowerSetOfLower(names: seq<string>)
    ensures LowerSet(UniqueLower(names)) == LowerSet(names)
  {
    var u := UniqueLower(names);
    forall x | x in LowerSet(u) ensures x in LowerSet(names) {
      var n :| n in u && x == ToLower(n);
      assert n in Elements(u);
      var m :| m in names && n == ToLower(m);
      LowerIdempotent(m);
    }
    forall x | x in LowerSet(names) ensures x in LowerSet(u) {
      var m :| m in names && x == ToLower(m);
      LowerIdempotent(m);
      assert x in Elements(u);
    }
  }

  /** Normalising again, with either flag, asks for the same names. */
  lemma AskedIsStable(c: Subject, f: bool)
    ensures LowerSet(Asked(Normalize(c, f))) == LowerSet(Asked(c))
  {
    var n := Normalize(c, f);
    LowerSetOfLower(Asked(c));
    if n.commonName != "" {
      var name := if c.commonName == "" then c.dnsNames[0] else c.commonName;
      assert name in Asked(c);
      LowerIdempotent(name);
      assert n.commonName in LowerSet(Asked(c));
      assert LowerSet(Asked(n)) == LowerSet(n.dnsNames) + {n.commonName};
    }
  }

  /** The normal form of the names does not depend on how often, or with which flags, a request is
      normalised. */
  lemma NamesAreNormal(c: Subject, f: bool, g: bool, h: bool)
    ensures Normalize(Normalize(c, f), g).dnsNames == Normalize(c, h).dnsNames
    ensures StrictlySorted(Normalize(c, f).dnsNames)
    ensures Elements(Normalize(c, f).dnsNames) == LowerSet(c.dnsNames) + if c.commonName == "" then {} else {ToLower(c.commonName)}
  {
    AskedIsStable(c, f);
    UniqueLowerDepends(Asked(Normalize(c, f)), Asked(c));
  }

  lemma EmptyIsLeast(s: seq<string>)
    requires StrictlySorted(s) && "" in s
    ensures s[0] == ""
  {
  }

  lemma NormalizeIdempotent(c: Subject, f: bool)
    ensures Normalize(Normalize(c, f), f) == Normalize(c, f)
  {
    var n := Normalize(c, f);
    NamesAreNormal(c, f, f, f);
    LowerIdempotent(if f && c.commonName == "" && |c.dnsNames| > 0 then c.dnsNames[0] else c.commonName);
    if f && n.commonName == "" && |c.dnsNames| > 0 {
      assert c.dnsNames[0] in c.dnsNames && ToLower(c.dnsNames[0]) == "";
      assert "" in Elements(n.dnsNames);
      EmptyIsLeast(n.dnsNames);
    }
  }

  /** A remark: applied twice, first without and then with hoisting, which no component does, the
      function hoists the first name in order and not the first name of the request. */
  lemma CommonNameIffFirstIsLeast(c: Subject)
    ensures Normalize(Normalize(c, false), true).commonName == Normalize(c, true).commonName
            <==> c.commonName != "" || |c.dnsNames| == 0 || forall n | n in c.dnsNames :: !Less(ToLower(n), ToLower(c.dnsNames[0]))
  {
    var n := Normalize(c, false);
    LowerIdempotent(c.commonName);
    if c.commonName == "" && |c.dnsNames| > 0 {
      var u := n.dnsNames;
      assert c.dnsNames[0] in c.dnsNames;
      assert ToLower(c.dnsNames[0]) in Elements(u);
      assert u[0] in Elements(u);
      var m :| m in c.dnsNames && ToLower(m) == u[0];
      LowerIdempotent(m);
      if ToLower(c.dnsNames[0]) != u[0] {
        var i :| 0 <= i < |u| && u[i] == ToLower(c.dnsNames[0]);
        assert Less(ToLower(m), ToLower(c.dnsNames[0]));
      } else {
        forall x | x in c.dnsNames ensures !Less(ToLower(x), u[0]) {
          assert ToLower(x) in Elements(u);
          var i :| 0 <= i < |u| && u[i] == ToLower(x);
          LessTrichotomy(u[0], u[i]);
        }
      }
    }
  }

  lemma HoistingTwiceDiffers()
    ensures var c := Subject("", ["b", "a"]);
            Normalize(Normalize(c, false), true).commonName != Normalize(c, true).commonName
  {
    LowerFixed("a");
    LowerFixed("b");
    assert "a" in ["b", "a"] && Less("a", "b");
    CommonNameIffFirstIsLeast(Subject("", ["b", "a"]));
  }

  /** The RA and the CA each normalise the request as it was sent, with flags of their own: they
      derive the same names, and the RA accepts every certificate that the CA makes for them, common
      name included, if and only if the request has a name at all. */
  lemma RaAcceptsCaNames(c: Subject, ra: bool, ca: bool, parsed: Parsed)
    requires IssuedFor(Normalize(c, ca), parsed)
    ensures Normalize(c, ca).dnsNames == Normalize(c, ra).dnsNames
    ensures Accepts(Normalize(c, ra), parsed, ra) <==> Asked(c) != []
  {
    var r, k := Normalize(c, ra), Normalize(c, ca);
    AskedIsStable(c, ra);
    StrictMultiset(k.dnsNames);
    LowerIdempotent(c.commonName);
    UniqueLowerEmpty(Asked(c));
  }

  // ---------------------------------------------------------------- hashNames

  predicate CommaFree(names: seq<string>) {
    forall n | n in names :: ',' !in n
  }

  function HashNames(sha256: string -> Bytes, names: seq<string>): Bytes {
    sha256(Join(UniqueLower(names), ','))
  }

  ghost predicate Injective(sha256: string -> Bytes) {
    forall s, t | sha256(s) == sha256(t) :: s == t
  }

  lemma LowerCommaFree(names: seq<string>)
    requires CommaFree(names)
    ensures forall k | 0 <= k < |UniqueLower(names)| :: ',' !in UniqueLower(names)[k]
  {
    var u := UniqueLower(names);
    forall k | 0 <= k < |u| ensures ',' !in u[k] {
      assert u[k] in Elements(u);
      var n :| n in names && ToLower(n) == u[k];
    }
  }

  /** The comma-separated pieces of a list of names; no name is one empty piece. */
  function Pieces(u: seq<string>): seq<string> {
    if |u| == 0 then [""]
    else if |u| == 1 then Split(u[0], ',')
    else Split(u[0], ',') + Pieces(u[1..])
  }

  lemma {:induction false} SplitOfJoin(u: seq<string>)
    ensures Split(Join(u, ','), ',') == Pieces(u)
  {
    if |u| == 0 {
      SplitWhole("", ',');
    } else if |u| > 1 {
      SplitOfJoin(u[1..]);
      SplitAppend(u[0], Join(u[1..], ','), ',');
    }
  }

  lemma {:induction false} PiecesOfCommaFree(u: seq<string>)
    requires forall k | 0 <= k < |u| :: ',' !in u[k]
    ensures Pieces(u) == if |u| == 0 then [""] else u
  {
    if |u| > 0 {
      SplitWhole(u[0], ',');
      PiecesOfCommaFree(u[1..]);
      assert u == [u[0]] + u[1..];
    }
  }

  /** Sorted, in lower case and cut at commas the two lists are the same. */
  predicate Alike(a: seq<string>, b: seq<string>) {
    Pieces(UniqueLower(a)) == Pieces(UniqueLower(b))
  }

  /** Any two lists hash alike exactly when their pieces agree. */
  lemma HashesAgreeIffAlike(sha256: string -> Bytes, a: seq<string>, b: seq<string>)
    requires Injective(sha256)
    ensures HashNames(sha256, a) == HashNames(sha256, b) <==> Alike(a, b)
  {
    var u, v := UniqueLower(a), UniqueLower(b);
    SplitOfJoin(u);
    SplitOfJoin(v);
    JoinSplit(Join(u, ','), ',');
    JoinSplit(Join(v, ','), ',');
  }

  /** So comma-free lists hash alike exactly when they have the same lowercase names; the list that
      holds only the empty name counts as empty. */
  lemma HashesAgree(sha256: string -> Bytes, a: seq<string>, b: seq<string>)
    requires Injective(sha256) && CommaFree(a) && CommaFree(b)
    ensures HashNames(sha256, a) == HashNames(sha256, b) <==>
            LowerSet(a) == LowerSet(b) || (LowerSet(a) <= {""} && LowerSet(b) <= {""})
  {
    HashesAgreeIffAlike(sha256, a, b);
    CommaFreeAlike(a, b);
  }

  lemma CommaFreeAlike(a: seq<string>, b: seq<string>)
    requires CommaFree(a) && CommaFree(b)
    ensures Alike(a, b) <==> LowerSet(a) == LowerSet(b) || (LowerSet(a) <= {""} && LowerSet(b) <= {""})
  {
    LowerCommaFree(a);
    LowerCommaFree(b);
    PiecesOfCommaFree(UniqueLower(a));
    PiecesOfCommaFree(UniqueLower(b));
    UniqueLowerDepends(a, b);
    OnlyEmpty(UniqueLower(a));
    OnlyEmpty(UniqueLower(b));
  }

  lemma OnlyEmpty(u: seq<string>)
    requires StrictlySorted(u)
    ensures Elements(u) <= {""} <==> u == [] || u == [""]
  {
    if |u| > 1 {
      assert u[0] in Elements(u) && u[1] in Elements(u) && Less(u[0], u[1]);
    } else if |u| == 1 {
      assert u[0] in Elements(u);
    }
  }

  /** With commas the hash does not determine the names. */
  lemma CommasCollide(sha256: string -> Bytes)
    ensures HashNames(sha256, ["a,b"]) == HashNames(sha256, ["a", "b"])
    ensures LowerSet(["a,b"]) != LowerSet(["a", "b"])
  {
    var u, v := UniqueLower(["a,b"]), UniqueLower(["a", "b"]);
    LowerFixed("a,b");
    LowerFixed("a");
    LowerFixed("b");
    assert LowerSet(["a,b"]) == {"a,b"} && LowerSet(["a", "b"]) == {"a", "b"};
    assert Less("a", "b");
    StrictIsUnique(u, ["a,b"]);
    StrictIsUnique(v, ["a", "b"]);
    assert Join(["a", "b"][1..], ',') == "b";
    assert Join(["a", "b"], ',') == "a,b" == Join(["a,b"], ',');
    assert "a,b" !in {"a", "b"};
  }

  lemma LowerFixed(s: string)
    requires forall i | 0 <= i < |s| :: !('A' <= s[i] <= 'Z')
    ensures ToLower(s) == s
  {
  }
}
