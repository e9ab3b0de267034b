/** What the quorum of the distributed resolver guarantees: what it takes for the order of arrival
    not to matter, and when two answers with the same records are taken to be the same. */
module QuorumAgreement {
  import opened Prelude
  import opened Sorting
  import opened Quorum
  import Caa

  // ---------------------------------------------------------------- the order of arrival

  /** An M of N quorum: few enough failures, and answers that agree. */
  predicate Quorate(pack: Packer, sort: Sorter, replies: seq<Reply>, maxFailures: int) {
    && (Failures(replies) == 0 || Failures(replies) <= maxFailures)
    && AllPack(pack, sort, replies)
    && Agreed(pack, sort, replies)
  }

  /** No query failed, or no answer holds a record. */
  predicate OneSided(replies: seq<Reply>) {
    || (forall r | r in replies :: r.Answer?)
    || (forall r | r in replies :: r.Answer? ==> r.records == [])
  }

  lemma {:induction false} FailuresSplit(a: seq<Reply>, b: seq<Reply>)
    ensures Failures(a + b) == Failures(a) + Failures(b)
  {
    if |b| == 0 {
      assert a + b == a;
    } else {
      assert (a + b)[..|a + b| - 1] == a + b[..|b| - 1];
      FailuresSplit(a, b[..|b| - 1]);
    }
  }

  lemma {:induction false} FailuresPermute(a: seq<Reply>, b: seq<Reply>)
    requires multiset(a) == multiset(b)
    ensures Failures(a) == Failures(b)
    decreases |a|
  {
    if |a| == 0 {
      assert |multiset(b)| == 0;
    } else {
      var i := SameRest(a, b);
      FailuresPermute(a[..|a| - 1], Without(b, i));
      WithoutParts(b, i);
      FailuresSplit(b[..i], [b[i]] + b[i + 1..]);
      FailuresSplit([b[i]], b[i + 1..]);
      FailuresSplit(b[..i], b[i + 1..]);
    }
  }

  lemma AgreedByMembers(pack: Packer, sort: Sorter, replies: seq<Reply>)
    ensures Agreed(pack, sort, replies) <==>
            forall p, q | p in replies && q in replies && p.Answer? && q.Answer? :: SameSet(pack, sort, p.records, q.records)
  {
  }

  lemma QuorateInAnyOrder(pack: Packer, sort: Sorter, a: seq<Reply>, b: seq<Reply>, maxFailures: int)
    requires multiset(a) == multiset(b)
    requires Quorate(pack, sort, a, maxFailures)
    ensures Quorate(pack, sort, b, maxFailures)
  {
    FailuresPermute(a, b);
    SameElements(a, b);
    AgreedByMembers(pack, sort, a);
    AgreedByMembers(pack, sort, b);
    forall i | 0 <= i < |b| && b[i].Answer? ensures Canonical(pack, sort, b[i].records).Some? {
      assert b[i] in a;
    }
  }

  /** The replies are accepted in whatever order they arrive. */
  ghost predicate AcceptedInAnyOrder(pack: Packer, sort: Sorter, replies: seq<Reply>, maxFailures: int) {
    forall other | multiset(other) == multiset(replies) :: Accepted(pack, sort, other, maxFailures)
  }

  /** The replies with one of them moved to the front. */
  lemma Fronted(replies: seq<Reply>, i: nat) returns (other: seq<Reply>)
    requires i < |replies| && replies[i].Answer?
    ensures multiset(other) == multiset(replies) && |other| > 0
    ensures First(other) == 0 && other[0] == replies[i]
  {
    other := [replies[i]] + Without(replies, i);
    WithoutParts(replies, i);
    FirstIs(other, 0);
  }

  /** An answer with records, a failure after it. */
  lemma Refused(pack: Packer, sort: Sorter, replies: seq<Reply>, maxFailures: int) returns (other: seq<Reply>)
    requires !OneSided(replies)
    ensures multiset(other) == multiset(replies) && !Accepted(pack, sort, other, maxFailures)
  {
    var r :| r in replies && r.Failure?;
    var p :| p in replies && p.Answer? && p.records != [];
    var i :| 0 <= i < |replies| && replies[i] == p;
    other := Fronted(replies, i);
    SameElements(replies, other);
    var k :| 0 <= k < |other| && other[k] == r;
  }

  lemma OneSidedInTime(replies: seq<Reply>, other: seq<Reply>)
    requires OneSided(replies) && forall r :: r in other <==> r in replies
    ensures NoLateFailure(other)
  {
    var f := First(other);
    forall k | f < k < |other| && other[k].Failure? ensures |other[f].records| == 0 {
      assert other[k] in replies && other[f] in replies;
    }
  }

  /** An M of N quorum is not enough: the failures that are allowed are tolerated in every order
      of arrival if and only if there is none or there is no record to return. */
  lemma OrderOfArrivalMatters(pack: Packer, sort: Sorter, replies: seq<Reply>, maxFailures: int)
    ensures AcceptedInAnyOrder(pack, sort, replies, maxFailures)
            <==> Quorate(pack, sort, replies, maxFailures) && OneSided(replies)
  {
    if Quorate(pack, sort, replies, maxFailures) && OneSided(replies) {
      forall other | multiset(other) == multiset(replies) ensures Accepted(pack, sort, other, maxFailures) {
        QuorateInAnyOrder(pack, sort, replies, other, maxFailures);
        SameElements(replies, other);
        OneSidedInTime(replies, other);
      }
    } else if !OneSided(replies) {
      var other := Refused(pack, sort, replies, maxFailures);
    } else {
      assert !Accepted(pack, sort, replies, maxFailures);
    }
  }

  /** One failure is allowed and one query fails: what happens depends on which came first. */
  lemma LateFailureIsRefused(pack: Packer, sort: Sorter, r: Rr)
    requires Sorts(sort) && Packable(pack, [r])
    ensures Accepted(pack, sort, [Failure("timeout"), Answer([r])], 1)
    ensures !Accepted(pack, sort, [Answer([r]), Failure("timeout")], 1)
  {
    var early, late := [Failure("timeout"), Answer([r])], [Answer([r]), Failure("timeout")];
    FirstIs(early, 1);
    FirstIs(late, 0);
    SortedLength(sort, [r]);
    assert SortOf(Value, [r], sort([r]));
    SameElements([r], sort([r]));
    assert sort([r])[0] in sort([r]);
    PackableBuffered(pack, sort([r]));
    assert early[..1] == [Failure("timeout")] && Failures(early[..1]) == 1;
  }

  // ---------------------------------------------------------------- the canonical form

  /** A record without its time to live. */
  datatype Content = Content(owner: string, caa: Caa.Record)

  function ContentValue(c: Content): string {
    c.caa.value
  }

  function Contents(s: seq<Rr>): (z: seq<Content>)
    ensures |z| == |s|
    ensures forall i | 0 <= i < |s| :: z[i] == Content(s[i].owner, s[i].caa)
  {
    if |s| == 0 then [] else Contents(s[..|s| - 1]) + [Content(s[|s| - 1].owner, s[|s| - 1].caa)]
  }

  /** The same records, up to their order and their times to live. */
  predicate SameRecords(s: seq<Rr>, t: seq<Rr>) {
    multiset(Contents(s)) == multiset(Contents(t))
  }

  /** A wire form says where it ends. */
  ghost predicate SelfDelimiting(pack: Packer) {
    forall a, b | pack.wire(a).Some? && pack.wire(b).Some? && pack.wire(a).value <= pack.wire(b).value :: a == b
  }

  /** The estimated length does not depend on the time to live. */
  ghost predicate LengthIgnoresTtl(pack: Packer) {
    forall r: Rr, ttl: nat :: pack.length(r.(ttl := ttl)) == pack.length(r)
  }

  /** The records have a wire form no longer than estimated. */
  predicate Packable(pack: Packer, s: seq<Rr>) {
    forall r: Rr | r in s :: pack.wire(r.(ttl := 0)).Some? && |pack.wire(r.(ttl := 0)).value| <= pack.length(r)
  }

  lemma {:induction false} PackedFront(pack: Packer, s: seq<Rr>)
    requires |s| > 0
    ensures Packed(pack, s).Some? <==> pack.wire(s[0].(ttl := 0)).Some? && Packed(pack, s[1..]).Some?
    ensures Packed(pack, s).Some? ==> Packed(pack, s).value == pack.wire(s[0].(ttl := 0)).value + Packed(pack, s[1..]).value
  {
    if |s| == 1 {
      assert s[..0] == [] && s[1..] == [];
    } else {
      var front := s[..|s| - 1];
      PackedFront(pack, front);
      assert front[1..] == s[1..][..|s| - 2];
      if Packed(pack, s).Some? {
        var a, b, c := pack.wire(s[0].(ttl := 0)).value, Packed(pack, front[1..]).value, pack.wire(s[|s| - 1].(ttl := 0)).value;
        assert (a + b) + c == a + (b + c);
      }
    }
  }

  lemma CutEqual(a: Bytes, b: Bytes, c: Bytes, d: Bytes)
    requires a + b == c + d && |a| <= |c|
    ensures a <= c
    ensures a == c ==> b == d
  {
    assert a == (a + b)[..|a|] == c[..|a|];
    assert b == (a + b)[|a|..] && d == (c + d)[|c|..];
  }

  /** Wire forms one after the other, whatever follows them, determine the records. */
  lemma {:induction false} PackedInjective(pack: Packer, s: seq<Rr>, t: seq<Rr>, x: Bytes, y: Bytes)
    requires SelfDelimiting(pack) && |s| == |t|
    requires Packed(pack, s).Some? && Packed(pack, t).Some?
    requires Packed(pack, s).value + x == Packed(pack, t).value + y
    ensures Contents(s) == Contents(t)
  {
    if |s| > 0 {
      PackedFront(pack, s);
      PackedFront(pack, t);
      FrontsEqual(pack, s[0].(ttl := 0), t[0].(ttl := 0), Packed(pack, s[1..]).value, Packed(pack, t[1..]).value, x, y);
      PackedInjective(pack, s[1..], t[1..], x, y);
      ContentsFront(s);
      ContentsFront(t);
    }
  }

  lemma FrontsEqual(pack: Packer, q: Rr, r: Rr, b: Bytes, d: Bytes, x: Bytes, y: Bytes)
    requires SelfDelimiting(pack) && pack.wire(q).Some? && pack.wire(r).Some?
    requires pack.wire(q).value + b + x == pack.wire(r).value + d + y
    ensures q == r && b + x == d + y
  {
    var a, c := pack.wire(q).value, pack.wire(r).value;
    assert a + (b + x) == (a + b) + x && c + (d + y) == (c + d) + y;
    if |a| <= |c| {
      CutEqual(a, b + x, c, d + y);
    } else {
      CutEqual(c, d + y, a, b + x);
    }
  }

  lemma {:induction false} ContentsFront(s: seq<Rr>)
    requires |s| > 0
    ensures Contents(s) == [Content(s[0].owner, s[0].caa)] + Contents(s[1..])
  {
  }

  lemma BufferedInjective(pack: Packer, s: seq<Rr>, t: seq<Rr>)
    requires SelfDelimiting(pack) && |s| == |t|
    requires Buffered(pack, s).Some? && Buffered(pack, s) == Buffered(pack, t)
    ensures Contents(s) == Contents(t)
  {
    var p, q := Packed(pack, s).value, Packed(pack, t).value;
    PackedInjective(pack, s, t, Buffered(pack, s).value[|p|..], Buffered(pack, t).value[|q|..]);
  }

  lemma {:induction false} ContentsWithout(t: seq<Rr>, i: nat)
    requires i < |t|
    ensures Contents(Without(t, i)) == Without(Contents(t), i)
  {
  }

  lemma {:induction false} ContentsPermute(s: seq<Rr>, t: seq<Rr>)
    requires multiset(s) == multiset(t)
    ensures multiset(Contents(s)) == multiset(Contents(t))
    decreases |s|
  {
    if |s| == 0 {
      assert |multiset(t)| == 0;
    } else {
      var i := SameRest(s, t);
      ContentsPermute(s[..|s| - 1], Without(t, i));
      ContentsWithout(t, i);
      WithoutParts(Contents(t), i);
      MultisetSnoc(Contents(s));
      assert Contents(s)[..|s| - 1] == Contents(s[..|s| - 1]);
    }
  }

  /** Answers that are taken to be the same do hold the same records. */
  lemma SameSetIsSound(pack: Packer, sort: Sorter, s: seq<Rr>, t: seq<Rr>)
    requires Sorts(sort) && SelfDelimiting(pack)
    requires SameSet(pack, sort, s, t) && Canonical(pack, sort, s).Some?
    ensures SameRecords(s, t)
  {
    assert SortOf(Value, s, sort(s)) && SortOf(Value, t, sort(t));
    SortedLength(sort, s);
    SortedLength(sort, t);
    BufferedInjective(pack, sort(s), sort(t));
    ContentsPermute(s, sort(s));
    ContentsPermute(t, sort(t));
  }

  /** Records with the same value are the same, up to their times to live. */
  predicate NoTies(s: seq<Rr>) {
    forall a, b | a in s && b in s && a.caa.value == b.caa.value :: a.owner == b.owner && a.caa == b.caa
  }

  lemma ContentsSorted(s: seq<Rr>)
    requires Sorted(Value, s)
    ensures Sorted(ContentValue, Contents(s))
  {
  }

  lemma ContentsOnePerKey(s: seq<Rr>)
    requires NoTies(s)
    ensures OnePerKey(ContentValue, Contents(s))
  {
  }

  lemma SameRecordsSortAlike(sort: Sorter, s: seq<Rr>, t: seq<Rr>)
    requires Sorts(sort) && NoTies(s) && SameRecords(s, t)
    ensures Contents(sort(s)) == Contents(sort(t))
  {
    var a, b := sort(s), sort(t);
    assert SortOf(Value, s, a) && SortOf(Value, t, b);
    ContentsPermute(s, a);
    ContentsPermute(t, b);
    ContentsSorted(a);
    ContentsSorted(b);
    SameElements(s, a);
    ContentsOnePerKey(a);
    SortedIsUnique(ContentValue, Contents(a), Contents(b));
  }

  lemma {:induction false} BufferedOfContents(pack: Packer, s: seq<Rr>, t: seq<Rr>)
    requires LengthIgnoresTtl(pack) && Contents(s) == Contents(t)
    ensures |s| == |t| && Packed(pack, s) == Packed(pack, t) && Size(pack, s) == Size(pack, t)
  {
    assert |s| == |t|;
    if |s| > 0 {
      var n := |s| - 1;
      assert Contents(s[..n]) == Contents(s)[..n] == Contents(t)[..n] == Contents(t[..n]);
      assert Contents(s)[n] == Contents(t)[n];
      assert t[n] == s[n].(ttl := t[n].ttl) && t[n].(ttl := 0) == s[n].(ttl := 0);
      BufferedOfContents(pack, s[..n], t[..n]);
    }
  }

  lemma {:induction false} PackableBuffered(pack: Packer, s: seq<Rr>)
    requires Packable(pack, s)
    ensures Packed(pack, s).Some? && |Packed(pack, s).value| <= Size(pack, s)
  {
    if |s| > 0 {
      PackableBuffered(pack, s[..|s| - 1]);
    }
  }

  /** The answer is taken to be the same as every answer with the same records. */
  ghost predicate RecognisedBy(pack: Packer, sort: Sorter, s: seq<Rr>) {
    forall t | SameRecords(s, t) :: SameSet(pack, sort, s, t)
  }

  ghost predicate RecognisedByAll(pack: Packer, s: seq<Rr>) {
    forall sort | Sorts(sort) :: RecognisedBy(pack, sort, s)
  }

  /** The stable sort, which sort.Sort is on short slices. */
  function Stable(): Sorter {
    x => InsertionSort(Value, x)
  }

  lemma StableSorts()
    ensures Sorts(Stable())
  {
    forall x: seq<Rr> ensures SortOf(Value, x, Stable()(x)) {
      InsertionSortSorts(Value, x);
    }
  }

  lemma {:induction false} ClassContents(s: seq<Rr>, v: string)
    ensures Class(ContentValue, Contents(s), v) == Contents(Class(Value, s, v))
  {
    if |s| > 0 {
      var front, last := s[..|s| - 1], s[|s| - 1];
      ClassContents(front, v);
      ClassSnoc(ContentValue, Contents(front), Content(last.owner, last.caa), v);
      ContentsSnoc(Class(Value, front, v), last);
    }
  }

  lemma ContentsSnoc(s: seq<Rr>, r: Rr)
    ensures Contents(s + [r]) == Contents(s) + [Content(r.owner, r.caa)]
  {
    assert (s + [r])[..|s|] == s;
  }

  /** Answers that the stable sort takes to be the same list the records of each value alike. */
  lemma StableSameClasses(pack: Packer, s: seq<Rr>, t: seq<Rr>, v: string)
    requires SelfDelimiting(pack) && Packable(pack, s) && SameSet(pack, Stable(), s, t)
    ensures Contents(Class(Value, s, v)) == Contents(Class(Value, t, v))
  {
    var p, q := InsertionSort(Value, s), InsertionSort(Value, t);
    StableSorts();
    SortedLength(Stable(), s);
    SortedLength(Stable(), t);
    InsertionSortSorts(Value, s);
    SameElements(s, p);
    PackableBuffered(pack, p);
    BufferedInjective(pack, p, q);
    ClassContents(p, v);
    ClassContents(q, v);
    InsertionSortIsStable(Value, s, v);
    InsertionSortIsStable(Value, t, v);
  }

  /** Two records with one value: exchanging them makes an answer that the stable sort takes for
      another set. */
  lemma TieIsMissed(pack: Packer, s: seq<Rr>, i: nat, j: nat)
    requires SelfDelimiting(pack) && Packable(pack, s)
    requires i < j < |s| && s[i].caa.value == s[j].caa.value && (s[i].owner != s[j].owner || s[i].caa != s[j].caa)
    ensures SameRecords(s, Swap(s, i, j)) && !SameSet(pack, Stable(), s, Swap(s, i, j))
  {
    var t, v := Swap(s, i, j), s[i].caa.value;
    SwapPermutes(s, i, j);
    ContentsPermute(s, t);
    assert t[..i] == s[..i];
    ClassAt(Value, s, i, v);
    ClassAt(Value, t, i, v);
    if SameSet(pack, Stable(), s, t) {
      StableSameClasses(pack, s, t, v);
    }
  }

  /** Answers that sort to the same owners and properties, position by position, have the same
      canonical form, whatever the times to live. */
  lemma CanonicalIgnoresTtl(pack: Packer, sort: Sorter, s: seq<Rr>, t: seq<Rr>)
    requires LengthIgnoresTtl(pack) && |sort(s)| == |sort(t)|
    requires forall i | 0 <= i < |sort(s)| :: sort(s)[i].owner == sort(t)[i].owner && sort(s)[i].caa == sort(t)[i].caa
    ensures Canonical(pack, sort, s) == Canonical(pack, sort, t)
  {
    assert Contents(sort(s)) == Contents(sort(t));
    BufferedOfContents(pack, sort(s), sort(t));
  }

  lemma NoTiesRecognised(pack: Packer, sort: Sorter, s: seq<Rr>)
    requires LengthIgnoresTtl(pack) && Sorts(sort) && NoTies(s)
    ensures RecognisedBy(pack, sort, s)
  {
    forall t | SameRecords(s, t) ensures SameSet(pack, sort, s, t) {
      SameRecordsSortAlike(sort, s, t);
      SortedLength(sort, s);
      SortedLength(sort, t);
      BufferedOfContents(pack, sort(s), sort(t));
    }
  }

  /** The stable sort recognises an answer in every order if and only if no two of its records have
      the same value, and then every sort does: the comparison looks at nothing else. */
  lemma RecognisedIffNoTies(pack: Packer, s: seq<Rr>)
    requires SelfDelimiting(pack) && LengthIgnoresTtl(pack) && Packable(pack, s)
    ensures RecognisedBy(pack, Stable(), s) <==> NoTies(s)
    ensures RecognisedByAll(pack, s) <==> NoTies(s)
  {
    StableSorts();
    if NoTies(s) {
      forall sort | Sorts(sort) ensures RecognisedBy(pack, sort, s) {
        NoTiesRecognised(pack, sort, s);
      }
    } else {
      var i, j := FindTie(s);
      TieIsMissed(pack, s, i, j);
      assert !RecognisedBy(pack, Stable(), s);
    }
  }

  lemma FindTie(s: seq<Rr>) returns (i: nat, j: nat)
    requires !NoTies(s)
    ensures i < j < |s| && s[i].caa.value == s[j].caa.value && (s[i].owner != s[j].owner || s[i].caa != s[j].caa)
  {
    var x, y :| x in s && y in s && x.caa.value == y.caa.value && (x.owner != y.owner || x.caa != y.caa);
    i :| 0 <= i < |s| && s[i] == x;
    j :| 0 <= j < |s| && s[j] == y;
    if j < i {
      i, j := j, i;
    }
  }
}
