/** The distributed CAA resolver (cdr/resolver.go): replies are collected in the order in which
    they arrive, and a record set is returned only when the replies agree on it. */
module Quorum {
  import opened Prelude
  import opened Sorting
  import BE = BigEndian
  import Caa

  /** A CAA resource record: everything but the time to live is in `owner` and `caa`. */
  datatype Rr = Rr(owner: string, ttl: nat, caa: Caa.Record)

  datatype Reply = Failure(error: string) | Answer(records: seq<Rr>)

  /** dns.PackRR with room enough, where `None` is its error, and dns.Len. */
  datatype Packer = Packer(wire: Rr -> Option<Bytes>, length: Rr -> nat)

  /** sort.Sort on a caaSet. */
  type Sorter = seq<Rr> -> seq<Rr>

  /** The only thing that a caaSet is sorted by. */
  function Value(r: Rr): string {
    r.caa.value
  }

  /** All that is known of the sort: it is not stable, so the order of ties is open. */
  ghost predicate Sorts(sort: Sorter) {
    forall s :: SortOf(Value, s, sort(s))
  }

  // ---------------------------------------------------------------- the canonical form

  /** The wire forms, with the time to live set to zero, one after the other. */
  function Packed(pack: Packer, s: seq<Rr>): Option<Bytes> {
    if |s| == 0 then Some([])
    else
      var front := Packed(pack, s[..|s| - 1]);
      var last := pack.wire(s[|s| - 1].(ttl := 0));
      if front.Some? && last.Some? then Some(front.value + last.value) else None
  }

  /** The size of the buffer that is made for the records. */
  function Size(pack: Packer, s: seq<Rr>): nat {
    if |s| == 0 then 0 else Size(pack, s[..|s| - 1]) + pack.length(s[|s| - 1])
  }

  /** The wire forms in the buffer; what is left of it stays zero, and too small a buffer is an error. */
  function Buffered(pack: Packer, s: seq<Rr>): Option<Bytes> {
    var p, size := Packed(pack, s), Size(pack, s);
    if p.None? || |p.value| > size then None else Some(p.value + BE.Zeros(size - |p.value|))
  }

  function Canonical(pack: Packer, sort: Sorter, s: seq<Rr>): Option<Bytes> {
    Buffered(pack, sort(s))
  }

  /** One record is its wire form without a time to live, in a buffer of its estimated length. */
  lemma PackedOne(pack: Packer, r: Rr)
    ensures Packed(pack, [r]) == pack.wire(Rr(r.owner, 0, r.caa)) && Size(pack, [r]) == pack.length(r)
  {
    var one, wire := [r], pack.wire(Rr(r.owner, 0, r.caa));
    assert one[..|one| - 1] == [] && r.(ttl := 0) == Rr(r.owner, 0, r.caa);
    assert Packed(pack, one[..|one| - 1]) == Some([]) && Size(pack, one[..|one| - 1]) == 0;
    if wire.Some? {
      assert [] + wire.value == wire.value;
    }
  }

  /** Several are one after the other. */
  lemma {:induction false} PackedAppend(pack: Packer, s: seq<Rr>, t: seq<Rr>)
    ensures Size(pack, s + t) == Size(pack, s) + Size(pack, t)
    ensures Packed(pack, s + t).Some? <==> Packed(pack, s).Some? && Packed(pack, t).Some?
    ensures Packed(pack, s + t).Some? ==> Packed(pack, s + t).value == Packed(pack, s).value + Packed(pack, t).value
  {
    if |t| == 0 {
      assert s + t == s;
    } else {
      assert (s + t)[..|s + t| - 1] == s + t[..|t| - 1];
      PackedAppend(pack, s, t[..|t| - 1]);
    }
  }

  lemma {:induction false} PackedPrefix(pack: Packer, s: seq<Rr>, i: nat)
    requires i <= |s| && Packed(pack, s).Some?
    ensures Packed(pack, s[..i]).Some? && |Packed(pack, s[..i]).value| <= |Packed(pack, s).value|
  {
    if i == |s| {
      assert s[..i] == s;
    } else {
      PackedPrefix(pack, s[..|s| - 1], i);
      assert s[..|s| - 1][..i] == s[..i];
    }
  }

  /** Where a record cannot be packed, or does not fit, there is no canonical form. */
  lemma PackingStops(pack: Packer, s: seq<Rr>, i: nat)
    requires i < |s| && Packed(pack, s[..i]).Some?
    requires var wire := pack.wire(s[i].(ttl := 0));
             wire.None? || |Packed(pack, s[..i]).value| + |wire.value| > Size(pack, s)
    ensures Buffered(pack, s).None?
  {
    assert s[..i + 1][..i] == s[..i];
    if Packed(pack, s).Some? {
      PackedPrefix(pack, s, i + 1);
    }
  }

  /** What marshalling leaves in the slice: the sorted records, except that a record that cannot
      be packed keeps the zero time to live. */
  ghost predicate Left(sorted: seq<Rr>, packed: bool, s: seq<Rr>) {
    if packed then s == sorted else exists i | 0 <= i < |sorted| :: s == sorted[i := sorted[i].(ttl := 0)]
  }

  /** The buffer holds `out` and is zero from there on. */
  ghost predicate Filled(buffer: seq<Byte>, out: Bytes) {
    |out| <= |buffer| && buffer == out + BE.Zeros(|buffer| - |out|)
  }

  /** dns.PackRR into the buffer at an offset where there is room. */
  method PackInto(buffer: array<Byte>, offset: nat, wire: Bytes)
    requires offset + |wire| <= buffer.Length && Filled(buffer[..], buffer[..offset])
    modifies buffer
    ensures Filled(buffer[..], old(buffer[..offset]) + wire)
  {
    forall k | 0 <= k < |wire| {
      buffer[offset + k] := wire[k];
    }
    ghost var out := old(buffer[..offset]) + wire;
    ghost var was := old(buffer[..]);
    forall k | 0 <= k < buffer.Length ensures buffer[k] == (out + BE.Zeros(buffer.Length - |out|))[k] {
      if k >= |out| {
        assert was[k] == 0;
      } else if k >= offset {
        assert buffer[offset + (k - offset)] == wire[k - offset];
      }
    }
  }

  method BufferSize(sorted: seq<Rr>, pack: Packer) returns (size: nat)
    ensures size == Size(pack, sorted)
  {
    size := 0;
    for i := 0 to |sorted|
      invariant size == Size(pack, sorted[..i])
    {
      assert sorted[..i + 1][..i] == sorted[..i];
      size := size + pack.length(sorted[i]);
    }
    assert sorted[..|sorted|] == sorted;
  }

  /** One record: its time to live is zeroed, its wire form packed, and its time to live restored. */
  method PackRecord(a: array<Rr>, i: nat, tbh: array<Byte>, offset: nat, pack: Packer) returns (packed: bool, next: nat)
    requires i < a.Length && offset <= tbh.Length && Filled(tbh[..], tbh[..offset])
    modifies a, tbh
    ensures var wire := pack.wire(old(a[i]).(ttl := 0));
            && (packed <==> wire.Some? && offset + |wire.value| <= tbh.Length)
            && (packed ==> next == offset + |wire.value| && a[..] == old(a[..]) && tbh[..next] == old(tbh[..offset]) + wire.value)
    ensures packed ==> Filled(tbh[..], tbh[..next])
    ensures !packed ==> a[..] == old(a[..])[i := old(a[i]).(ttl := 0)]
  {
    var ttl := a[i].ttl;
    a[i] := a[i].(ttl := 0);
    var wire := pack.wire(a[i]);
    packed, next := wire.Some? && offset + |wire.value| <= tbh.Length, offset;
    if packed {
      PackInto(tbh, offset, wire.value);
      next := offset + |wire.value|;
      assert tbh[..next] == old(tbh[..offset]) + wire.value;
      a[i] := a[i].(ttl := ttl);
      assert a[..] == old(a[..]);
    }
  }

  /** marshalCanonicalCAASet sorts its argument in place, and zeroes and restores each time to live. */
  method MarshalCanonicalCAASet(a: array<Rr>, pack: Packer, sort: Sorter) returns (r: Option<Bytes>)
    requires |sort(a[..])| == a.Length
    modifies a
    ensures r == Canonical(pack, sort, old(a[..]))
    ensures Left(sort(old(a[..])), r.Some?, a[..])
  {
    var sorted := sort(a[..]);
    forall i | 0 <= i < a.Length {
      a[i] := sorted[i];
    }
    assert a[..] == sorted;
    r := FillBuffer(a, pack);
  }

  /** The buffer for the sorted records, filled. */
  method FillBuffer(a: array<Rr>, pack: Packer) returns (r: Option<Bytes>)
    modifies a
    ensures r == Buffered(pack, old(a[..])) && Left(old(a[..]), r.Some?, a[..])
  {
    ghost var sorted := a[..];
    var size := BufferSize(a[..], pack);
    var tbh := new Byte[size](_ => 0);
    var offset: nat := 0;
    for i := 0 to a.Length
      invariant a[..] == sorted && offset <= size
      invariant Packed(pack, sorted[..i]) == Some(tbh[..offset]) && Filled(tbh[..], tbh[..offset])
    {
      assert sorted[..i + 1][..i] == sorted[..i];
      var packed, next := PackRecord(a, i, tbh, offset, pack);
      if !packed {
        PackingStops(pack, sorted, i);
        return None;
      }
      offset := next;
    }
    assert sorted[..a.Length] == sorted;
    r := Some(tbh[..]);
  }

  // ---------------------------------------------------------------- collecting the replies

  function Failures(replies: seq<Reply>): nat {
    if |replies| == 0 then 0
    else Failures(replies[..|replies| - 1]) + if replies[|replies| - 1].Failure? then 1 else 0
  }

  lemma {:induction false} FailuresCounted(replies: seq<Reply>)
    ensures Failures(replies) == |set i | 0 <= i < |replies| && replies[i].Failure?|
  {
    if |replies| > 0 {
      var n := |replies| - 1;
      var front := replies[..n];
      FailuresCounted(front);
      assert (set i | 0 <= i < |replies| && replies[i].Failure?)
             == (set i | 0 <= i < |front| && front[i].Failure?) + (if replies[n].Failure? then {n} else {});
    }
  }

  lemma {:induction false} FailuresGrow(replies: seq<Reply>, i: nat)
    requires i <= |replies|
    ensures Failures(replies[..i]) <= Failures(replies)
  {
    if i == |replies| {
      assert replies[..i] == replies;
    } else {
      FailuresGrow(replies[..|replies| - 1], i);
      assert replies[..|replies| - 1][..i] == replies[..i];
    }
  }

  /** Where the first answer stands; `|replies|` when every query failed. */
  function First(replies: seq<Reply>): (f: nat)
    ensures f <= |replies|
    ensures f < |replies| ==> replies[f].Answer?
    ensures forall k | 0 <= k < f :: replies[k].Failure?
  {
    if |replies| == 0 || replies[0].Answer? then 0 else 1 + First(replies[1..])
  }

  lemma FirstIs(replies: seq<Reply>, f: nat)
    requires f < |replies| && replies[f].Answer?
    requires forall k | 0 <= k < f :: replies[k].Failure?
    ensures First(replies) == f
  {
  }

  /** The same number of records in the same canonical form. */
  predicate SameSet(pack: Packer, sort: Sorter, s: seq<Rr>, t: seq<Rr>) {
    |s| == |t| && Canonical(pack, sort, s) == Canonical(pack, sort, t)
  }

  predicate AllPack(pack: Packer, sort: Sorter, replies: seq<Reply>) {
    forall i | 0 <= i < |replies| && replies[i].Answer? :: Canonical(pack, sort, replies[i].records).Some?
  }

  /** Every answer is the same set as the first one. */
  predicate Agreed(pack: Packer, sort: Sorter, replies: seq<Reply>) {
    var f := First(replies);
    forall k | f < k < |replies| && replies[k].Answer? :: SameSet(pack, sort, replies[f].records, replies[k].records)
  }

  /** No query fails after the first answer, or that answer is empty. */
  predicate NoLateFailure(replies: seq<Reply>) {
    var f := First(replies);
    forall k | f < k < |replies| && replies[k].Failure? :: |replies[f].records| == 0
  }

  predicate Accepted(pack: Packer, sort: Sorter, replies: seq<Reply>, maxFailures: int) {
    && (Failures(replies) == 0 || Failures(replies) <= maxFailures)
    && AllPack(pack, sort, replies)
    && Agreed(pack, sort, replies)
    && NoLateFailure(replies)
  }

  /** marshalCanonicalCAASet on the slice of one reply, which nothing else refers to; a failed query
      has a nil slice. */
  method Marshal(records: seq<Rr>, pack: Packer, sort: Sorter) returns (canonical: Option<Bytes>, sorted: seq<Rr>)
    requires |sort(records)| == |records|
    ensures canonical == Canonical(pack, sort, records)
    ensures Left(sort(records), canonical.Some?, sorted)
  {
    var a := new Rr[|records|](i requires 0 <= i < |records| => records[i]);
    assert a[..] == records;
    canonical := MarshalCanonicalCAASet(a, pack, sort);
    sorted := a[..];
  }

  lemma AcceptedPrefix(pack: Packer, sort: Sorter, replies: seq<Reply>, i: nat, maxFailures: int)
    requires i <= |replies|
    requires Accepted(pack, sort, replies, maxFailures)
    ensures Accepted(pack, sort, replies[..i], maxFailures)
  {
    FailuresGrow(replies, i);
    if First(replies) < i {
      FirstIs(replies[..i], First(replies));
    }
  }

  /** What one more reply adds to acceptance. */
  predicate Fits(pack: Packer, sort: Sorter, before: seq<Reply>, reply: Reply, maxFailures: int) {
    var f := First(before);
    match reply
    case Failure(_) => Failures(before) + 1 <= maxFailures && (f < |before| ==> |before[f].records| == 0)
    case Answer(records) =>
      && Canonical(pack, sort, records).Some?
      && (f < |before| ==> SameSet(pack, sort, before[f].records, records))
  }

  lemma FirstSnoc(before: seq<Reply>, reply: Reply)
    ensures First(before) < |before| ==> First(before + [reply]) == First(before)
    ensures First(before) == |before| && reply.Answer? ==> First(before + [reply]) == |before|
    ensures First(before) == |before| && reply.Failure? ==> First(before + [reply]) == |before| + 1
  {
    var all := before + [reply];
    if First(before) < |before| {
      FirstIs(all, First(before));
    } else if reply.Answer? {
      FirstIs(all, |before|);
    }
  }

  lemma AcceptedSnoc(pack: Packer, sort: Sorter, before: seq<Reply>, reply: Reply, maxFailures: int)
    requires Accepted(pack, sort, before, maxFailures)
    ensures Accepted(pack, sort, before + [reply], maxFailures) <==> Fits(pack, sort, before, reply, maxFailures)
  {
  }

  lemma EmptyCanonical(pack: Packer, sort: Sorter)
    requires Sorts(sort)
    ensures sort([]) == [] && Canonical(pack, sort, []) == Some([])
  {
    SortedLength(sort, []);
    var none: Bytes := [];
    assert none + BE.Zeros(0) == none;
  }

  lemma SortedLength(sort: Sorter, s: seq<Rr>)
    requires Sorts(sort)
    ensures |sort(s)| == |s|
  {
    assert SortOf(Value, s, sort(s));
    assert |multiset(sort(s))| == |multiset(s)|;
  }

  /** The variables of the loop of LookupCAA; `caas` is `None` while it is nil. */
  datatype Progress = Progress(failed: int, caas: Option<seq<Rr>>, canonicalSet: Bytes)

  function RecordsOf(reply: Reply): seq<Rr> {
    if reply.Answer? then reply.records else []
  }

  /** One turn of the loop; `None` is an error. */
  function Collect(pack: Packer, sort: Sorter, maxFailures: int, p: Progress, reply: Reply): Option<Progress> {
    var records := RecordsOf(reply);
    var canonical := Canonical(pack, sort, records);
    if reply.Failure? && p.failed + 1 > maxFailures then None
    else if canonical.None? then None
    else if p.caas.Some? && (|records| != |p.caas.value| || canonical.value != p.canonicalSet) then None
    else
      var failed := if reply.Failure? then p.failed + 1 else p.failed;
      if p.caas.Some? then Some(p.(failed := failed))
      else Some(Progress(failed, if reply.Answer? then Some(sort(records)) else None, canonical.value))
  }

  function Collected(pack: Packer, sort: Sorter, maxFailures: int, replies: seq<Reply>): Option<Progress> {
    if |replies| == 0 then Some(Progress(0, None, []))
    else
      var before := Collected(pack, sort, maxFailures, replies[..|replies| - 1]);
      if before.None? then None else Collect(pack, sort, maxFailures, before.value, replies[|replies| - 1])
  }

  lemma {:induction false} CollectedPrefix(pack: Packer, sort: Sorter, maxFailures: int, replies: seq<Reply>, i: nat)
    requires i <= |replies| && Collected(pack, sort, maxFailures, replies[..i]).None?
    ensures Collected(pack, sort, maxFailures, replies).None?
  {
    if i == |replies| {
      assert replies[..i] == replies;
    } else {
      assert replies[..|replies| - 1][..i] == replies[..i];
      CollectedPrefix(pack, sort, maxFailures, replies[..|replies| - 1], i);
    }
  }

  /** What has been collected says of the replies. */
  ghost predicate Knows(pack: Packer, sort: Sorter, before: seq<Reply>, p: Progress) {
    var f := First(before);
    && p.failed == Failures(before)
    && (p.caas.None? <==> f == |before|)
    && (p.caas.Some? ==>
          && p.caas.value == sort(before[f].records)
          && Canonical(pack, sort, before[f].records) == Some(p.canonicalSet))
  }

  lemma CollectsIffFits(pack: Packer, sort: Sorter, before: seq<Reply>, p: Progress, maxFailures: int, reply: Reply)
    requires Sorts(sort) && Knows(pack, sort, before, p)
    ensures Collect(pack, sort, maxFailures, p, reply).Some? <==> Fits(pack, sort, before, reply, maxFailures)
  {
    EmptyCanonical(pack, sort);
    if p.caas.Some? {
      var first := before[First(before)].records;
      SortedLength(sort, first);
      assert |p.caas.value| == |first|;
      assert |first| == 0 ==> first == [];
    }
  }

  lemma CollectKnows(pack: Packer, sort: Sorter, before: seq<Reply>, p: Progress, maxFailures: int, reply: Reply)
    requires Knows(pack, sort, before, p) && Collect(pack, sort, maxFailures, p, reply).Some?
    ensures Knows(pack, sort, before + [reply], Collect(pack, sort, maxFailures, p, reply).value)
  {
    FirstSnoc(before, reply);
    assert (before + [reply])[..|before|] == before;
  }

  /** The loop gets through exactly when the replies are accepted, and ends with the first answer. */
  lemma {:induction false} CollectedIffAccepted(pack: Packer, sort: Sorter, maxFailures: int, replies: seq<Reply>)
    requires Sorts(sort)
    ensures Collected(pack, sort, maxFailures, replies).Some? <==> Accepted(pack, sort, replies, maxFailures)
    ensures Collected(pack, sort, maxFailures, replies).Some? ==>
              Knows(pack, sort, replies, Collected(pack, sort, maxFailures, replies).value)
  {
    if |replies| > 0 {
      var before, reply := replies[..|replies| - 1], replies[|replies| - 1];
      assert replies == before + [reply];
      CollectedIffAccepted(pack, sort, maxFailures, before);
      var p := Collected(pack, sort, maxFailures, before);
      if p.Some? {
        AcceptedSnoc(pack, sort, before, reply, maxFailures);
        CollectsIffFits(pack, sort, before, p.value, maxFailures, reply);
        if Collect(pack, sort, maxFailures, p.value, reply).Some? {
          CollectKnows(pack, sort, before, p.value, maxFailures, reply);
        }
      } else if Accepted(pack, sort, replies, maxFailures) {
        AcceptedPrefix(pack, sort, replies, |before|, maxFailures);
      }
    }
  }

  /** LookupCAA on the replies in the order of arrival; `None` is an error. */
  method LookupCAA(replies: seq<Reply>, maxFailures: int, pack: Packer, sort: Sorter) returns (r: Option<seq<Rr>>)
    requires Sorts(sort)
    ensures r.Some? <==> Accepted(pack, sort, replies, maxFailures)
    ensures r.Some? ==> r.value == if First(replies) < |replies| then sort(replies[First(replies)].records) else []
  {
    CollectedIffAccepted(pack, sort, maxFailures, replies);
    var collected := CollectReplies(replies, maxFailures, pack, sort);
    r := if collected.None? then None
         else if collected.value.caas.Some? then collected.value.caas else Some([]);
  }

  /** The loop itself. */
  method CollectReplies(replies: seq<Reply>, maxFailures: int, pack: Packer, sort: Sorter) returns (r: Option<Progress>)
    requires Sorts(sort)
    ensures r == Collected(pack, sort, maxFailures, replies)
  {
    var p := Progress(0, None, []);
    for i := 0 to |replies|
      invariant Collected(pack, sort, maxFailures, replies[..i]) == Some(p)
    {
      assert replies[..i + 1][..i] == replies[..i];
      r := CollectReply(p, replies[i], maxFailures, pack, sort);
      if r.None? {
        CollectedPrefix(pack, sort, maxFailures, replies, i + 1);
        return;
      }
      p := r.value;
    }
    assert replies[..|replies|] == replies;
    r := Some(p);
  }

  /** Its body. */
  method CollectReply(p: Progress, reply: Reply, maxFailures: int, pack: Packer, sort: Sorter) returns (r: Option<Progress>)
    requires Sorts(sort)
    ensures r == Collect(pack, sort, maxFailures, p, reply)
  {
    var failed, caas, canonicalSet := p.failed, p.caas, p.canonicalSet;
    if reply.Failure? {
      failed := failed + 1;
      if failed > maxFailures {
        return None;
      }
    }
    SortedLength(sort, RecordsOf(reply));
    var canonical, sorted := Marshal(RecordsOf(reply), pack, sort);
    if canonical.None? {
      return None;
    }
    if caas.None? {
      caas := if reply.Answer? then Some(sorted) else None;
      canonicalSet := canonical.value;
    } else if |sorted| != |caas.value| || canonical.value != canonicalSet {
      return None;
    }
    r := Some(Progress(failed, caas, canonicalSet));
  }
}
