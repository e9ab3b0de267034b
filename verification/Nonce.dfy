/** The nonce service (nonce/nonce.go): a bounded window of used counters standing in for the
    unbounded set of everything ever accepted, and the sealed form of the counters. */
module Nonce {
  import opened Prelude
  import opened BigEndian
  import opened Base64Url

  // ---------------------------------------------------------------- the window as a value

  /** The service's fields, and the history of accepted counters that it does not keep. */
  datatype Window = Window(latest: int, earliest: int, used: set<int>, accepted: seq<int>)

  ghost function Least(s: set<int>): (m: int)
    requires s != {}
    ensures m in s && forall x | x in s :: m <= x
  {
    var x := AnyOf(s);
    if s == {x} then x
    else
      var m := Least(s - {x});
      assert s == (s - {x}) + {x};
      if m < x then m else x
  }

  predicate Accepts(w: Window, c: int) {
    w.earliest < c <= w.latest && c !in w.used
  }

  lemma LeastIs(s: set<int>, m: int)
    requires m in s && forall x | x in s :: m <= x
    ensures Least(s) == m
  {
  }

  /** minUsed: the scan begins with the latest counter. */
  ghost function Lowest(latest: int, used: set<int>): int {
    Least(used + {latest})
  }

  /** Valid, once the counter has been recovered. */
  ghost function Redeem(max: nat, w: Window, c: int): Window {
    if !Accepts(w, c) then w
    else
      var used := w.used + {c};
      var min := Lowest(w.latest, used);
      if |used| > max
      then w.(used := used - {min}, earliest := min, accepted := w.accepted + [c])
      else w.(used := used, accepted := w.accepted + [c])
  }

  datatype Op = Generate | Present(counter: int)

  ghost function Apply(max: nat, w: Window, op: Op): Window {
    match op
    case Generate => w.(latest := w.latest + 1)
    case Present(c) => Redeem(max, w, c)
  }

  ghost function Run(max: nat, ops: seq<Op>): Window {
    if |ops| == 0 then Window(0, 0, {}, []) else Apply(max, Run(max, ops[..|ops| - 1]), ops[|ops| - 1])
  }

  function Members(s: seq<int>): set<int> {
    set c | c in s
  }

  predicate Distinct(s: seq<int>) {
    forall i, j | 0 <= i < j < |s| :: s[i] != s[j]
  }

  /** The accepted counters above c. */
  function Above(accepted: seq<int>, c: int): set<int> {
    set a | a in accepted && a > c
  }

  /** The window holds exactly the accepted counters above `earliest`; no more than max of
      them; exactly max, just above an accepted one, once anything has been forgotten. */
  predicate Refines(max: nat, w: Window) {
    && 0 <= w.earliest <= w.latest
    && Distinct(w.accepted)
    && (forall c | c in w.accepted :: 0 < c <= w.latest)
    && w.used == Above(w.accepted, w.earliest)
    && |w.used| <= max
    && (w.earliest != 0 ==> w.earliest in w.accepted && |w.used| == max)
  }

  lemma RedeemRefines(max: nat, w: Window, c: int)
    requires Refines(max, w)
    ensures Refines(max, Redeem(max, w, c))
    ensures Accepts(w, c) <==> Redeem(max, w, c).accepted == w.accepted + [c]
  {
    if Accepts(w, c) {
      AboveMore(w.accepted, w.earliest, c);
      if |w.used + {c}| > max {
        EvictRefines(max, w, c);
      }
    }
  }

  /** A full window forgets the least counter. */
  lemma EvictRefines(max: nat, w: Window, c: int)
    requires Refines(max, w) && Accepts(w, c) && |w.used + {c}| > max
    ensures Refines(max, Redeem(max, w, c))
  {
    var used := w.used + {c};
    var least := Least(used);
    LeastIs(used + {w.latest}, least);
    AboveMore(w.accepted, w.earliest, c);
    AboveLeast(w.accepted + [c], w.earliest, least);
    assert |used - {least}| == max;
  }

  /** Accepting a counter above the bound adds it to those above the bound. */
  lemma AboveMore(accepted: seq<int>, bound: int, c: int)
    requires c > bound
    ensures Above(accepted + [c], bound) == Above(accepted, bound) + {c}
  {
  }

  /** Raising the bound to the least counter above it loses that counter. */
  lemma AboveLeast(accepted: seq<int>, bound: int, least: int)
    requires least in Above(accepted, bound) && forall x | x in Above(accepted, bound) :: least <= x
    ensures Above(accepted, least) == Above(accepted, bound) - {least}
  {
  }

  lemma RedeemKeeps(max: nat, w: Window, c: int)
    ensures Refines(max, w) ==> Refines(max, Redeem(max, w, c))
  {
    if Refines(max, w) {
      RedeemRefines(max, w, c);
    }
  }

  lemma {:induction false} RunRefines(max: nat, ops: seq<Op>)
    ensures Refines(max, Run(max, ops))
  {
    if |ops| > 0 {
      var n := |ops| - 1;
      RunRefines(max, ops[..n]);
      if ops[n].Present? {
        RedeemRefines(max, Run(max, ops[..n]), ops[n].counter);
      }
    }
  }

  lemma DistinctSize(s: seq<int>)
    requires Distinct(s)
    ensures |Members(s)| == |s|
  {
    if |s| > 0 {
      var n := |s| - 1;
      DistinctSize(s[..n]);
      assert Members(s) == Members(s[..n]) + {s[n]};
    }
  }

  /** In every run no counter is accepted twice, and the memory in use is the smaller of the
      bound and the number of acceptances, filled with the largest accepted counters. */
  lemma WindowIsExact(max: nat, ops: seq<Op>)
    ensures var w := Run(max, ops);
            && Distinct(w.accepted)
            && |w.used| == Min(max, |w.accepted|)
            && w.used <= Members(w.accepted)
            && forall u, a | u in w.used && a in w.accepted && a !in w.used :: a < u
  {
    RunRefines(max, ops);
    var w := Run(max, ops);
    DistinctSize(w.accepted);
    SubsetSize(w.used, Members(w.accepted));
    if w.earliest == 0 {
      assert w.used == Members(w.accepted);
    } else {
      assert w.earliest in Members(w.accepted) && w.earliest !in w.used;
    }
  }

  /** A nonce that was issued and not yet accepted is refused if and only if more than max
      higher ones have been accepted. */
  lemma RefusedIffForgotten(max: nat, ops: seq<Op>, c: int)
    requires var w := Run(max, ops); 0 < c <= w.latest && c !in w.accepted
    ensures !Accepts(Run(max, ops), c) <==> |Above(Run(max, ops).accepted, c)| > max
  {
    RunRefines(max, ops);
    var w := Run(max, ops);
    var above := Above(w.accepted, c);
    if c <= w.earliest {
      assert w.used + {w.earliest} <= above;
      SubsetSize(w.used + {w.earliest}, above);
    } else {
      SubsetSize(above, w.used);
    }
  }

  lemma {:induction false} AcceptedGrows(max: nat, ops: seq<Op>, i: nat)
    requires i <= |ops|
    ensures Run(max, ops[..i]).accepted <= Run(max, ops).accepted
  {
    if i == |ops| {
      assert ops[..i] == ops;
    } else {
      var n := |ops| - 1;
      AcceptedGrows(max, ops[..n], i);
      assert ops[..n][..i] == ops[..i];
    }
  }

  /** What is accepted at some moment was issued, and is refused at every later moment. */
  lemma NeverAcceptedAgain(max: nat, ops: seq<Op>, i: nat, c: int)
    requires i <= |ops| && c in Run(max, ops[..i]).accepted
    ensures 0 < c <= Run(max, ops[..i]).latest && !Accepts(Run(max, ops), c)
  {
    RunRefines(max, ops[..i]);
    RunRefines(max, ops);
    AcceptedGrows(max, ops, i);
    assert c in Run(max, ops).accepted;
  }

  function CountIssued(ops: seq<Op>): nat {
    if |ops| == 0 then 0 else CountIssued(ops[..|ops| - 1]) + if ops[|ops| - 1].Generate? then 1 else 0
  }

  /** In every run the latest counter is the number of nonces issued. */
  lemma {:induction false} LatestCountsIssued(max: nat, ops: seq<Op>)
    ensures Run(max, ops).latest == CountIssued(ops)
  {
    if |ops| > 0 {
      LatestCountsIssued(max, ops[..|ops| - 1]);
    }
  }

  lemma {:induction false} LatestGrows(max: nat, ops: seq<Op>, i: nat)
    requires i <= |ops|
    ensures Run(max, ops[..i]).latest <= Run(max, ops).latest
  {
    if i == |ops| {
      assert ops[..i] == ops;
    } else {
      LatestGrows(max, ops[..|ops| - 1], i);
      assert ops[..|ops| - 1][..i] == ops[..i];
    }
  }

  /** A counter that may be redeemed is accepted, once. */
  lemma RedeemsOnce(max: nat, w: Window, c: int)
    requires Refines(max, w) && Accepts(w, c)
    ensures Redeem(max, w, c).accepted == w.accepted + [c] && !Accepts(Redeem(max, w, c), c)
  {
    RedeemRefines(max, w, c);
    assert c in Redeem(max, w, c).accepted;
  }

  /** A counter that is issued is larger than every one issued or accepted before. */
  lemma IssuedIsNew(max: nat, ops: seq<Op>)
    ensures var c, issued := CountIssued(ops) + 1, Run(max, ops + [Generate]);
            && issued.latest == c && Refines(max, issued)
            && (forall i | 0 <= i <= |ops| :: Run(max, ops[..i]).latest < c)
            && (forall a | a in issued.accepted :: a < c)
  {
    assert (ops + [Generate])[..|ops|] == ops;
    LatestCountsIssued(max, ops);
    RunRefines(max, ops);
    forall i | 0 <= i <= |ops| ensures Run(max, ops[..i]).latest < CountIssued(ops) + 1 {
      LatestGrows(max, ops, i);
    }
  }

  /** It may be redeemed at once, and then not again. */
  lemma IssuedIsRedeemable(max: nat, ops: seq<Op>)
    ensures var c := CountIssued(ops) + 1;
            var issued, redeemed := Run(max, ops + [Generate]), Run(max, ops + [Generate, Present(c)]);
            Accepts(issued, c) && redeemed.accepted == issued.accepted + [c] && !Accepts(redeemed, c)
  {
    var c := CountIssued(ops) + 1;
    assert (ops + [Generate, Present(c)])[..|ops| + 1] == ops + [Generate];
    IssuedIsNew(max, ops);
    RedeemsOnce(max, Run(max, ops + [Generate]), c);
  }

  // ---------------------------------------------------------------- sealing

  const NONCE_LEN := 32

  /** AES-GCM under one key, as far as the service relies on it. */
  datatype Aead = Aead(seal: (Bytes, Bytes) -> Bytes, open: (Bytes, Bytes) -> Option<Bytes>)

  /** Sealing adds a 16-byte tag and opening with the same nonce undoes it. */
  ghost predicate Sound(gcm: Aead) {
    forall n: Bytes, p: Bytes :: |gcm.seal(n, p)| == |p| + 16 && gcm.open(n, gcm.seal(n, p)) == Some(p)
  }

  const INT64_LIMIT := 0x8000_0000_0000_0000

  /** A Go `int64`. */
  type Counter = c: int | -INT64_LIMIT <= c < INT64_LIMIT

  function Increment(c: Counter): Counter {
    if c == INT64_LIMIT - 1 then -INT64_LIMIT else c + 1
  }

  /** `big.Int.Bytes` ignores the sign. */
  function Abs(c: int): nat {
    if c < 0 then -c else c
  }

  /** encrypt: the counter in eight bytes, sealed under a nonce of which eight bytes are random. */
  function Encrypt(gcm: Aead, counter: Counter, random: Bytes): string
    requires |random| == 8
  {
    FitsEightBytes(Abs(counter));
    EncodeRaw(random + gcm.seal(Zeros(4) + random, Padded(Abs(counter), 8)))
  }

  /** `big.Int.Int64` of a non-negative number: the low 64 bits, as a signed number. */
  function Int64(v: nat): int {
    var low := v % (2 * INT64_LIMIT);
    if low < INT64_LIMIT then low else low - 2 * INT64_LIMIT
  }

  /** decrypt. */
  function Decrypt(gcm: Aead, nonce: string): Option<int> {
    var decoded := DecodeRaw(nonce);
    if decoded.None? || |decoded.value| != NONCE_LEN then None
    else
      var plain := gcm.open(Zeros(4) + decoded.value[..8], decoded.value[8..]);
      if plain.None? then None else Some(Int64(Value(plain.value)))
  }

  lemma FitsEightBytes(counter: nat)
    requires counter <= INT64_LIMIT
    ensures |Minimal(counter)| <= 8
  {
    assert Pow256(8) == 2 * INT64_LIMIT;
    MinimalLength(counter, 8);
  }

  lemma SealedComesBack(gcm: Aead, random: Bytes, plain: Bytes)
    requires Sound(gcm) && |random| == 8 && |plain| == 8
    ensures Decrypt(gcm, EncodeRaw(random + gcm.seal(Zeros(4) + random, plain))) == Some(Int64(Value(plain)))
  {
    var sealed := gcm.seal(Zeros(4) + random, plain);
    var whole := random + sealed;
    RawRoundTrip(whole);
    assert |whole| == NONCE_LEN && whole[..8] == random && whole[8..] == sealed;
  }

  /** A counter comes back from its sealed form if and only if it is not negative, or is the least
      of all; every other one loses its sign. */
  lemma DecryptEncrypt(gcm: Aead, counter: Counter, random: Bytes)
    requires Sound(gcm) && |random| == 8
    ensures Decrypt(gcm, Encrypt(gcm, counter, random)) == Some(if counter == -INT64_LIMIT then counter else Abs(counter))
    ensures Decrypt(gcm, Encrypt(gcm, counter, random)) == Some(counter) <==> counter >= 0 || counter == -INT64_LIMIT
  {
    var v := Abs(counter);
    FitsEightBytes(v);
    ValuePadded(v, 8);
    SealedComesBack(gcm, random, Padded(v, 8));
    Int64Small(v);
  }

  lemma Int64Small(v: nat)
    requires v <= INT64_LIMIT
    ensures Int64(v) == if v == INT64_LIMIT then -INT64_LIMIT else v
  {
  }

  // ---------------------------------------------------------------- the service

  class NonceService {
    var latest: Counter
    var earliest: int
    var used: set<int>
    const maxUsed: nat
    const gcm: Aead
    ghost var accepted: seq<int>

    ghost function View(): Window
      reads this
    {
      Window(latest, earliest, used, accepted)
    }

    ghost predicate Valid()
      reads this
    {
      Refines(maxUsed, View())
    }

    constructor (maxUsed: nat, gcm: Aead)
      ensures Valid() && View() == Run(maxUsed, []) && this.maxUsed == maxUsed && this.gcm == gcm
    {
      this.maxUsed, this.gcm := maxUsed, gcm;
      latest, earliest, used, accepted := 0, 0, {}, [];
    }

    /** Nonce: the next counter, sealed. After the largest counter comes the least. */
    method Nonce(random: Bytes) returns (nonce: string)
      requires |random| == 8
      modifies this`latest
      ensures latest == (if old(latest) == 0x7fff_ffff_ffff_ffff then -0x8000_0000_0000_0000 else old(latest) + 1)
      ensures nonce == Encrypt(gcm, latest, random)
      ensures old(latest) < INT64_LIMIT - 1 ==> View() == Apply(maxUsed, old(View()), Generate) && (old(Valid()) ==> Valid())
      ensures old(Valid()) && Sound(gcm) && old(latest) < INT64_LIMIT - 1 ==>
                Decrypt(gcm, nonce) == Some(old(latest) + 1) && Accepts(View(), old(latest) + 1)
      ensures old(latest) == INT64_LIMIT - 1 && old(Valid()) ==> forall c :: !Accepts(View(), c)
    {
      latest := Increment(latest);
      nonce := Encrypt(gcm, latest, random);
      if Sound(gcm) {
        DecryptEncrypt(gcm, latest, random);
      }
    }

    /** A nonce that is issued and presented at once is accepted, and refused the second time. */
    method IssueAndRedeem(random: Bytes) returns (nonce: string, first: bool, second: bool)
      requires |random| == 8 && Valid() && Sound(gcm) && latest < INT64_LIMIT - 1
      modifies this
      ensures first && !second && Valid()
      ensures latest == old(latest) + 1 && accepted == old(accepted) + [latest]
    {
      nonce := Nonce(random);
      first := Redeemed(nonce);
      second := Redeemed(nonce);
    }

    method MinUsed() returns (min: int)
      ensures min == Lowest(latest, used)
    {
      min := latest;
      var left := used;
      while left != {}
        invariant left <= used && min <= latest
        invariant forall c | c in used && c !in left :: min <= c
        invariant min == latest || min in used
        decreases left
      {
        var c := Pick(left);
        if c < min {
          min := c;
        }
        left := left - {c};
      }
      LeastIs(used + {latest}, min);
    }

    /** Valid: whether the nonce may be used now; a nonce that may is used up. */
    method Redeemed(nonce: string) returns (ok: bool)
      modifies this
      ensures old(Valid()) ==> Valid()
      ensures var c := Decrypt(gcm, nonce);
              && ok == (c.Some? && Accepts(old(View()), c.value))
              && View() == if c.Some? then Redeem(maxUsed, old(View()), c.value) else old(View())
    {
      var c := Decrypt(gcm, nonce);
      if c.None? {
        return false;
      }
      ghost var after := Redeem(maxUsed, View(), c.value);
      RedeemKeeps(maxUsed, View(), c.value);
      if c.value > latest || c.value <= earliest || c.value in used {
        return false;
      }
      used := used + {c.value};
      accepted := accepted + [c.value];
      if |used| > maxUsed {
        earliest := MinUsed();
        used := used - {earliest};
      }
      assert View() == after;
      ok := true;
    }
  }
}
