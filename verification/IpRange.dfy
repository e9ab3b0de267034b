/** The address range used to rate-limit registrations by IP (sa/sa.go). */
module IpRange {
  import opened Prelude
  import opened BigEndian

  function V4Prefix(): Bytes {
    Zeros(10) + [255, 255]
  }

  /** `net.IP.To16`: four bytes are mapped, sixteen are kept, anything else is nil. */
  function To16(ip: Bytes): Bytes {
    if |ip| == 4 then V4Prefix() + ip else if |ip| == 16 then ip else []
  }

  predicate IsV4(ip: Bytes) {
    |ip| == 4 || (|ip| == 16 && ip[..12] == V4Prefix())
  }

  /** The mapped form of section 2.5.5.2 of RFC 4291: ten bytes of zero and two of 255 come first. */
  lemma V4Mapped(ip: Bytes)
    ensures |ip| == 4 ==> To16(ip) == [0, 0, 0, 0, 0, 0, 0, 0, 0, 0, 255, 255] + ip && IsV4(To16(ip))
    ensures |ip| == 16 ==> To16(ip) == ip && (IsV4(ip) <==> ip[..12] == [0, 0, 0, 0, 0, 0, 0, 0, 0, 0, 255, 255])
  {
    assert Zeros(10) == [0, 0, 0, 0, 0, 0, 0, 0, 0, 0];
  }

  function Ones(n: nat): (b: Bytes)
    ensures |b| == n && forall i | 0 <= i < n :: b[i] == 255
  {
    seq(n, i => 255)
  }

  function Pow2(n: nat): (p: nat)
    ensures p > 0
  {
    if n == 0 then 1 else 2 * Pow2(n - 1)
  }

  /** incrementIP: the first address after the subnet of the given mask length. */
  function IncrementIP(ip: Bytes, index: nat): Bytes
    requires index <= 128
  {
    Saturated(Value(ip) + Pow2(128 - index))
  }

  /** A number in sixteen bytes, or the largest such number. */
  function Saturated(v: nat): Bytes {
    var bytes := Minimal(v);
    if |bytes| > 16 then Ones(16) else Zeros(16 - |bytes|) + bytes
  }

  /** `net.IP.Mask` with a mask of whole bytes. */
  function Mask(ip: Bytes, length: nat): Bytes {
    if |ip| != 16 || length > 128 then [] else ip[..length / 8] + Zeros(16 - length / 8)
  }

  function Range(ip: Bytes): (Bytes, Bytes) {
    var full := To16(ip);
    var maskLength := if IsV4(full) then 128 else 48;
    var begin := Mask(full, maskLength);
    (begin, IncrementIP(begin, maskLength))
  }

  /** `:beginIP <= initialIP AND initialIP < :endIP`. */
  predicate Selects(range: (Bytes, Bytes), addr: Bytes) {
    !Less(addr, range.0) && Less(addr, range.1)
  }

  lemma {:induction false} Pow2IsPow256(n: nat)
    ensures Pow2(8 * n) == Pow256(n)
  {
    if n > 0 {
      Pow2IsPow256(n - 1);
      var m := 8 * n - 8;
      assert Pow2(m + 8) == 2 * Pow2(m + 7);
      assert Pow2(m + 7) == 2 * Pow2(m + 6);
      assert Pow2(m + 6) == 2 * Pow2(m + 5);
      assert Pow2(m + 5) == 2 * Pow2(m + 4);
      assert Pow2(m + 4) == 2 * Pow2(m + 3);
      assert Pow2(m + 3) == 2 * Pow2(m + 2);
      assert Pow2(m + 2) == 2 * Pow2(m + 1);
    }
  }

  /** 2^80: the number of addresses in a /48. */
  function Net(addr: Bytes): nat {
    Value(addr) / Pow256(10)
  }

  lemma NetIsPrefix(addr: Bytes)
    requires |addr| == 16
    ensures Net(addr) == Value(addr[..6])
  {
    var p := Pow256(10);
    assert addr == addr[..6] + addr[6..];
    ValueAppend(addr[..6], addr[6..]);
    ValueBound(addr[6..]);
    QuotientIs(Value(addr), Value(addr[..6]), Value(addr[6..]), p);
  }

  lemma QuotientIs(v: nat, q: nat, r: nat, p: nat)
    requires p > 0 && v == q * p + r && r < p
    ensures v / p == q
  {
    var d := v / p;
    assert v == d * p + v % p;
    assert d < q ==> (d + 1) * p <= q * p;
    assert d > q ==> (q + 1) * p <= d * p;
  }

  /** The end of the range, as a number of w = 16 bytes: one past the subnet, or the largest
      address when the subnet is the last one. */
  lemma SaturatedValue(v: nat, w: nat)
    requires w == 16
    ensures |Saturated(v)| == w && Value(Saturated(v)) == if v < Pow256(w) then v else Pow256(w) - 1
  {
    MinimalLength(v, w);
    if v < Pow256(w) {
      ValuePadded(v, w);
    } else {
      ValueOnes(w);
    }
  }

  lemma {:induction false} ValueOnes(n: nat)
    ensures Value(Ones(n)) == Pow256(n) - 1
  {
    if n > 0 {
      ValueOnes(n - 1);
      assert Ones(n)[..n - 1] == Ones(n - 1);
    }
  }

  /** For an IPv4 address, in either form, the range selects that address alone. */
  lemma V4SelectsItself(ip: Bytes, addr: Bytes)
    requires |ip| == 4 || |ip| == 16
    requires IsV4(To16(ip)) && |addr| == 16
    ensures Selects(Range(ip), addr) <==> addr == To16(ip)
  {
    var end := V4Range(ip);
    SelectsOne(Range(ip), To16(ip), end, addr);
  }

  lemma V4Range(ip: Bytes) returns (end: Bytes)
    requires |ip| == 4 || |ip| == 16
    requires IsV4(To16(ip))
    ensures Range(ip) == (To16(ip), end)
    ensures |end| == 16 && Value(end) == Value(To16(ip)) + 1
  {
    var full := To16(ip);
    assert Mask(full, 128) == full;
    assert Pow2(0) == 1;
    V4IsNotLast(full);
    end := Saturated(Value(full) + 1);
    SaturatedValue(Value(full) + 1, |full|);
  }

  lemma SelectsBetween(range: (Bytes, Bytes), addr: Bytes)
    requires |range.0| == |addr| == |range.1|
    ensures Selects(range, addr) <==> Value(range.0) <= Value(addr) < Value(range.1)
  {
    LessIsNumeric(addr, range.0);
    LessIsNumeric(addr, range.1);
  }

  lemma SelectsOne(range: (Bytes, Bytes), full: Bytes, end: Bytes, addr: Bytes)
    requires range == (full, end) && |full| == |addr| == |end| && Value(end) == Value(full) + 1
    ensures Selects(range, addr) <==> addr == full
  {
    SelectsBetween(range, addr);
    if Value(addr) == Value(full) {
      ValueInjective(addr, full);
    }
  }

  lemma V4IsNotLast(full: Bytes)
    requires |full| == 16 && IsV4(full)
    ensures Value(full) + 1 < Pow256(|full|)
  {
    ValueHead(full);
    assert full[..12][0] == 0 && full[0] == 0;
    ValueBound(full[1..]);
  }

  /** For an IPv6 address the range selects exactly the addresses of its /48, except that the
      largest address of all is in no range. */
  lemma V6SelectsNet(ip: Bytes, addr: Bytes)
    requires |ip| == 16 && !IsV4(ip) && |addr| == 16
    ensures Selects(Range(ip), addr) <==> Net(addr) == Net(ip) && addr != Ones(16)
  {
    V6SelectsNumerically(ip, addr, 6, 10);
    if Value(addr) == Value(Ones(16)) {
      ValueInjective(addr, Ones(16));
    }
    ValueOnes(|addr|);
  }

  /** The largest address is not even in the range made from itself. */
  lemma LastAddressIsMissed()
    ensures !Selects(Range(Ones(16)), Ones(16))
  {
    assert Ones(16)[..12][0] == 255;
    V6SelectsNet(Ones(16), Ones(16));
  }

  lemma V6SelectsNumerically(ip: Bytes, addr: Bytes, prefix: nat, host: nat)
    requires |ip| == |addr| == prefix + host && prefix == 6 && host == 10 && !IsV4(ip)
    ensures Selects(Range(ip), addr) <==> Net(addr) == Net(ip) && Value(addr) != Pow256(prefix + host) - 1
  {
    var n, p := Value(ip[..prefix]), Pow256(host);
    var begin, end := V6Range(ip, prefix, host);
    SelectsBetween(Range(ip), addr);
    NetIsPrefix(ip);
    ValueBound(addr);
    ValueBound(ip[..prefix]);
    Pow256Add(prefix, host);
    BetweenIsNet(Value(addr), n, p, Pow256(prefix), Pow256(prefix + host));
  }

  lemma V6Begin(ip: Bytes, prefix: nat, host: nat)
    requires |ip| == prefix + host
    ensures Value(ip[..prefix] + Zeros(host)) == Value(ip[..prefix]) * Pow256(host)
  {
    ValueAppend(ip[..prefix], Zeros(host));
    ValueZeros(host);
  }

  lemma V6Range(ip: Bytes, prefix: nat, host: nat) returns (begin: Bytes, end: Bytes)
    requires |ip| == prefix + host && prefix == 6 && host == 10 && !IsV4(ip)
    ensures Range(ip) == (begin, end) && |begin| == |end| == prefix + host
    ensures Value(begin) == Value(ip[..prefix]) * Pow256(host)
    ensures Value(end) == if Value(begin) + Pow256(host) < Pow256(prefix + host) then Value(begin) + Pow256(host)
                          else Pow256(prefix + host) - 1
  {
    begin := ip[..prefix] + Zeros(host);
    V6Begin(ip, prefix, host);
    Pow2IsPow256(host);
    end := Saturated(Value(begin) + Pow256(host));
    SaturatedValue(Value(begin) + Pow256(host), prefix + host);
  }

  /** Numbers from n·p up to the next multiple of p, or short of the last number, have quotient n. */
  lemma BetweenIsNet(v: nat, n: nat, p: nat, q: nat, all: nat)
    requires p > 0 && all == q * p && n < q && v < all
    ensures n * p <= v < (if n * p + p < all then n * p + p else all - 1) <==> v / p == n && v != all - 1
  {
    assert (n + 1) * p <= q * p;
    assert v == (v / p) * p + v % p;
    if n * p <= v < n * p + p {
      QuotientIs(v, n, v - n * p, p);
    }
  }
}
