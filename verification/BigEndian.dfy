/** Big-endian byte strings: the value of `big.Int.SetBytes`, the minimal form of
    `big.Int.Bytes`, and the agreement of byte order with numeric order. */
module BigEndian {
  import opened Prelude

  function Pow256(n: nat): (p: nat)
    ensures p > 0
  {
    if n == 0 then 1 else 256 * Pow256(n - 1)
  }

  function Value(b: Bytes): nat {
    if |b| == 0 then 0 else 256 * Value(b[..|b| - 1]) + b[|b| - 1]
  }

  /** The shortest byte string with the given value. */
  function Minimal(v: nat): (b: Bytes)
    ensures v > 0 ==> |b| > 0 && b[0] > 0
  {
    if v == 0 then [] else Minimal(v / 256) + [v % 256]
  }

  function Zeros(n: nat): (b: Bytes)
    ensures |b| == n && forall i | 0 <= i < n :: b[i] == 0
  {
    seq(n, i => 0)
  }

  lemma {:induction false} ValueBound(b: Bytes)
    ensures Value(b) < Pow256(|b|)
  {
    if |b| > 0 {
      ValueBound(b[..|b| - 1]);
    }
  }

  lemma {:induction false} ValueAppend(a: Bytes, b: Bytes)
    ensures Value(a + b) == Value(a) * Pow256(|b|) + Value(b)
  {
    if |b| == 0 {
      assert a + b == a;
    } else {
      var n := |b| - 1;
      ValueAppend(a, b[..n]);
      assert (a + b)[..|a + b| - 1] == a + b[..n];
      assert Value(a) * Pow256(|b|) == 256 * (Value(a) * Pow256(n));
    }
  }

  lemma {:induction false} ValueZeros(n: nat)
    ensures Value(Zeros(n)) == 0
  {
    if n > 0 {
      ValueZeros(n - 1);
      assert Zeros(n)[..n - 1] == Zeros(n - 1);
    }
  }

  lemma {:induction false} ValueMinimal(v: nat)
    ensures Value(Minimal(v)) == v
  {
    if v > 0 {
      ValueMinimal(v / 256);
    }
  }

  lemma {:induction false} Pow256Add(m: nat, n: nat)
    ensures Pow256(m + n) == Pow256(m) * Pow256(n)
  {
    if m > 0 {
      Pow256Add(m - 1, n);
      assert 256 * (Pow256(m - 1) * Pow256(n)) == (256 * Pow256(m - 1)) * Pow256(n);
    }
  }

  /** A value fits in n bytes exactly when it is below 256^n. */
  lemma {:induction false} MinimalLength(v: nat, n: nat)
    ensures |Minimal(v)| <= n <==> v < Pow256(n)
    decreases n
  {
    if v > 0 && n > 0 {
      MinimalLength(v / 256, n - 1);
    }
  }

  /** The value written right-aligned into n zero bytes. */
  function Padded(v: nat, n: nat): (b: Bytes)
    requires |Minimal(v)| <= n
    ensures |b| == n
  {
    Zeros(n - |Minimal(v)|) + Minimal(v)
  }

  lemma ValuePadded(v: nat, n: nat)
    requires |Minimal(v)| <= n
    ensures Value(Padded(v, n)) == v
  {
    var z := Zeros(n - |Minimal(v)|);
    ValueAppend(z, Minimal(v));
    ValueZeros(|z|);
    ValueMinimal(v);
  }

  /** Byte-wise order, as the database compares binary columns. */
  predicate Less(a: Bytes, b: Bytes) {
    |b| > 0 && (|a| == 0 || a[0] < b[0] || (a[0] == b[0] && Less(a[1..], b[1..])))
  }

  lemma ValueHead(a: Bytes)
    requires |a| > 0
    ensures Value(a) == a[0] * Pow256(|a| - 1) + Value(a[1..])
  {
    ValueAppend([a[0]], a[1..]);
    assert a == [a[0]] + a[1..];
    assert [a[0]][..0] == [];
    assert Value([a[0]]) == a[0];
  }

  lemma ScaledLess(x: nat, y: nat, r: nat, s: nat, p: nat)
    requires x < y && r < p
    ensures x * p + r < y * p + s
  {
    assert (x + 1) * p <= y * p;
  }

  /** On strings of one length the byte order is the order of the values. */
  lemma {:induction false} LessIsNumeric(a: Bytes, b: Bytes)
    requires |a| == |b|
    ensures Less(a, b) <==> Value(a) < Value(b)
  {
    if |a| > 0 {
      var p := Pow256(|a| - 1);
      ValueHead(a);
      ValueHead(b);
      ValueBound(a[1..]);
      ValueBound(b[1..]);
      LessIsNumeric(a[1..], b[1..]);
      if a[0] < b[0] {
        ScaledLess(a[0], b[0], Value(a[1..]), Value(b[1..]), p);
      } else if b[0] < a[0] {
        ScaledLess(b[0], a[0], Value(b[1..]), Value(a[1..]), p);
      }
    }
  }

  /** Strings of one length are determined by their value. */
  lemma {:induction false} ValueInjective(a: Bytes, b: Bytes)
    requires |a| == |b| && Value(a) == Value(b)
    ensures a == b
  {
    if |a| > 0 {
      var n := |a| - 1;
      assert Value(a[..n]) == Value(b[..n]) && a[n] == b[n];
      ValueInjective(a[..n], b[..n]);
      assert a == a[..n] + [a[n]] && b == b[..n] + [b[n]];
    }
  }
}
