/** Strings as Boulder handles them: `strings.Split`, `strings.Join`, `strings.ToLower`
    and the byte order used by `sort.Strings`. */
module Names {

  /** Index of the first occurrence of c, or |s|. */
  function IndexOf(s: string, c: char): (i: nat)
    ensures i <= |s|
    ensures forall k | 0 <= k < i :: s[k] != c
    ensures i < |s| ==> s[i] == c
  {
    if s == [] || s[0] == c then 0 else 1 + IndexOf(s[1..], c)
  }

  function Split(s: string, c: char): (parts: seq<string>)
    ensures |parts| > 0
    ensures forall k | 0 <= k < |parts| :: c !in parts[k]
    decreases |s|
  {
    var i := IndexOf(s, c);
    if i == |s| then [s] else [s[..i]] + Split(s[i + 1..], c)
  }

  function Join(parts: seq<string>, c: char): string {
    if |parts| == 0 then ""
    else if |parts| == 1 then parts[0]
    else parts[0] + [c] + Join(parts[1..], c)
  }

  lemma JoinCons(head: string, rest: seq<string>, c: char)
    requires |rest| > 0
    ensures Join([head] + rest, c) == head + [c] + Join(rest, c)
  {
    assert ([head] + rest)[1..] == rest;
  }

  lemma CutAt(s: string, i: nat, c: char)
    requires i < |s| && s[i] == c
    ensures s == s[..i] + [c] + s[i + 1..]
  {
  }

  lemma {:induction false} JoinSplit(s: string, c: char)
    ensures Join(Split(s, c), c) == s
    decreases |s|
  {
    var i := IndexOf(s, c);
    if i < |s| {
      var head, tail := s[..i], s[i + 1..];
      JoinSplit(tail, c);
      JoinCons(head, Split(tail, c), c);
      CutAt(s, i, c);
    }
  }

  /** A separator-free prefix followed by the separator is cut off first. */
  lemma SplitCut(a: string, b: string, c: char)
    requires c !in a
    ensures Split(a + [c] + b, c) == [a] + Split(b, c)
  {
    var s := a + [c] + b;
    var i := IndexOf(s, c);
    assert s[|a|] == c;
    assert i == |a| by {
      assert forall k | 0 <= k < |a| :: s[k] == a[k];
    }
    assert s[..i] == a && s[i + 1..] == b;
  }

  lemma SplitWhole(a: string, c: char)
    requires c !in a
    ensures Split(a, c) == [a]
  {
  }

  lemma {:induction false} SplitJoin(parts: seq<string>, c: char)
    requires |parts| > 0
    requires forall k | 0 <= k < |parts| :: c !in parts[k]
    ensures Split(Join(parts, c), c) == parts
  {
    if |parts| == 1 {
      SplitWhole(parts[0], c);
      assert parts == [parts[0]];
    } else {
      SplitJoin(parts[1..], c);
      SplitCut(parts[0], Join(parts[1..], c), c);
      assert parts == [parts[0]] + parts[1..];
    }
  }

  /** Joining two non-empty lists of parts joins the joins. */
  lemma {:induction false} JoinAppend(a: seq<string>, b: seq<string>, c: char)
    requires |a| > 0 && |b| > 0
    ensures Join(a + b, c) == Join(a, c) + [c] + Join(b, c)
  {
    if |a| == 1 {
      assert (a + b)[1..] == b;
    } else {
      assert (a + b)[1..] == a[1..] + b;
      JoinAppend(a[1..], b, c);
    }
  }

  lemma SplitAppend(a: string, b: string, c: char)
    ensures Split(a + [c] + b, c) == Split(a, c) + Split(b, c)
  {
    JoinSplit(a, c);
    JoinSplit(b, c);
    JoinAppend(Split(a, c), Split(b, c), c);
    SplitJoin(Split(a, c) + Split(b, c), c);
  }

  /** `strings.TrimRight` with a single character. */
  function TrimRight(s: string, c: char): string {
    if |s| > 0 && s[|s| - 1] == c then TrimRight(s[..|s| - 1], c) else s
  }

  function LowerChar(c: char): char {
    if 'A' <= c <= 'Z' then c - 'A' + 'a' else c
  }

  function ToLower(s: string): (r: string)
    ensures |r| == |s|
    ensures forall i | 0 <= i < |s| :: r[i] == LowerChar(s[i])
  {
    seq(|s|, i requires 0 <= i < |s| => LowerChar(s[i]))
  }

  /** What is trimmed is the last run of the character, whole. */
  lemma {:induction false} TrimmedRight(s: string, c: char) returns (n: nat)
    ensures n <= |s| && TrimRight(s, c) == s[..n]
    ensures forall i | n <= i < |s| :: s[i] == c
    ensures n > 0 ==> s[n - 1] != c
  {
    n := |s|;
    if |s| > 0 && s[|s| - 1] == c {
      n := TrimmedRight(s[..|s| - 1], c);
    }
  }

  /** The codes of the capital letters, 65 to 90, go up by 32, and no other character changes; so no
      capital letter is left. */
  lemma LowerLetters(s: string, i: nat)
    requires i < |s|
    ensures ToLower(s)[i] as int == s[i] as int + if 65 <= s[i] as int <= 90 then 32 else 0
    ensures !('A' <= ToLower(s)[i] <= 'Z')
  {
  }

  lemma LowerIdempotent(s: string)
    ensures ToLower(ToLower(s)) == ToLower(s)
  {
  }

  /** The strict order of `sort.Strings`. */
  predicate Less(a: string, b: string) {
    |b| > 0 && (|a| == 0 || a[0] < b[0] || (a[0] == b[0] && Less(a[1..], b[1..])))
  }

  /** The order is decided where the strings first differ, and a proper prefix comes first. */
  lemma {:induction false} LessIff(a: string, b: string)
    ensures Less(a, b) <==> exists i | 0 <= i <= |a| && i < |b| :: a[..i] == b[..i] && (i == |a| || a[i] < b[i])
  {
    if |b| == 0 {
    } else if |a| == 0 || a[0] != b[0] {
      assert a[..0] == b[..0];
      assert forall i | 0 < i <= |a| && i < |b| :: a[..i][0] == a[0] && b[..i][0] == b[0];
    } else {
      LessIff(a[1..], b[1..]);
      LessShift(a, b);
    }
  }

  lemma LessShift(a: string, b: string)
    requires |a| > 0 && |b| > 0 && a[0] == b[0]
    ensures (exists i | 0 <= i <= |a| && i < |b| :: a[..i] == b[..i] && (i == |a| || a[i] < b[i]))
            <==> var x, y := a[1..], b[1..]; exists i | 0 <= i <= |x| && i < |y| :: x[..i] == y[..i] && (i == |x| || x[i] < y[i])
  {
    var x, y := a[1..], b[1..];
    if i :| 0 <= i <= |a| && i < |b| && a[..i] == b[..i] && (i == |a| || a[i] < b[i]) {
      assert x[..i - 1] == a[..i][1..] && y[..i - 1] == b[..i][1..];
    }
    if i :| 0 <= i <= |x| && i < |y| && x[..i] == y[..i] && (i == |x| || x[i] < y[i]) {
      assert a[..i + 1] == [a[0]] + x[..i] && b[..i + 1] == [b[0]] + y[..i];
    }
  }

  lemma {:induction false} LessTrichotomy(a: string, b: string)
    ensures a == b ==> !Less(a, b)
    ensures a != b ==> (Less(a, b) <==> !Less(b, a))
  {
    if |a| > 0 && |b| > 0 {
      LessTrichotomy(a[1..], b[1..]);
      assert a == [a[0]] + a[1..] && b == [b[0]] + b[1..];
    }
  }

}
