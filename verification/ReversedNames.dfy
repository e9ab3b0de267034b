/** Names with their labels in reverse order (sa/sa.go, reverseName), and what the LIKE query on
    them selects: exactly the names under a domain, if and only if the domain has no wildcard. */
module ReversedNames {
  import opened Names

  // ---------------------------------------------------------------- reverseName

  function Reverse<T>(s: seq<T>): (r: seq<T>)
    ensures |r| == |s|
    ensures forall i | 0 <= i < |s| :: r[i] == s[|s| - 1 - i]
  {
    if |s| == 0 then [] else Reverse(s[1..]) + [s[0]]
  }

  function ReverseName(domain: string): string {
    Join(Reverse(Split(domain, '.')), '.')
  }

  method ReverseInPlace(labels: array<string>)
    modifies labels
    ensures labels[..] == Reverse(old(labels[..]))
  {
    var i, j := 0, labels.Length - 1;
    while i < j
      invariant 0 <= i && j == labels.Length - 1 - i && i <= j + 1
      invariant forall k | 0 <= k < i || j < k < labels.Length :: labels[k] == old(labels[labels.Length - 1 - k])
      invariant forall k | i <= k <= j :: labels[k] == old(labels[k])
    {
      labels[i], labels[j] := labels[j], labels[i];
      i, j := i + 1, j - 1;
    }
  }

  method ReversedName(domain: string) returns (r: string)
    ensures r == ReverseName(domain)
  {
    var parts := Split(domain, '.');
    var labels := new string[|parts|](i requires 0 <= i < |parts| => parts[i]);
    assert labels[..] == parts;
    ReverseInPlace(labels);
    r := Join(labels[..], '.');
  }

  lemma ReverseReverse<T>(s: seq<T>)
    ensures Reverse(Reverse(s)) == s
  {
  }

  lemma ReverseAppend<T>(a: seq<T>, b: seq<T>)
    ensures Reverse(a + b) == Reverse(b) + Reverse(a)
  {
  }

  lemma ReverseNameSplit(domain: string)
    ensures Split(ReverseName(domain), '.') == Reverse(Split(domain, '.'))
  {
    SplitJoin(Reverse(Split(domain, '.')), '.');
  }

  lemma ReverseNameInvolutive(domain: string)
    ensures ReverseName(ReverseName(domain)) == domain
  {
    ReverseNameSplit(domain);
    ReverseReverse(Split(domain, '.'));
    JoinSplit(domain, '.');
  }

  // ---------------------------------------------------------------- names under a domain

  /** The domain itself, or a name that ends in a dot and the domain. */
  predicate Under(name: string, domain: string) {
    name == domain || (|name| > |domain| && name[|name| - |domain| - 1..] == "." + domain)
  }

  /** A list of labels followed by more labels, joined. */
  lemma JoinedLabels(s: string, front: seq<string>, back: seq<string>)
    requires Split(s, '.') == front + back && |front| > 0 && |back| > 0
    ensures s == Join(front, '.') + "." + Join(back, '.')
  {
    JoinSplit(s, '.');
    JoinAppend(front, back, '.');
  }

  lemma SuffixIsLabelwise(name: string, domain: string)
    requires Under(name, domain)
    ensures exists front :: Split(name, '.') == front + Split(domain, '.')
  {
    if name == domain {
      assert Split(name, '.') == [] + Split(domain, '.');
    } else {
      var front := name[..|name| - |domain| - 1];
      assert name == front + ['.'] + domain;
      SplitAppend(front, domain, '.');
    }
  }

  lemma LabelwiseIsSuffix(name: string, domain: string, front: seq<string>)
    requires Split(name, '.') == front + Split(domain, '.')
    ensures Under(name, domain)
  {
    JoinSplit(name, '.');
    JoinSplit(domain, '.');
    if |front| > 0 {
      JoinedLabels(name, front, Split(domain, '.'));
      assert name[|name| - |domain| - 1..] == "." + domain;
    } else {
      assert front + Split(domain, '.') == Split(domain, '.');
    }
  }

  lemma {:induction false} ReversedPrefix<T>(d: seq<T>, l: seq<T>)
    requires Reverse(d) <= Reverse(l)
    ensures l == l[..|l| - |d|] + d
  {
    var n, rd, rl := |l| - |d|, Reverse(d), Reverse(l);
    forall k | 0 <= k < |d| ensures l[n..][k] == d[k] {
      var j := |d| - 1 - k;
      assert rd[j] == rl[j];
    }
    assert l[n..] == d;
  }

  /** Under a domain: the labels end in the labels of the domain. */
  lemma UnderIsLabelwise(name: string, domain: string)
    ensures Under(name, domain) <==> Reverse(Split(domain, '.')) <= Reverse(Split(name, '.'))
  {
    var l, d := Split(name, '.'), Split(domain, '.');
    if Under(name, domain) {
      SuffixIsLabelwise(name, domain);
      var front :| l == front + d;
      ReverseAppend(front, d);
    }
    if Reverse(d) <= Reverse(l) {
      ReversedPrefix(d, l);
      LabelwiseIsSuffix(name, domain, l[..|l| - |d|]);
    }
  }

  lemma LabelwiseIsPrefix(s: string, t: string)
    requires Split(s, '.') <= Split(t, '.')
    ensures s == t || s + "." <= t
  {
    var a, b := Split(s, '.'), Split(t, '.');
    var back := b[|a|..];
    assert b == a + back;
    JoinSplit(s, '.');
    if |back| > 0 {
      JoinedLabels(t, a, back);
    } else {
      assert a == b;
      JoinSplit(t, '.');
    }
  }

  /** On joined labels, a prefix that ends at a dot is a prefix of the labels. */
  lemma PrefixIsLabelwise(s: string, t: string)
    ensures s == t || s + "." <= t <==> Split(s, '.') <= Split(t, '.')
  {
    if s + "." <= t {
      var rest := t[|s| + 1..];
      assert t == s + ['.'] + rest;
      SplitAppend(s, rest, '.');
    } else if Split(s, '.') <= Split(t, '.') {
      LabelwiseIsPrefix(s, t);
    }
  }

  /** The reversed names under a domain are those that begin with it. */
  lemma UnderIsReversedPrefix(name: string, domain: string)
    ensures Under(name, domain) <==>
            ReverseName(name) == ReverseName(domain) || ReverseName(domain) + "." <= ReverseName(name)
  {
    UnderIsLabelwise(name, domain);
    ReverseNameSplit(name);
    ReverseNameSplit(domain);
    PrefixIsLabelwise(ReverseName(domain), ReverseName(name));
  }

  // ---------------------------------------------------------------- LIKE

  /** SQL pattern matching: `%` any characters, `_` any one character, `\` quotes the next. */
  predicate Like(s: string, pattern: string)
    decreases |pattern|, |s|
  {
    if |pattern| == 0 then |s| == 0
    else if pattern[0] == '%' then Like(s, pattern[1..]) || (|s| > 0 && Like(s[1..], pattern))
    else if pattern[0] == '_' then |s| > 0 && Like(s[1..], pattern[1..])
    else if pattern[0] == '\\' && |pattern| > 1 then |s| > 0 && s[0] == pattern[1] && Like(s[1..], pattern[2..])
    else |s| > 0 && s[0] == pattern[0] && Like(s[1..], pattern[1..])
  }

  predicate WildcardFree(s: string) {
    '%' !in s && '_' !in s && '\\' !in s
  }

  /** The WHERE clause of countCertificatesByName on a reversed name. */
  predicate Matches(reversedName: string, reversedDomain: string) {
    reversedName == reversedDomain || Like(reversedName, reversedDomain + ".%")
  }

  lemma {:induction false} PercentMatchesAll(s: string)
    ensures Like(s, "%")
  {
    if |s| > 0 {
      PercentMatchesAll(s[1..]);
    }
  }

  lemma {:induction false} LikePrefix(s: string, prefix: string)
    requires WildcardFree(prefix)
    ensures Like(s, prefix + "%") <==> prefix <= s
  {
    var pattern := prefix + "%";
    if |prefix| == 0 {
      assert pattern == "%";
      PercentMatchesAll(s);
    } else {
      assert pattern[0] == prefix[0] && pattern[1..] == prefix[1..] + "%";
      assert prefix[0] != '%' && prefix[0] != '_' && prefix[0] != '\\';
      if |s| > 0 {
        LikePrefix(s[1..], prefix[1..]);
        assert prefix == [prefix[0]] + prefix[1..] && s == [s[0]] + s[1..];
      }
    }
  }

  // ---------------------------------------------------------------- wildcards

  /** A string that matches the pattern, with `z` for every wildcard. */
  function Sample(pattern: string, z: char): string {
    if |pattern| == 0 then ""
    else if pattern[0] == '%' || pattern[0] == '_' then [z] + Sample(pattern[1..], z)
    else if pattern[0] == '\\' && |pattern| > 1 then [pattern[1]] + Sample(pattern[2..], z)
    else [pattern[0]] + Sample(pattern[1..], z)
  }

  lemma {:induction false} SampleMatches(pattern: string, z: char)
    ensures Like(Sample(pattern, z), pattern)
  {
    if |pattern| > 0 {
      var s := Sample(pattern, z);
      if pattern[0] == '\\' && |pattern| > 1 {
        SampleMatches(pattern[2..], z);
        assert s[1..] == Sample(pattern[2..], z);
      } else {
        SampleMatches(pattern[1..], z);
        assert s[1..] == Sample(pattern[1..], z);
      }
    }
  }

  /** Without quoting, the sample differs from the pattern exactly at the wildcards. */
  lemma {:induction false} SampleAt(pattern: string, z: char, i: nat)
    requires '\\' !in pattern && i < |pattern|
    ensures |Sample(pattern, z)| == |pattern|
    ensures pattern[i] == '%' || pattern[i] == '_' ==> Sample(pattern, z)[i] == z
  {
    var rest := pattern[1..];
    if |rest| > 0 {
      SampleAt(rest, z, if i > 0 then i - 1 else 0);
    }
    if i > 0 {
      assert rest[i - 1] == pattern[i];
    }
  }

  /** With quoting it is shorter. */
  lemma {:induction false} SampleShrinks(pattern: string, z: char)
    ensures |Sample(pattern, z)| <= |pattern|
    ensures '\\' in pattern && pattern[|pattern| - 1] != '\\' ==> |Sample(pattern, z)| < |pattern|
  {
    if |pattern| > 0 {
      if pattern[0] == '\\' && |pattern| > 1 {
        SampleShrinks(pattern[2..], z);
      } else {
        SampleShrinks(pattern[1..], z);
      }
    }
  }

  /** An unquoted final `%` gives a final `z`. */
  lemma {:induction false} SampleLast(front: string, z: char)
    requires |front| > 0 ==> front[|front| - 1] != '\\'
    ensures |Sample(front + "%", z)| > 0 && Sample(front + "%", z)[|Sample(front + "%", z)| - 1] == z
  {
    var pattern := front + "%";
    if |front| > 0 {
      if front[0] == '\\' {
        assert pattern[2..] == front[2..] + "%";
        SampleLast(front[2..], z);
      } else {
        assert pattern[1..] == front[1..] + "%";
        SampleLast(front[1..], z);
      }
    }
  }

  /** A reversed name that a domain with a wildcard selects although it is not under the domain. */
  lemma WildcardSelectsMore(p: string) returns (s: string)
    requires !WildcardFree(p)
    ensures Matches(s, p) && s != p && !(p + "." <= s)
  {
    var z := if p[|p| - 1] == 'x' then 'y' else 'x';
    var pattern := p + ".%";
    s := Sample(pattern, z);
    SampleMatches(pattern, z);
    SampleLast(p + ".", z);
    assert p + "." + "%" == pattern;
    if '\\' in p {
      var i :| 0 <= i < |p| && p[i] == '\\';
      assert pattern[i] == '\\';
      SampleShrinks(pattern, z);
    } else {
      var i :| 0 <= i < |p| && (p[i] == '%' || p[i] == '_');
      assert pattern[i] == p[i];
      SampleAt(pattern, z, i);
    }
  }

  lemma {:induction false} JoinHas(parts: seq<string>, c: char, x: char)
    requires x != c
    ensures x in Join(parts, c) <==> exists p | p in parts :: x in p
  {
    if |parts| > 1 {
      JoinHas(parts[1..], c, x);
      assert parts == [parts[0]] + parts[1..];
    }
  }

  lemma ReverseNameHas(domain: string, x: char)
    requires x != '.'
    ensures x in ReverseName(domain) <==> x in domain
  {
    var l := Split(domain, '.');
    JoinSplit(domain, '.');
    JoinHas(l, '.', x);
    JoinHas(Reverse(l), '.', x);
    forall p ensures p in l <==> p in Reverse(l) {
      if p in l {
        var i :| 0 <= i < |l| && l[i] == p;
        assert Reverse(l)[|l| - 1 - i] == p;
      }
    }
  }

  ghost predicate SelectsExactly(domain: string) {
    forall name :: Matches(ReverseName(name), ReverseName(domain)) <==> Under(name, domain)
  }

  /** The query selects exactly the names under the domain if and only if the domain is free of
      the characters that mean something to LIKE. */
  lemma SelectsExactlyIffWildcardFree(domain: string)
    ensures SelectsExactly(domain) <==> WildcardFree(domain)
  {
    var p := ReverseName(domain);
    ReverseNameHas(domain, '%');
    ReverseNameHas(domain, '_');
    ReverseNameHas(domain, '\\');
    if WildcardFree(domain) {
      forall name ensures Matches(ReverseName(name), p) <==> Under(name, domain) {
        UnderIsReversedPrefix(name, domain);
        assert p + "." + "%" == p + ".%";
        LikePrefix(ReverseName(name), p + ".");
      }
    } else {
      var s := WildcardSelectsMore(p);
      ReverseNameInvolutive(s);
      UnderIsReversedPrefix(ReverseName(s), domain);
    }
  }
}
