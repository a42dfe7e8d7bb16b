/** Sequence helpers shared by the reducer, the recommendation engine and the
    product grid: the `filter` of JavaScript arrays, subsequences and the
    absence of duplicates. */
module Collections {

  /** A value that may be missing (`undefined` / `null` in the source). */
  datatype Option<+T> = None | Some(value: T)

  function Min(a: int, b: int): int {
    if a <= b then a else b
  }

  /** `a` can be obtained from `b` by deleting elements: same elements, same order. */
  ghost predicate IsSubseq<T>(a: seq<T>, b: seq<T>) {
    if |a| == 0 then true
    else if |b| == 0 then false
    else (a[0] == b[0] && IsSubseq(a[1..], b[1..])) || IsSubseq(a, b[1..])
  }

  /** No element occurs twice. */
  predicate NoDups<T(==)>(s: seq<T>) {
    forall i, j :: 0 <= i < j < |s| ==> s[i] != s[j]
  }

  /** The elements of `s` that satisfy `keep`, in their original order
      (JavaScript's `Array.prototype.filter`). */
  function Filter<T(!new)>(s: seq<T>, keep: T -> bool): (r: seq<T>)
    ensures |r| <= |s|
    ensures forall x :: x in r <==> x in s && keep(x)
    ensures IsSubseq(r, s)
  {
    if |s| == 0 then []
    else
      assert s == [s[0]] + s[1..];
      var rest := Filter(s[1..], keep);
      if keep(s[0]) then
        assert ([s[0]] + rest)[1..] == rest;
        [s[0]] + rest
      else rest
  }

  /** Every occurrence of a kept value survives; no other value does. Together
      with `IsSubseq` this determines the result. */
  lemma {:induction false} FilterCount<T(!new)>(s: seq<T>, keep: T -> bool)
    ensures forall x :: multiset(Filter(s, keep))[x] == if keep(x) then multiset(s)[x] else 0
  {
    if |s| > 0 {
      assert s == [s[0]] + s[1..];
      FilterCount(s[1..], keep);
    }
  }

  lemma {:induction false} FilterAll<T(!new)>(s: seq<T>, keep: T -> bool)
    requires forall x :: x in s ==> keep(x)
    ensures Filter(s, keep) == s
  {
    if |s| > 0 {
      FilterAll(s[1..], keep);
      assert s == [s[0]] + s[1..];
    }
  }

  /** Two tests that agree on every element select the same elements. */
  lemma {:induction false} FilterCongruent<T(!new)>(s: seq<T>, f: T -> bool, g: T -> bool)
    requires forall x :: x in s ==> f(x) == g(x)
    ensures Filter(s, f) == Filter(s, g)
  {
    if |s| > 0 {
      FilterCongruent(s[1..], f, g);
    }
  }

  lemma ConsPrefix<T>(x: T, a: seq<T>, b: seq<T>)
    requires a <= b
    ensures [x] + a <= [x] + b
  {
    assert [x] + a == ([x] + b)[..|a| + 1];
  }

  /** Filtering a prefix gives a prefix of the filtered whole. */
  lemma {:induction false} FilterPrefix<T(!new)>(s: seq<T>, keep: T -> bool, n: nat)
    requires n <= |s|
    ensures Filter(s[..n], keep) <= Filter(s, keep)
  {
    if n > 0 {
      var p := s[..n];
      assert p[0] == s[0] && p[1..] == s[1..][..n - 1];
      FilterStep(p, keep);
      FilterStep(s, keep);
      FilterPrefix(s[1..], keep, n - 1);
      if keep(s[0]) {
        ConsPrefix(s[0], Filter(p[1..], keep), Filter(s[1..], keep));
      }
    }
  }

  lemma {:induction false} FilterNoDups<T(!new)>(s: seq<T>, keep: T -> bool)
    requires NoDups(s)
    ensures NoDups(Filter(s, keep))
  {
    if |s| > 0 {
      assert NoDups(s[1..]) by {
        forall i, j | 0 <= i < j < |s[1..]| ensures s[1..][i] != s[1..][j] {
          assert s[1..][i] == s[i + 1] && s[1..][j] == s[j + 1];
        }
      }
      FilterNoDups(s[1..], keep);
      var rest := Filter(s[1..], keep);
      if keep(s[0]) {
        assert s[0] !in s[1..] by {
          forall k | 0 <= k < |s[1..]| ensures s[1..][k] != s[0] {
            assert s[1..][k] == s[k + 1];
          }
        }
        assert s[0] !in rest;
        var r := [s[0]] + rest;
        forall i, j | 0 <= i < j < |r| ensures r[i] != r[j] {
          if i == 0 {
            assert r[j] == rest[j - 1];
          } else {
            assert r[i] == rest[i - 1] && r[j] == rest[j - 1];
          }
        }
      }
    }
  }

  lemma NoDupsTail<T>(s: seq<T>)
    requires NoDups(s) && |s| > 0
    ensures NoDups(s[1..]) && s[0] !in s[1..]
  {
    forall i, j | 0 <= i < j < |s[1..]| ensures s[1..][i] != s[1..][j] {
      assert s[1..][i] == s[i + 1] && s[1..][j] == s[j + 1];
    }
    forall k | 0 <= k < |s[1..]| ensures s[1..][k] != s[0] {
      assert s[1..][k] == s[k + 1];
    }
  }

  /** One step of `Filter`. */
  lemma FilterStep<T(!new)>(s: seq<T>, keep: T -> bool)
    requires |s| > 0
    ensures Filter(s, keep) == if keep(s[0]) then [s[0]] + Filter(s[1..], keep) else Filter(s[1..], keep)
  {
  }

  /** Membership in a prefix of `[x] + a`, away from `x`. */
  lemma ConsPrefixMembers<T>(x: T, a: seq<T>, m: nat)
    requires 1 <= m <= |a| + 1
    ensures forall y :: y in ([x] + a)[..m] <==> y == x || y in a[..m - 1]
  {
    assert ([x] + a)[..m] == [x] + a[..m - 1];
  }

  /** In a duplicate-free sequence, a prefix of the filtered elements that
      reaches a kept element also holds every kept element before it. */
  lemma {:induction false} FilterPrefixKeepsEarlier<T(!new)>(s: seq<T>, keep: T -> bool, m: nat, i: nat, j: nat)
    requires NoDups(s) && i < j < |s| && keep(s[i])
    requires m <= |Filter(s, keep)| && s[j] in Filter(s, keep)[..m]
    ensures s[i] in Filter(s, keep)[..m]
  {
    var t := s[1..];
    FilterStep(s, keep);
    var f' := Filter(t, keep);
    assert s[j] == t[j - 1] && s[j] != s[0];
    if keep(s[0]) {
      ConsPrefixMembers(s[0], f', m);
      if i > 0 {
        NoDupsTail(s);
        FilterPrefixKeepsEarlier(t, keep, m - 1, i - 1, j - 1);
        assert s[i] == t[i - 1];
      }
    } else {
      NoDupsTail(s);
      FilterPrefixKeepsEarlier(t, keep, m, i - 1, j - 1);
      assert s[i] == t[i - 1];
    }
  }

  lemma {:induction false} SubseqReflexive<T>(s: seq<T>)
    ensures IsSubseq(s, s)
  {
    if |s| > 0 {
      SubseqReflexive(s[1..]);
    }
  }

  /** A prefix of a subsequence is a subsequence. */
  lemma {:induction false} SubseqPrefix<T>(a: seq<T>, b: seq<T>, k: nat)
    requires IsSubseq(a, b) && k <= |a|
    ensures IsSubseq(a[..k], b)
    decreases |b|
  {
    if k > 0 {
      assert |b| > 0;
      if a[0] == b[0] && IsSubseq(a[1..], b[1..]) {
        SubseqPrefix(a[1..], b[1..], k - 1);
        assert a[..k][1..] == a[1..][..k - 1];
      } else {
        SubseqPrefix(a, b[1..], k);
      }
    }
  }

  lemma {:induction false} SubseqTransitive<T>(a: seq<T>, b: seq<T>, c: seq<T>)
    requires IsSubseq(a, b) && IsSubseq(b, c)
    ensures IsSubseq(a, c)
    decreases |c|
  {
    if |a| > 0 {
      assert |b| > 0 && |c| > 0;
      if b[0] == c[0] && IsSubseq(b[1..], c[1..]) {
        if a[0] == b[0] && IsSubseq(a[1..], b[1..]) {
          SubseqTransitive(a[1..], b[1..], c[1..]);
        } else {
          SubseqTransitive(a, b[1..], c[1..]);
        }
      } else {
        SubseqTransitive(a, b, c[1..]);
      }
    }
  }

  /** Every element of a subsequence is an element of the whole. */
  lemma {:induction false} SubseqMembers<T(!new)>(a: seq<T>, b: seq<T>)
    requires IsSubseq(a, b)
    ensures forall x :: x in a ==> x in b
    decreases |b|
  {
    if |a| > 0 {
      if a[0] == b[0] && IsSubseq(a[1..], b[1..]) {
        SubseqMembers(a[1..], b[1..]);
        assert a == [a[0]] + a[1..];
      } else {
        SubseqMembers(a, b[1..]);
      }
    }
  }
}
