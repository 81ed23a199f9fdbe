/**
  Python's ordering of `str` values (code point by code point, a proper prefix
  first) and the duplicate-free sorted list that `sorted(set(xs))` produces.
 */
module Order {
  import opened Seqs

  /** `a < b` on Python strings. */
  predicate Below(a: string, b: string)
    decreases |a|
  {
    if |a| == 0 then |b| > 0
    else if |b| == 0 then false
    else if a[0] < b[0] then true
    else if a[0] == b[0] then Below(a[1..], b[1..])
    else false
  }

  lemma {:induction false} BelowIrreflexive(a: string)
    ensures !Below(a, a)
    decreases |a|
  {
    if |a| > 0 {
      BelowIrreflexive(a[1..]);
    }
  }

  lemma {:induction false} BelowTransitive(a: string, b: string, c: string)
    requires Below(a, b) && Below(b, c)
    ensures Below(a, c)
    decreases |a|
  {
    if |a| > 0 && a[0] == b[0] && b[0] == c[0] {
      BelowTransitive(a[1..], b[1..], c[1..]);
    }
  }

  /** Any two different strings are ordered one way or the other. */
  lemma {:induction false} BelowTotal(a: string, b: string)
    requires a != b
    ensures Below(a, b) || Below(b, a)
    decreases |a|
  {
    if |a| > 0 && |b| > 0 && a[0] == b[0] {
      assert a == [a[0]] + a[1..] && b == [b[0]] + b[1..];
      BelowTotal(a[1..], b[1..]);
    }
  }

  lemma {:induction false} BelowAsymmetric(a: string, b: string)
    requires Below(a, b)
    ensures !Below(b, a)
  {
    if Below(b, a) {
      BelowTransitive(a, b, a);
      BelowIrreflexive(a);
    }
  }

  /** `a` is a proper prefix of `b`. */
  predicate ProperPrefix(a: string, b: string)
  {
    |a| < |b| && b[..|a|] == a
  }

  /** `a` and `b` agree before index `i` and differ there, `a` having the
      smaller code point. */
  predicate FirstDifference(a: string, b: string, i: nat)
  {
    i < |a| && i < |b| && a[..i] == b[..i] && a[i] < b[i]
  }

  /** Python's string order, stated without recursion: `a < b` exactly when `a`
      is a proper prefix of `b`, or at the first position where they differ
      `a` has the smaller code point. */
  lemma {:induction false} BelowIff(a: string, b: string)
    ensures Below(a, b) <==> ProperPrefix(a, b) || exists i: nat :: FirstDifference(a, b, i)
    decreases |a|
  {
    if |a| == 0 || |b| == 0 {
      assert forall i: nat :: !FirstDifference(a, b, i);
    } else if a[0] < b[0] {
      assert FirstDifference(a, b, 0);
    } else if a[0] > b[0] {
      assert forall i: nat :: !FirstDifference(a, b, i);
    } else {
      var a', b' := a[1..], b[1..];
      BelowIff(a', b');
      assert ProperPrefix(a, b) <==> ProperPrefix(a', b') by {
        assert a == [a[0]] + a' && b == [b[0]] + b';
        if |a| < |b| {
          assert b[..|a|] == [b[0]] + b'[..|a'|];
        }
      }
      assert !FirstDifference(a, b, 0);
      forall i: nat ensures FirstDifference(a, b, i + 1) <==> FirstDifference(a', b', i) {
        if i + 1 < |a| && i + 1 < |b| {
          assert a[..i + 1] == [a[0]] + a'[..i];
          assert b[..i + 1] == [b[0]] + b'[..i];
          assert a[i + 1] == a'[i] && b[i + 1] == b'[i];
          if a[..i + 1] == b[..i + 1] {
            assert a'[..i] == a[..i + 1][1..] == b[..i + 1][1..] == b'[..i];
          }
        }
      }
      if exists i: nat :: FirstDifference(a, b, i) {
        var i: nat :| FirstDifference(a, b, i);
        assert FirstDifference(a', b', i - 1);
      }
      if exists i: nat :: FirstDifference(a', b', i) {
        var i: nat :| FirstDifference(a', b', i);
        assert FirstDifference(a, b, i + 1);
      }
    }
  }

  /** Strictly increasing, hence also free of duplicates. */
  predicate StrictlySorted(s: seq<string>)
  {
    forall i, j :: 0 <= i < j < |s| ==> Below(s[i], s[j])
  }

  lemma SortedDistinct(s: seq<string>)
    requires StrictlySorted(s)
    ensures Distinct(s)
  {
    forall i, j | 0 <= i < j < |s| ensures s[i] != s[j] {
      if s[i] == s[j] { BelowIrreflexive(s[i]); }
    }
  }

  /** Inserts `x` into a strictly sorted list unless it is already there. */
  function InsertSorted(x: string, s: seq<string>): (r: seq<string>)
    requires StrictlySorted(s)
    ensures StrictlySorted(r)
    ensures forall y :: y in r <==> y == x || y in s
  {
    if |s| == 0 then [x]
    else if x == s[0] then s
    else if Below(x, s[0]) then
      assert forall j :: 0 <= j < |s| ==> Below(x, s[j]) by {
        forall j | 0 < j < |s| ensures Below(x, s[j]) {
          BelowTransitive(x, s[0], s[j]);
        }
      }
      [x] + s
    else
      BelowTotal(x, s[0]);
      var t := InsertSorted(x, s[1..]);
      assert forall y :: y in t ==> Below(s[0], y);
      [s[0]] + t
  }

  /** Python `sorted(set(xs))`: the elements of `xs`, ascending, each once. */
  function SortedSet(xs: seq<string>): (r: seq<string>)
    ensures StrictlySorted(r)
    ensures forall y :: y in r <==> y in xs
    decreases |xs|
  {
    if |xs| == 0 then []
    else InsertSorted(xs[|xs| - 1], SortedSet(xs[..|xs| - 1]))
  }

  /** A strictly sorted list is determined by its elements, so `SortedSet`
      is the only possible result of sorting the distinct values. */
  lemma {:induction false} SortedUnique(a: seq<string>, b: seq<string>)
    requires StrictlySorted(a) && StrictlySorted(b)
    requires forall y :: y in a <==> y in b
    ensures a == b
    decreases |a|
  {
    assert |a| > 0 ==> a[0] in b;
    assert |b| > 0 ==> b[0] in a;
    if |a| > 0 && |b| > 0 {
      SortedHeadLeast(a);
      SortedHeadLeast(b);
      assert a[0] == b[0] by {
        if a[0] != b[0] {
          BelowAsymmetric(a[0], b[0]);
        }
      }
      forall y ensures y in a[1..] <==> y in b[1..] {
        if y in a[1..] {
          BelowIrreflexive(y);
          assert y in b && y != b[0];
          var m :| 0 <= m < |b| && b[m] == y;
          assert b[1..][m - 1] == y;
        }
        if y in b[1..] {
          BelowIrreflexive(y);
          assert y in a && y != a[0];
          var m :| 0 <= m < |a| && a[m] == y;
          assert a[1..][m - 1] == y;
        }
      }
      SortedUnique(a[1..], b[1..]);
    }
  }

  /** The head of a strictly sorted list is below every later element. */
  lemma SortedHeadLeast(a: seq<string>)
    requires StrictlySorted(a) && |a| > 0
    ensures forall y :: y in a[1..] ==> Below(a[0], y)
    ensures forall y :: y in a ==> y == a[0] || Below(a[0], y)
  {
  }

  /** Keeping some elements of a strictly sorted list leaves it strictly sorted. */
  lemma {:induction false} FilterSorted(p: string -> bool, s: seq<string>)
    requires StrictlySorted(s)
    ensures StrictlySorted(Filter(p, s))
    decreases |s|
  {
    if |s| > 0 {
      FilterSorted(p, s[1..]);
    }
  }
}
