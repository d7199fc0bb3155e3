/** Python's ordering of `str` values and the `sorted(set(xs))` idiom the script
    uses to build its group and user lists. */
module Text {
  import opened Common

  /** Python's `a < b` on strings: lexicographic by code point, a proper prefix
      sorting first. */
  predicate Below(a: string, b: string)
    decreases |a|
  {
    if |a| == 0 then |b| > 0
    else |b| > 0 && (a[0] < b[0] || (a[0] == b[0] && Below(a[1..], b[1..])))
  }

  lemma {:induction false} BelowIrreflexive(a: string)
    ensures !Below(a, a)
    decreases |a|
  {
    if |a| > 0 {
      BelowIrreflexive(a[1..]);
    }
  }

  lemma {:induction false} BelowTransitive(a: string, b: string, c: string)
    requires Below(a, b) && Below(b, c)
    ensures Below(a, c)
    decreases |a|
  {
    if |a| > 0 && a[0] == b[0] && b[0] == c[0] {
      BelowTransitive(a[1..], b[1..], c[1..]);
    }
  }

  lemma {:induction false} BelowTotal(a: string, b: string)
    requires a != b
    ensures Below(a, b) || Below(b, a)
    decreases |a|
  {
    if |a| > 0 && |b| > 0 && a[0] == b[0] {
      assert a == [a[0]] + a[1..];
      assert b == [b[0]] + b[1..];
      BelowTotal(a[1..], b[1..]);
    }
  }

  /** Ascending in Python's order, hence without repetitions. */
  predicate StrictlySorted(s: seq<string>) {
    forall i, j :: 0 <= i < j < |s| ==> Below(s[i], s[j])
  }

  lemma SortedNoDup(s: seq<string>)
    requires StrictlySorted(s)
    ensures NoDup(s)
  {
    forall i, j | 0 <= i < j < |s|
      ensures s[i] != s[j]
    {
      BelowIrreflexive(s[i]);
    }
  }

  /** In a sorted list an element that precedes another in Python's order sits
      at a lower index. */
  lemma SortedIndexBelow(s: seq<string>, i: int, j: int)
    requires StrictlySorted(s)
    requires 0 <= i < |s| && 0 <= j < |s|
    requires Below(s[j], s[i])
    ensures j < i
  {
    BelowIrreflexive(s[i]);
    if i < j {
      BelowTransitive(s[i], s[j], s[i]);
    }
  }

  /** Putting a string in front of a sorted list that it precedes keeps it sorted. */
  lemma ConsSorted(h: string, t: seq<string>)
    requires StrictlySorted(t)
    requires forall y :: y in t ==> Below(h, y)
    ensures StrictlySorted([h] + t)
  {
    var s := [h] + t;
    forall i, j | 0 <= i < j < |s|
      ensures Below(s[i], s[j])
    {
      assert s[j] == t[j - 1];
      if i == 0 {
        assert t[j - 1] in t;
      } else {
        assert s[i] == t[i - 1];
      }
    }
  }

  /** The head of a sorted list precedes every later element. */
  lemma HeadBelowTail(s: seq<string>)
    requires StrictlySorted(s) && |s| > 0
    ensures forall y :: y in s[1..] ==> Below(s[0], y)
  {
    forall y | y in s[1..]
      ensures Below(s[0], y)
    {
      var k :| 0 <= k < |s[1..]| && s[1..][k] == y;
      assert s[k + 1] == y;
    }
  }

  /** Adds `x` to a sorted list at its place, unless it is already there. */
  function Insert(x: string, s: seq<string>): (r: seq<string>)
    requires StrictlySorted(s)
    ensures StrictlySorted(r)
    ensures forall y :: y in r <==> y == x || y in s
    decreases |s|
  {
    if |s| == 0 then [x]
    else if x == s[0] then s
    else if Below(x, s[0]) then
      HeadBelowTail(s);
      assert forall y :: y in s[1..] ==> Below(x, y) by {
        forall y | y in s[1..]
          ensures Below(x, y)
        {
          BelowTransitive(x, s[0], y);
        }
      }
      assert s == [s[0]] + s[1..];
      ConsSorted(x, s);
      [x] + s
    else
      BelowTotal(x, s[0]);
      HeadBelowTail(s);
      var t := Insert(x, s[1..]);
      assert s == [s[0]] + s[1..];
      ConsSorted(s[0], t);
      [s[0]] + t
  }

  /** `sorted(set(xs))`: the distinct elements of `xs`, ascending. */
  function SortedSet(xs: seq<string>): (r: seq<string>)
    ensures StrictlySorted(r)
    ensures forall y :: y in r <==> y in xs
  {
    if |xs| == 0 then []
    else
      assert xs == [xs[0]] + xs[1..];
      Insert(xs[0], SortedSet(xs[1..]))
  }

  /** Two lists with the same elements are both empty or both not. */
  lemma SameEmptiness(a: seq<string>, b: seq<string>)
    requires forall y :: y in a <==> y in b
    ensures |a| == 0 <==> |b| == 0
  {
    if |a| > 0 {
      assert a[0] in b;
    }
    if |b| > 0 {
      assert b[0] in a;
    }
  }

  /** A sorted duplicate-free list is determined by its elements: whatever order
      the script collects names in, `sorted(set(...))` gives the same list. */
  lemma {:induction false} SortedUnique(a: seq<string>, b: seq<string>)
    requires StrictlySorted(a) && StrictlySorted(b)
    requires forall y :: y in a <==> y in b
    ensures a == b
    decreases |a|
  {
    SameEmptiness(a, b);
    if |a| > 0 {
      HeadBelowTail(a);
      HeadBelowTail(b);
      assert a == [a[0]] + a[1..];
      assert b == [b[0]] + b[1..];
      assert a[0] in a && b[0] in b;
      if a[0] != b[0] {
        assert a[0] in b[1..];
        assert b[0] in a[1..];
        BelowTransitive(a[0], b[0], a[0]);
        BelowIrreflexive(a[0]);
      }
      forall y
        ensures y in a[1..] <==> y in b[1..]
      {
        if y in a[1..] || y in b[1..] {
          assert y in a && y in b;
          if y == a[0] {
            BelowIrreflexive(y);
          }
        }
      }
      SortedUnique(a[1..], b[1..]);
    }
  }

  /** `sorted(set(xs))` depends only on which strings occur in `xs`. */
  lemma SortedSetCanonical(xs: seq<string>, ys: seq<string>)
    requires forall y :: y in xs <==> y in ys
    ensures SortedSet(xs) == SortedSet(ys)
  {
    SortedUnique(SortedSet(xs), SortedSet(ys));
  }

  /** The middle of `s` between the prefix `pre` and the suffix `suf`, or
      `None` when `s` does not have both. */
  function StripAffixes(s: string, pre: string, suf: string): Option<string> {
    if |s| >= |pre| + |suf| && s[..|pre|] == pre && s[|s| - |suf|..] == suf
    then Some(s[|pre|..|s| - |suf|])
    else None
  }

  /** Stripping the affixes gives `mid` exactly when `s` is `mid` wrapped in
      them. */
  lemma StripAffixesInverse(s: string, pre: string, suf: string, mid: string)
    ensures StripAffixes(s, pre, suf) == Some(mid) <==> s == pre + mid + suf
  {
    var t := pre + mid + suf;
    assert t[..|pre|] == pre;
    assert t[|pre|..|t| - |suf|] == mid;
    assert t[|t| - |suf|..] == suf;
    if StripAffixes(s, pre, suf) == Some(mid) {
      assert s == s[..|pre|] + s[|pre|..|s| - |suf|] + s[|s| - |suf|..];
    }
  }
}
