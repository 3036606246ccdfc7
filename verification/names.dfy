/** The ordering `sort()` puts page names in, and the sort itself. For strings
    that are not numeric, PHP compares byte by byte and a proper prefix sorts
    first; on code points that is the lexicographic order below. */
module Names {

  /** `a` sorts no later than `b`. */
  predicate Below(a: string, b: string)
    decreases |a|
  {
    |a| == 0 || (|b| != 0 && (a[0] < b[0] || (a[0] == b[0] && Below(a[1..], b[1..]))))
  }

  lemma {:induction false} BelowReflexive(a: string)
    ensures Below(a, a)
    decreases |a|
  {
    if |a| != 0 {
      BelowReflexive(a[1..]);
    }
  }

  lemma {:induction false} BelowAntisymmetric(a: string, b: string)
    requires Below(a, b) && Below(b, a)
    ensures a == b
    decreases |a|
  {
    if |a| != 0 {
      BelowAntisymmetric(a[1..], b[1..]);
      assert a == [a[0]] + a[1..] && b == [b[0]] + b[1..];
    }
  }

  lemma {:induction false} BelowTransitive(a: string, b: string, c: string)
    requires Below(a, b) && Below(b, c)
    ensures Below(a, c)
    decreases |a|
  {
    if |a| != 0 && a[0] == b[0] && b[0] == c[0] {
      BelowTransitive(a[1..], b[1..], c[1..]);
    }
  }

  lemma {:induction false} BelowTotal(a: string, b: string)
    ensures Below(a, b) || Below(b, a)
    decreases |a|
  {
    if |a| != 0 && |b| != 0 && a[0] == b[0] {
      BelowTotal(a[1..], b[1..]);
    }
  }

  /** Every earlier name sorts no later than every later one. */
  ghost predicate Sorted(s: seq<string>) {
    forall i, j :: 0 <= i < j < |s| ==> Below(s[i], s[j])
  }

  /** `x` sorts no later than every element of `s`. */
  ghost predicate LowerBound(x: string, s: seq<string>) {
    forall i :: 0 <= i < |s| ==> Below(x, s[i])
  }

  /** A sorted list starts with a lower bound of its tail, and its tail is sorted. */
  lemma SortedSplit(s: seq<string>)
    requires Sorted(s) && |s| != 0
    ensures LowerBound(s[0], s[1..]) && Sorted(s[1..])
  {
  }

  /** A lower bound of a sorted list prepended to it keeps it sorted. */
  lemma SortedCons(h: string, t: seq<string>)
    requires Sorted(t) && LowerBound(h, t)
    ensures Sorted([h] + t)
  {
  }

  /** Anything sorting no later than the head of a sorted list bounds all of it. */
  lemma BelowHeadBoundsAll(x: string, s: seq<string>)
    requires Sorted(s) && |s| != 0 && Below(x, s[0])
    ensures LowerBound(x, s)
  {
    forall i | 0 <= i < |s| ensures Below(x, s[i]) {
      if i > 0 {
        BelowTransitive(x, s[0], s[i]);
      }
    }
  }

  /** A lower bound of `t` and of `x` bounds any arrangement of `t` plus `x`. */
  lemma BoundByMultiset(h: string, t: seq<string>, x: string, u: seq<string>)
    requires LowerBound(h, t) && Below(h, x)
    requires multiset(u) == multiset(t) + multiset{x}
    ensures LowerBound(h, u)
  {
    forall i | 0 <= i < |u| ensures Below(h, u[i]) {
      assert u[i] in multiset(u);
      if u[i] != x {
        assert u[i] in multiset(t);
        var j :| 0 <= j < |t| && t[j] == u[i];
      }
    }
  }

  /** Inserts `x` into the sorted `s` before the first element it sorts below. */
  function Insert(x: string, s: seq<string>): (r: seq<string>)
    requires Sorted(s)
    ensures Sorted(r)
    ensures multiset(r) == multiset(s) + multiset{x}
    decreases |s|
  {
    if s == [] then
      [x]
    else if Below(x, s[0]) then
      BelowHeadBoundsAll(x, s);
      SortedCons(x, s);
      [x] + s
    else
      BelowTotal(x, s[0]);
      SortedSplit(s);
      var rest := Insert(x, s[1..]);
      BoundByMultiset(s[0], s[1..], x, rest);
      SortedCons(s[0], rest);
      assert s == [s[0]] + s[1..];
      [s[0]] + rest
  }

  /** PHP's `sort()` on a list of page names: the same names, in order. */
  function SortNames(s: seq<string>): (r: seq<string>)
    ensures Sorted(r)
    ensures multiset(r) == multiset(s)
    decreases |s|
  {
    if s == [] then
      []
    else
      assert s == [s[0]] + s[1..];
      Insert(s[0], SortNames(s[1..]))
  }

  /** The head of a sorted list sorts no later than anything in it. */
  lemma HeadIsLeast(a: seq<string>, x: string)
    requires Sorted(a) && x in a
    ensures Below(a[0], x)
  {
    var i :| 0 <= i < |a| && a[i] == x;
    if i == 0 {
      BelowReflexive(x);
    }
  }

  /** Removing equal heads from two lists with the same multiset leaves tails
      with the same multiset. */
  lemma TailsAgree(a: seq<string>, b: seq<string>)
    requires |a| != 0 && |b| != 0 && a[0] == b[0]
    requires multiset(a) == multiset(b)
    ensures multiset(a[1..]) == multiset(b[1..])
  {
    assert a == [a[0]] + a[1..];
    assert b == [b[0]] + b[1..];
    assert multiset(a) == multiset{a[0]} + multiset(a[1..]);
    assert multiset(b) == multiset{a[0]} + multiset(b[1..]);
    calc {
      multiset(a[1..]);
      multiset(a) - multiset{a[0]};
      multiset(b) - multiset{a[0]};
      multiset(b[1..]);
    }
  }

  /** A sorted arrangement of a multiset of names is unique: whatever order the
      names arrive in, `SortNames` yields one and the same list. */
  lemma {:induction false} SortedUnique(a: seq<string>, b: seq<string>)
    requires Sorted(a) && Sorted(b)
    requires multiset(a) == multiset(b)
    ensures a == b
    decreases |a|
  {
    assert |a| == |multiset(a)| == |multiset(b)| == |b|;
    if |a| != 0 {
      assert b[0] in multiset(a) && a[0] in multiset(b);
      HeadIsLeast(a, b[0]);
      HeadIsLeast(b, a[0]);
      BelowAntisymmetric(a[0], b[0]);
      TailsAgree(a, b);
      SortedUnique(a[1..], b[1..]);
      assert a == [a[0]] + a[1..] && b == [b[0]] + b[1..];
    }
  }

  /** Sorting forgets the order the names arrived in. */
  lemma SortNamesOrderIndependent(p: seq<string>, q: seq<string>)
    requires multiset(p) == multiset(q)
    ensures SortNames(p) == SortNames(q)
  {
    SortedUnique(SortNames(p), SortNames(q));
  }
}
