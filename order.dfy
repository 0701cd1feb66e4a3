/** Python's ordering of `str` values and the strictly ascending lists built
    with it: `sorted(set(...))` is modelled by inserting into such a list. */
module Order {

  /** Python's `a < b` on `str`: lexicographic by code point, and a proper
      prefix is smaller than the longer string. */
  predicate Less(a: string, b: string)
    decreases |a|
  {
    |b| > 0 && (|a| == 0 || (if a[0] != b[0] then a[0] < b[0] else Less(a[1..], b[1..])))
  }

  lemma {:induction false} LessIrreflexive(a: string)
    ensures !Less(a, a)
    decreases |a|
  {
    if |a| > 0 {
      LessIrreflexive(a[1..]);
    }
  }

  lemma {:induction false} LessTransitive(a: string, b: string, c: string)
    requires Less(a, b) && Less(b, c)
    ensures Less(a, c)
    decreases |a|
  {
    if |a| > 0 && a[0] == b[0] && b[0] == c[0] {
      LessTransitive(a[1..], b[1..], c[1..]);
    }
  }

  /** Any two different strings are ordered one way or the other. */
  lemma {:induction false} LessTotal(a: string, b: string)
    requires a != b
    ensures Less(a, b) || Less(b, a)
    decreases |a|
  {
    if |a| > 0 && |b| > 0 && a[0] == b[0] {
      assert a == [a[0]] + a[1..] && b == [b[0]] + b[1..];
      LessTotal(a[1..], b[1..]);
    }
  }

  lemma LessAsymmetric(a: string, b: string)
    requires Less(a, b)
    ensures !Less(b, a)
  {
    if Less(b, a) {
      LessTransitive(a, b, a);
      LessIrreflexive(a);
    }
  }

  /** A list is empty exactly when nothing is in it. */
  lemma EmptyIffNoMember(xs: seq<string>)
    ensures xs == [] <==> forall x :: x !in xs
  {
    if xs != [] {
      assert xs[0] in xs;
    }
  }

  /** Strictly ascending: sorted and free of duplicates. */
  predicate StrictlySorted(xs: seq<string>) {
    forall i, j :: 0 <= i < j < |xs| ==> Less(xs[i], xs[j])
  }

  lemma SortedNoDuplicates(xs: seq<string>, i: int, j: int)
    requires StrictlySorted(xs)
    requires 0 <= i < |xs| && 0 <= j < |xs| && i != j
    ensures xs[i] != xs[j]
  {
    if i < j { LessIrreflexive(xs[i]); } else { LessIrreflexive(xs[j]); }
  }

  /** A string below the head of a strictly ascending list is below all of it. */
  lemma BelowHead(t: string, xs: seq<string>)
    requires StrictlySorted(xs) && xs != [] && Less(t, xs[0])
    ensures forall x :: x in xs ==> Less(t, x)
  {
    forall x | x in xs
      ensures Less(t, x)
    {
      if x != xs[0] {
        LessTransitive(t, xs[0], x);
      }
    }
  }

  /** Inserts `t` into a strictly ascending list, leaving it as it is when `t`
      is already there. */
  function Insert(xs: seq<string>, t: string): (r: seq<string>)
    requires StrictlySorted(xs)
    ensures StrictlySorted(r)
    ensures forall x :: x in r <==> x in xs || x == t
    decreases |xs|
  {
    if xs == [] then [t]
    else if t == xs[0] then xs
    else if Less(t, xs[0]) then
      BelowHead(t, xs);
      [t] + xs
    else
      LessTotal(t, xs[0]);
      var rest := Insert(xs[1..], t);
      assert forall x :: x in rest ==> Less(xs[0], x);
      [xs[0]] + rest
  }

  /** Python's `sorted(set(xs) - set(ys))`: the elements of `xs` missing from
      `ys`, once each, in ascending order. */
  function SortedDifference(xs: seq<string>, ys: seq<string>): (r: seq<string>)
    ensures StrictlySorted(r)
    ensures forall x :: x in r <==> x in xs && x !in ys
    decreases |xs|
  {
    if xs == [] then []
    else
      var r := SortedDifference(xs[..|xs| - 1], ys);
      var t := xs[|xs| - 1];
      assert forall x :: x in xs <==> x in xs[..|xs| - 1] || x == t by {
        assert xs == xs[..|xs| - 1] + [t];
      }
      if t in ys then r else Insert(r, t)
  }

  /** A strictly ascending list is determined by its elements: it is THE
      sorted list of that set. */
  lemma {:induction false} SortedUnique(xs: seq<string>, ys: seq<string>)
    requires StrictlySorted(xs) && StrictlySorted(ys)
    requires forall x :: x in xs <==> x in ys
    ensures xs == ys
    decreases |xs|
  {
    if ys != [] {
      assert ys[0] in xs;
    }
    if xs != [] {
      assert xs[0] in ys;
      assert ys != [];
      if xs[0] != ys[0] {
        assert ys[0] in xs;
        var i :| 0 <= i < |xs| && xs[i] == ys[0];
        var j :| 0 <= j < |ys| && ys[j] == xs[0];
        assert Less(xs[0], ys[0]) by { SortedNoDuplicates(xs, 0, i); }
        assert Less(ys[0], xs[0]) by { SortedNoDuplicates(ys, 0, j); }
        LessAsymmetric(xs[0], ys[0]);
      }
      forall x
        ensures x in xs[1..] <==> x in ys[1..]
      {
        if x in xs[1..] {
          var i :| 1 <= i < |xs| && xs[i] == x;
          SortedNoDuplicates(xs, 0, i);
          assert x in ys;
        }
        if x in ys[1..] {
          var j :| 1 <= j < |ys| && ys[j] == x;
          SortedNoDuplicates(ys, 0, j);
          assert x in xs;
        }
      }
      SortedUnique(xs[1..], ys[1..]);
      assert xs == [xs[0]] + xs[1..] && ys == [ys[0]] + ys[1..];
    }
  }
}
