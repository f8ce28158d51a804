/** Python's `sorted`/`list.sort` (a stable sort that compares with `<` only) and the
    first-occurrence deduplication of a dict's keys, with the facts the rest of the
    model needs about them. */
module Sorting {
  import opened Text

  /** `lt` behaves as Python's `<` on the sort keys used here: irreflexive, transitive,
      and "not less than" is transitive too. */
  ghost predicate StrictWeakOrder<T(!new)>(lt: (T, T) -> bool) {
    && (forall a :: !lt(a, a))
    && (forall a, b, c :: lt(a, b) && lt(b, c) ==> lt(a, c))
    && (forall a, b, c :: !lt(a, b) && !lt(b, c) ==> !lt(a, c))
  }

  /** Two values neither of which is less than the other are equal. */
  ghost predicate Total<T(!new)>(lt: (T, T) -> bool) {
    forall a, b :: lt(a, b) || a == b || lt(b, a)
  }

  /** No element is less than one before it. */
  predicate Sorted<T>(s: seq<T>, lt: (T, T) -> bool) {
    forall i, j :: 0 <= i < j < |s| ==> !lt(s[j], s[i])
  }

  /** Every element is less than every later one. */
  predicate StrictlySorted<T>(s: seq<T>, lt: (T, T) -> bool) {
    forall i, j :: 0 <= i < j < |s| ==> lt(s[i], s[j])
  }

  /** Puts `x` before the first element that is not less than it, so that `x` stays ahead
      of the elements it compares equal to. */
  function Insert<T>(x: T, s: seq<T>, lt: (T, T) -> bool): (r: seq<T>)
    ensures multiset(r) == multiset(s) + multiset{x}
  {
    if s == [] || !lt(s[0], x) then [x] + s
    else
      assert s == [s[0]] + s[1..];
      [s[0]] + Insert(x, s[1..], lt)
  }

  /** The stable sort `sorted(s)`: equal elements keep their order. */
  function Sort<T>(s: seq<T>, lt: (T, T) -> bool): (r: seq<T>)
    ensures multiset(r) == multiset(s)
  {
    if s == [] then []
    else
      assert s == [s[0]] + s[1..];
      Insert(s[0], Sort(s[1..], lt), lt)
  }

  lemma {:induction false} InsertSorted<T(!new)>(x: T, s: seq<T>, lt: (T, T) -> bool)
    requires StrictWeakOrder(lt) && Sorted(s, lt)
    ensures Sorted(Insert(x, s, lt), lt)
  {
    if s == [] || !lt(s[0], x) {
      var r := [x] + s;
      forall i, j | 0 <= i < j < |r| ensures !lt(r[j], r[i]) {
        if i == 0 && j > 1 {
          assert !lt(s[j - 1], s[0]);
        }
      }
    } else {
      var t := Insert(x, s[1..], lt);
      InsertSorted(x, s[1..], lt);
      var r := [s[0]] + t;
      forall i, j | 0 <= i < j < |r| ensures !lt(r[j], r[i]) {
        if i == 0 {
          var y := r[j];
          assert y in multiset(t);
          assert y == x || y in multiset(s[1..]);
          if y != x {
            var k :| 0 <= k < |s[1..]| && s[1..][k] == y;
            assert s[k + 1] == y;
          }
        }
      }
    }
  }

  /** `sorted` returns an ordered permutation of its input. */
  lemma {:induction false} SortSorted<T(!new)>(s: seq<T>, lt: (T, T) -> bool)
    requires StrictWeakOrder(lt)
    ensures Sorted(Sort(s, lt), lt)
  {
    if s != [] {
      SortSorted(s[1..], lt);
      InsertSorted(s[0], Sort(s[1..], lt), lt);
    }
  }

  /** Two members of `s` neither of which is less than the other are equal. */
  ghost predicate TotalOn<T>(s: seq<T>, lt: (T, T) -> bool) {
    forall x, y :: x in s && y in s && !lt(x, y) && !lt(y, x) ==> x == y
  }

  /** When the order is total on its members, a multiset has only one sorted arrangement. */
  lemma {:induction false} SortedUnique<T(!new)>(a: seq<T>, b: seq<T>, lt: (T, T) -> bool)
    requires StrictWeakOrder(lt) && TotalOn(a, lt)
    requires Sorted(a, lt) && Sorted(b, lt) && multiset(a) == multiset(b)
    ensures a == b
    decreases |a|
  {
    if a != [] {
      assert |b| == |a| by { assert |multiset(a)| == |multiset(b)|; }
      SortedSameHead(a, b, lt);
      TailsPermutation(a, b);
      SortedTail(a, lt);
      SortedTail(b, lt);
      assert forall x :: x in a[1..] ==> x in a;
      SortedUnique(a[1..], b[1..], lt);
      assert a == [a[0]] + a[1..] && b == [b[0]] + b[1..];
    }
  }

  /** Two sorted permutations of each other start with the same element. */
  lemma SortedSameHead<T(!new)>(a: seq<T>, b: seq<T>, lt: (T, T) -> bool)
    requires StrictWeakOrder(lt) && TotalOn(a, lt)
    requires Sorted(a, lt) && Sorted(b, lt) && multiset(a) == multiset(b) && a != [] && b != []
    ensures a[0] == b[0]
  {
    assert a[0] in multiset(b);
    var j :| 0 <= j < |b| && b[j] == a[0];
    assert b[0] in multiset(a);
    var i :| 0 <= i < |a| && a[i] == b[0];
    assert !lt(a[i], a[0]) && !lt(b[j], b[0]);
    assert a[0] in a && a[i] in a;
  }

  lemma TailsPermutation<T>(a: seq<T>, b: seq<T>)
    requires a != [] && b != [] && a[0] == b[0] && multiset(a) == multiset(b)
    ensures multiset(a[1..]) == multiset(b[1..])
  {
    assert a == [a[0]] + a[1..] && b == [b[0]] + b[1..];
    assert multiset(a) == multiset{a[0]} + multiset(a[1..]);
    assert multiset(b) == multiset{b[0]} + multiset(b[1..]);
    assert multiset(a[1..]) == multiset(a) - multiset{a[0]};
    assert multiset(b[1..]) == multiset(b) - multiset{b[0]};
  }

  lemma SortedTail<T>(a: seq<T>, lt: (T, T) -> bool)
    requires Sorted(a, lt) && a != []
    ensures Sorted(a[1..], lt)
  {
    forall i, j | 0 <= i < j < |a[1..]| ensures !lt(a[1..][j], a[1..][i]) {
      assert a[1..][j] == a[j + 1] && a[1..][i] == a[i + 1];
    }
  }

  /** Sorting two sequences gives the same result exactly when they are permutations of
      each other. */
  lemma SortEqualIff<T(!new)>(a: seq<T>, b: seq<T>, lt: (T, T) -> bool)
    requires StrictWeakOrder(lt) && Total(lt)
    ensures Sort(a, lt) == Sort(b, lt) <==> multiset(a) == multiset(b)
  {
    if multiset(a) == multiset(b) {
      SortSorted(a, lt);
      SortSorted(b, lt);
      assert TotalOn(Sort(a, lt), lt);
      SortedUnique(Sort(a, lt), Sort(b, lt), lt);
    }
  }

  /** Two strictly sorted sequences with the same elements are equal. */
  lemma {:induction false} StrictlySortedUnique<T>(a: seq<T>, b: seq<T>, lt: (T, T) -> bool)
    requires StrictlySorted(a, lt) && StrictlySorted(b, lt)
    requires forall x :: x in a ==> !lt(x, x)
    requires forall x, y, z :: x in a && y in a && z in a && lt(x, y) && lt(y, z) ==> lt(x, z)
    requires forall x :: x in a <==> x in b
    ensures a == b
    decreases |a|
  {
    if a == [] {
      HeadIsMember(b);
    } else {
      assert b != [] by { assert a[0] in b; }
      assert a[0] in b && b[0] in a;
      var j :| 0 <= j < |b| && b[j] == a[0];
      var i :| 0 <= i < |a| && a[i] == b[0];
      assert a[0] == b[0];
      forall x ensures x in a[1..] <==> x in b[1..] {
        if x in a[1..] {
          var i :| 1 <= i < |a| && a[i] == x;
          assert lt(a[0], x);
          assert x in b;
        }
        if x in b[1..] {
          var j :| 1 <= j < |b| && b[j] == x;
          assert lt(b[0], x);
          assert x in a;
        }
      }
      StrictlySortedUnique(a[1..], b[1..], lt);
      assert a == [a[0]] + a[1..] && b == [b[0]] + b[1..];
    }
  }

  lemma HeadIsMember<T>(s: seq<T>)
    ensures |s| > 0 ==> s[0] in s
  {
  }

  /** `list(dict.fromkeys(s))`: the distinct elements in order of first occurrence. */
  function Distinct<T(==,!new)>(s: seq<T>): (r: seq<T>)
    ensures forall x :: x in r <==> x in s
    ensures forall i, j :: 0 <= i < j < |r| ==> r[i] != r[j]
  {
    if s == [] then []
    else
      var d := Distinct(s[..|s| - 1]);
      assert s == s[..|s| - 1] + [s[|s| - 1]];
      if s[|s| - 1] in d then d else d + [s[|s| - 1]]
  }

  /** No element occurs twice. */
  ghost predicate NoDuplicates<T>(s: seq<T>) {
    forall i, j :: 0 <= i < j < |s| ==> s[i] != s[j]
  }

  lemma {:induction false} NoDuplicatesCount<T>(s: seq<T>, x: T)
    requires NoDuplicates(s)
    ensures multiset(s)[x] <= 1
  {
    if s != [] {
      var init := s[..|s| - 1];
      assert s == init + [s[|s| - 1]];
      NoDuplicatesCount(init, x);
      if x == s[|s| - 1] {
        assert x !in init;
      }
    }
  }

  /** A permutation of a sequence without duplicates has none either. */
  lemma PermutationNoDuplicates<T>(a: seq<T>, b: seq<T>)
    requires NoDuplicates(a) && multiset(a) == multiset(b)
    ensures NoDuplicates(b)
  {
    forall i, j | 0 <= i < j < |b| ensures b[i] != b[j] {
      if b[i] == b[j] {
        var x := b[i];
        assert b == b[..j] + [b[j]] + b[j + 1..];
        assert x in b[..j];
        assert multiset(b)[x] >= 2;
        NoDuplicatesCount(a, x);
      }
    }
  }

  /** Under a total order, a sorted sequence without duplicates is strictly sorted. */
  lemma SortedStrictly<T(!new)>(s: seq<T>, lt: (T, T) -> bool)
    requires Total(lt) && Sorted(s, lt) && NoDuplicates(s)
    ensures StrictlySorted(s, lt)
  {
    forall i, j | 0 <= i < j < |s| ensures lt(s[i], s[j]) {
      assert !lt(s[j], s[i]) && s[i] != s[j];
    }
  }

  /** Two sequences without duplicates are permutations of each other exactly when they
      have the same elements. */
  lemma {:induction false} SameElementsPermutation<T>(a: seq<T>, b: seq<T>)
    requires NoDuplicates(a) && NoDuplicates(b)
    ensures multiset(a) == multiset(b) <==> forall x :: x in a <==> x in b
  {
    if forall x :: x in a <==> x in b {
      forall x ensures multiset(a)[x] == multiset(b)[x] {
        NoDuplicatesCount(a, x);
        NoDuplicatesCount(b, x);
        assert x in a <==> x in multiset(a);
        assert x in b <==> x in multiset(b);
      }
    } else {
      var x :| !(x in a <==> x in b);
      assert multiset(a)[x] != multiset(b)[x];
    }
  }

  /** Sorting strings without duplicates orders them strictly and keeps exactly them. */
  lemma SortDistinctStrictly(s: seq<string>)
    requires NoDuplicates(s)
    ensures StrictlySorted(Sort(s, LexOrder()), LexOrder())
    ensures forall k :: k in Sort(s, LexOrder()) <==> k in s
  {
    var sorted := Sort(s, LexOrder());
    forall k ensures k in sorted <==> k in s {
      assert k in sorted <==> k in multiset(sorted);
      assert k in s <==> k in multiset(s);
    }
    LexOrderTotal();
    SortSorted(s, LexOrder());
    PermutationNoDuplicates(s, sorted);
    SortedStrictly(sorted, LexOrder());
  }

  /** Python's `<` on strings, as a comparison function. */
  function LexOrder(): (string, string) -> bool {
    (a, b) => LexLt(a, b)
  }

  lemma LexOrderTotal()
    ensures StrictWeakOrder(LexOrder()) && Total(LexOrder())
  {
    var lt := LexOrder();
    forall a ensures !lt(a, a) {
      LexLtIrreflexive(a);
    }
    forall a, b, c | lt(a, b) && lt(b, c) ensures lt(a, c) {
      LexLtTransitive(a, b, c);
    }
    forall a, b ensures lt(a, b) || a == b || lt(b, a) {
      LexLtTotal(a, b);
    }
    forall a, b, c | !lt(a, b) && !lt(b, c) ensures !lt(a, c) {
      LexLtTotal(a, b);
      LexLtTotal(b, c);
      if lt(c, b) && lt(b, a) {
        LexLtTransitive(c, b, a);
      }
      if lt(a, c) && lt(c, a) {
        LexLtAsymmetric(a, c);
      }
    }
  }
}
