/**
 * Python's `sorted(...)` and `list.sort()` over the orderings the workflow sorts by:
 * code-point order on strings, lexicographic order on tuples and sequences.
 * Python's sort is stable, but under a strict total order on values equal elements are
 * identical, so any sorted permutation is THE result (`SortedUnique`); insertion sort is used.
 */
module Sorting {

  ghost predicate StrictTotalOrder<T(!new)>(lt: (T, T) -> bool) {
    && (forall a :: !lt(a, a))
    && (forall a, b, c :: lt(a, b) && lt(b, c) ==> lt(a, c))
    && (forall a, b :: a != b ==> lt(a, b) || lt(b, a))
  }

  /** Non-decreasing: no element is smaller than one before it. */
  predicate Sorted<T>(s: seq<T>, lt: (T, T) -> bool) {
    forall i, j :: 0 <= i < j < |s| ==> !lt(s[j], s[i])
  }

  /** Strictly increasing. */
  predicate StrictlySorted<T>(s: seq<T>, lt: (T, T) -> bool) {
    forall i, j :: 0 <= i < j < |s| ==> lt(s[i], s[j])
  }

  predicate NoDuplicates<T(==)>(s: seq<T>) {
    forall i, j :: 0 <= i < j < |s| ==> s[i] != s[j]
  }

  /** Insert `x` into a sorted sequence, after every element smaller than it. */
  function Insert<T(!new)>(x: T, s: seq<T>, lt: (T, T) -> bool): (r: seq<T>)
    requires StrictTotalOrder(lt)
    ensures multiset(r) == multiset(s) + multiset{x}
    ensures Sorted(s, lt) ==> Sorted(r, lt)
  {
    if s == [] then [x]
    else if lt(s[0], x) then
      var t := Insert(x, s[1..], lt);
      assert s == [s[0]] + s[1..];
      if Sorted(s, lt) then
        HeadBelow(s[0], x, s[1..], t, lt);
        ConsSorted(s[0], t, lt);
        [s[0]] + t
      else
        [s[0]] + t
    else
      if Sorted(s, lt) then
        ConsSorted(x, s, lt);
        [x] + s
      else
        [x] + s
  }

  /** A sorted sequence stays sorted under a new head no element of it is smaller than. */
  lemma ConsSorted<T>(a: T, t: seq<T>, lt: (T, T) -> bool)
    requires Sorted(t, lt) && forall k :: 0 <= k < |t| ==> !lt(t[k], a)
    ensures Sorted([a] + t, lt)
  {
    var r := [a] + t;
    forall i, j | 0 <= i < j < |r|
      ensures !lt(r[j], r[i])
    {
      assert r[j] == t[j - 1];
      if i > 0 {
        assert r[i] == t[i - 1];
      }
    }
  }

  /** The head `h` of a sorted sequence is not above `x` or any element after it, so neither is it above any
   *  permutation of them. */
  lemma HeadBelow<T(!new)>(h: T, x: T, s: seq<T>, t: seq<T>, lt: (T, T) -> bool)
    requires StrictTotalOrder(lt) && lt(h, x) && Sorted([h] + s, lt)
    requires multiset(t) == multiset(s) + multiset{x}
    ensures forall k :: 0 <= k < |t| ==> !lt(t[k], h)
  {
    forall k | 0 <= k < |t|
      ensures !lt(t[k], h)
    {
      assert t[k] in multiset(t);
      if t[k] == x {
        assert !lt(x, h);
      } else {
        assert t[k] in multiset(s);
        var j :| 0 <= j < |s| && s[j] == t[k];
        assert ([h] + s)[0] == h && ([h] + s)[j + 1] == s[j];
      }
    }
  }

  /** Insertion sort: a sorted permutation of `s`. */
  function Sort<T(!new)>(s: seq<T>, lt: (T, T) -> bool): (r: seq<T>)
    requires StrictTotalOrder(lt)
    ensures Sorted(r, lt)
    ensures multiset(r) == multiset(s)
  {
    if s == [] then []
    else
      assert s == [s[0]] + s[1..];
      Insert(s[0], Sort(s[1..], lt), lt)
  }

  /** Two sorted permutations of one another are equal: the sorted order is unique. */
  lemma {:induction false} SortedUnique<T(!new)>(a: seq<T>, b: seq<T>, lt: (T, T) -> bool)
    requires StrictTotalOrder(lt)
    requires Sorted(a, lt) && Sorted(b, lt)
    requires multiset(a) == multiset(b)
    ensures a == b
    decreases |a|
  {
    if a != [] {
      SortedHeadsEqual(a, b, lt);
      TailsPermutation(a, b);
      SortedUnique(a[1..], b[1..], lt);
      assert a == [a[0]] + a[1..] && b == [b[0]] + b[1..];
    }
  }

  /** Sorted permutations of one another start with the same element. */
  lemma SortedHeadsEqual<T(!new)>(a: seq<T>, b: seq<T>, lt: (T, T) -> bool)
    requires StrictTotalOrder(lt)
    requires Sorted(a, lt) && Sorted(b, lt)
    requires multiset(a) == multiset(b) && a != []
    ensures b != [] && a[0] == b[0]
  {
    assert a[0] in multiset(b);
    var j :| 0 <= j < |b| && b[j] == a[0];
    assert b[0] in multiset(a);
    var i :| 0 <= i < |a| && a[i] == b[0];
    assert !lt(b[j], b[0]) && !lt(a[i], a[0]);
  }

  /** Permutations of one another with the same head have permuted tails. */
  lemma TailsPermutation<T>(a: seq<T>, b: seq<T>)
    requires multiset(a) == multiset(b) && a != [] && b != [] && a[0] == b[0]
    ensures multiset(a[1..]) == multiset(b[1..])
  {
    assert a == [a[0]] + a[1..];
    assert b == [b[0]] + b[1..];
    assert multiset(a[1..]) == multiset(a) - multiset{a[0]};
    assert multiset(b[1..]) == multiset(b) - multiset{b[0]};
  }

  /** A sequence without repetitions has every element once in its multiset. */
  lemma {:induction false} NoDuplicatesCount<T>(s: seq<T>, x: T)
    requires NoDuplicates(s)
    ensures multiset(s)[x] <= 1
  {
    if s != [] {
      assert s == [s[0]] + s[1..];
      NoDuplicatesCount(s[1..], x);
      if s[0] == x {
        assert x !in s[1..];
      }
    }
  }

  /** A permutation of a sequence without repetitions has none either. */
  lemma NoDuplicatesPermutation<T>(s: seq<T>, r: seq<T>)
    requires NoDuplicates(s) && multiset(r) == multiset(s)
    ensures NoDuplicates(r)
  {
    forall i, j | 0 <= i < j < |r|
      ensures r[i] != r[j]
    {
      if r[i] == r[j] {
        var x := r[i];
        assert r == r[..i] + [x] + r[i + 1..j] + [x] + r[j + 1..];
        assert multiset(r)[x] >= 2;
        NoDuplicatesCount(s, x);
      }
    }
  }

  /** Sorted without repetitions means strictly increasing. */
  lemma SortedNoDuplicatesStrict<T(!new)>(s: seq<T>, lt: (T, T) -> bool)
    requires StrictTotalOrder(lt) && Sorted(s, lt) && NoDuplicates(s)
    ensures StrictlySorted(s, lt)
  {
  }

  /** Two strictly increasing sequences with the same elements are equal. */
  lemma {:induction false} StrictlySortedUnique<T(!new)>(a: seq<T>, b: seq<T>, lt: (T, T) -> bool)
    requires StrictTotalOrder(lt)
    requires StrictlySorted(a, lt) && StrictlySorted(b, lt)
    requires forall x :: x in a <==> x in b
    ensures a == b
    decreases |a|
  {
    if b != [] {
      assert b[0] in a;
    }
    if a != [] {
      assert a[0] in b;
      assert a[0] == b[0] by {
        assert a[0] in b && b[0] in a;
      }
      assert forall x :: x in a[1..] <==> x in a && x != a[0];
      assert forall x :: x in b[1..] <==> x in b && x != b[0];
      StrictlySortedUnique(a[1..], b[1..], lt);
      assert a == [a[0]] + a[1..];
      assert b == [b[0]] + b[1..];
    }
  }

  /** Sorting a sequence without repetitions yields the strictly increasing listing of its elements. */
  lemma SortNoDuplicates<T(!new)>(s: seq<T>, lt: (T, T) -> bool)
    requires StrictTotalOrder(lt) && NoDuplicates(s)
    ensures StrictlySorted(Sort(s, lt), lt)
    ensures forall x :: x in Sort(s, lt) <==> x in s
  {
    var r := Sort(s, lt);
    NoDuplicatesPermutation(s, r);
    SortedNoDuplicatesStrict(r, lt);
    forall x ensures x in r <==> x in s {
      assert x in r <==> x in multiset(r);
      assert x in s <==> x in multiset(s);
    }
  }

  // ---------------------------------------------------------------------------
  // Orderings

  /** Python's comparison of two sequences, element by element, a proper prefix first. */
  predicate LexLt<T(==)>(a: seq<T>, b: seq<T>, lt: (T, T) -> bool) {
    if a == [] then b != []
    else if b == [] then false
    else if a[0] != b[0] then lt(a[0], b[0])
    else LexLt(a[1..], b[1..], lt)
  }

  lemma {:induction false} LexIrreflexive<T(!new)>(a: seq<T>, lt: (T, T) -> bool)
    requires StrictTotalOrder(lt)
    ensures !LexLt(a, a, lt)
  {
    if a != [] {
      LexIrreflexive(a[1..], lt);
    }
  }

  lemma {:induction false} LexTransitive<T(!new)>(a: seq<T>, b: seq<T>, c: seq<T>, lt: (T, T) -> bool)
    requires StrictTotalOrder(lt)
    requires LexLt(a, b, lt) && LexLt(b, c, lt)
    ensures LexLt(a, c, lt)
    decreases |a|
  {
    if a != [] && b != [] && c != [] && a[0] == b[0] && b[0] == c[0] {
      LexTransitive(a[1..], b[1..], c[1..], lt);
    }
  }

  lemma {:induction false} LexTotal<T(!new)>(a: seq<T>, b: seq<T>, lt: (T, T) -> bool)
    requires StrictTotalOrder(lt)
    requires a != b
    ensures LexLt(a, b, lt) || LexLt(b, a, lt)
    decreases |a|
  {
    if a != [] && b != [] && a[0] == b[0] {
      assert a == [a[0]] + a[1..] && b == [b[0]] + b[1..];
      LexTotal(a[1..], b[1..], lt);
    }
  }

  lemma LexOrder<T(!new)>(lt: (T, T) -> bool)
    requires StrictTotalOrder(lt)
    ensures StrictTotalOrder((a: seq<T>, b: seq<T>) => LexLt(a, b, lt))
  {
    forall a: seq<T> ensures !LexLt(a, a, lt) {
      LexIrreflexive(a, lt);
    }
    forall a: seq<T>, b: seq<T>, c: seq<T> | LexLt(a, b, lt) && LexLt(b, c, lt)
      ensures LexLt(a, c, lt)
    {
      LexTransitive(a, b, c, lt);
    }
    forall a: seq<T>, b: seq<T> | a != b ensures LexLt(a, b, lt) || LexLt(b, a, lt) {
      LexTotal(a, b, lt);
    }
  }

  predicate CharLt(a: char, b: char) {
    a < b
  }

  /** Python's comparison of two unicode strings: code point by code point. */
  predicate StrLt(a: string, b: string) {
    LexLt(a, b, CharLt)
  }

  lemma StrOrder()
    ensures StrictTotalOrder(StrLt)
  {
    assert StrictTotalOrder(CharLt);
    LexOrder(CharLt);
    var f := (a: string, b: string) => LexLt(a, b, CharLt);
    assert forall a, b :: StrLt(a, b) == f(a, b);
  }

  /** Python's comparison of two pairs: by the first component, then by the second. */
  predicate PairLt<A(==), B>(p: (A, B), q: (A, B), lt1: (A, A) -> bool, lt2: (B, B) -> bool) {
    lt1(p.0, q.0) || (p.0 == q.0 && lt2(p.1, q.1))
  }

  lemma PairOrder<A(!new), B(!new)>(lt1: (A, A) -> bool, lt2: (B, B) -> bool)
    requires StrictTotalOrder(lt1) && StrictTotalOrder(lt2)
    ensures StrictTotalOrder((p: (A, B), q: (A, B)) => PairLt(p, q, lt1, lt2))
  {
  }

  /** The reverse of a strict total order is one too (`reverse=True`). */
  lemma ReverseOrder<T(!new)>(lt: (T, T) -> bool)
    requires StrictTotalOrder(lt)
    ensures StrictTotalOrder((a: T, b: T) => lt(b, a))
  {
  }

  /** Python's order on pairs of strings. */
  predicate StrPairLt(p: (string, string), q: (string, string)) {
    PairLt(p, q, StrLt, StrLt)
  }

  lemma StrPairOrder()
    ensures StrictTotalOrder(StrPairLt)
  {
    StrOrder();
    PairOrder(StrLt, StrLt);
    var lt := (p: (string, string), q: (string, string)) => PairLt(p, q, StrLt, StrLt);
    assert forall p, q :: StrPairLt(p, q) == lt(p, q);
  }

  /** Python's order on tuples of strings. */
  predicate StrsLt(a: seq<string>, b: seq<string>) {
    LexLt(a, b, StrLt)
  }

  lemma StrsOrder()
    ensures StrictTotalOrder(StrsLt)
  {
    StrOrder();
    LexOrder(StrLt);
    var lt := (a: seq<string>, b: seq<string>) => LexLt(a, b, StrLt);
    assert forall a, b :: StrsLt(a, b) == lt(a, b);
  }

  /** `sorted(list(s))` for a set: its elements, each once, in increasing order. */
  method SortedList<T(!new)>(s: set<T>, lt: (T, T) -> bool) returns (r: seq<T>)
    requires StrictTotalOrder(lt)
    ensures StrictlySorted(r, lt)
    ensures forall x :: x in r <==> x in s
  {
    var items: seq<T> := [];
    var rest := s;
    while rest != {}
      invariant rest <= s
      invariant NoDuplicates(items)
      invariant forall x :: x in items <==> x in s - rest
      decreases |rest|
    {
      var x :| x in rest;
      assert x !in items;
      items := items + [x];
      assert forall k :: 0 <= k < |items| - 1 ==> items[k] != x;
      rest := rest - {x};
    }
    SortNoDuplicates(items, lt);
    r := Sort(items, lt);
  }
}
