/**
  The order of strings and the stable sort of Python's list.sort() for elements
  that are compared by a name. The sort is characterised as the sorted
  permutation that keeps elements of one name in order, and related to inserting
  a single element into a sorted list, which is what the option parser relies
  on: it sorts its lists after every element it appends.
 */
module StableSort {
  /** The lexicographic order of strings. */
  predicate Before(a: string, b: string) {
    b != "" && (a == "" || a[0] < b[0] || (a[0] == b[0] && Before(a[1..], b[1..])))
  }

  /** The strings agree up to position k, where a has ended or has the smaller character. */
  predicate SmallerAt(a: string, b: string, k: nat) {
    k <= |a| && k < |b| && a[..k] == b[..k] && (k == |a| || a[k] < b[k])
  }

  /** The string that comes before another is smaller at the first place where they differ. */
  lemma {:induction false} BeforeIff(a: string, b: string)
    ensures Before(a, b) <==> exists k: nat :: SmallerAt(a, b, k)
  {
    if a != "" && b != "" && a[0] == b[0] {
      BeforeIff(a[1..], b[1..]);
      if k: nat :| SmallerAt(a[1..], b[1..], k) {
        assert a[..k + 1] == [a[0]] + a[1..][..k] && b[..k + 1] == [b[0]] + b[1..][..k];
        assert SmallerAt(a, b, k + 1);
      }
      if k: nat :| SmallerAt(a, b, k) {
        assert a[1..][..k - 1] == a[..k][1..] && b[1..][..k - 1] == b[..k][1..];
        assert SmallerAt(a[1..], b[1..], k - 1);
      }
    } else if Before(a, b) {
      assert SmallerAt(a, b, 0);
    } else {
      forall k: nat ensures !SmallerAt(a, b, k) {
        if 0 < k <= |a| && k < |b| {
          assert a[0] == a[..k][0] && b[0] == b[..k][0];
        }
      }
    }
  }

  lemma {:induction false} BeforeAsymmetric(a: string, b: string)
    requires Before(a, b)
    ensures !Before(b, a)
  {
    if a != "" && a[0] == b[0] {
      BeforeAsymmetric(a[1..], b[1..]);
    }
  }

  lemma {:induction false} BeforeIrreflexive(a: string)
    ensures !Before(a, a)
  {
    if Before(a, a) {
      BeforeAsymmetric(a, a);
    }
  }

  /** Not coming before is transitive. */
  lemma {:induction false} NotBeforeTransitive(a: string, b: string, c: string)
    requires !Before(a, b) && !Before(b, c)
    ensures !Before(a, c)
  {
    if a != "" && b != "" && c != "" && a[0] == b[0] == c[0] {
      NotBeforeTransitive(a[1..], b[1..], c[1..]);
    }
  }

  /** No element comes before one that stands ahead of it. */
  predicate Sorted<T(==)>(list: seq<T>, name: T -> string) {
    forall i, j :: 0 <= i < j < |list| ==> !Before(name(list[j]), name(list[i]))
  }

  /** The list with x behind the last element that x does not come before. */
  function InsertSorted<T>(list: seq<T>, x: T, name: T -> string): (r: seq<T>)
    ensures |r| == |list| + 1 && multiset(r) == multiset(list) + multiset{x}
  {
    if list == [] then [x]
    else
      var front, last := list[..|list| - 1], list[|list| - 1];
      assert list == front + [last];
      if Before(name(x), name(last)) then InsertSorted(front, x, name) + [last] else list + [x]
  }

  function Sort<T>(list: seq<T>, name: T -> string): (r: seq<T>)
    ensures |r| == |list| && multiset(r) == multiset(list)
  {
    if list == [] then []
    else
      assert list == list[..|list| - 1] + [list[|list| - 1]];
      InsertSorted(Sort(list[..|list| - 1], name), list[|list| - 1], name)
  }

  lemma {:induction false} InsertKeepsSorted<T>(list: seq<T>, x: T, name: T -> string)
    requires Sorted(list, name)
    ensures Sorted(InsertSorted(list, x, name), name)
  {
    if list != [] {
      var front, last := list[..|list| - 1], list[|list| - 1];
      if Before(name(x), name(last)) {
        InsertKeepsSorted(front, x, name);
        BeforeAsymmetric(name(x), name(last));
        var r := InsertSorted(front, x, name);
        forall i | 0 <= i < |r| ensures !Before(name(last), name(r[i])) {
          assert r[i] in multiset(r);
        }
      } else {
        forall i | 0 <= i < |list| ensures !Before(name(x), name(list[i])) {
          if i < |list| - 1 {
            NotBeforeTransitive(name(x), name(last), name(list[i]));
          }
        }
      }
    }
  }

  function Pick<T>(x: T, n: string, name: T -> string): seq<T> {
    if name(x) == n then [x] else []
  }

  /** The elements of the given name, in order. */
  function Named<T>(list: seq<T>, n: string, name: T -> string): seq<T> {
    if list == [] then []
    else Named(list[..|list| - 1], n, name) + Pick(list[|list| - 1], n, name)
  }

  lemma NamedAppend<T>(list: seq<T>, x: T, n: string, name: T -> string)
    ensures Named(list + [x], n, name) == Named(list, n, name) + Pick(x, n, name)
  {
    assert (list + [x])[..|list|] == list;
  }

  /** Elements of different names can change places without changing the elements of one name. */
  lemma PickSwap<T>(a: seq<T>, x: T, y: T, n: string, name: T -> string)
    requires name(x) != name(y)
    ensures a + Pick(x, n, name) + Pick(y, n, name) == a + Pick(y, n, name) + Pick(x, n, name)
  {
  }

  lemma {:induction false} InsertIsStable<T>(list: seq<T>, x: T, n: string, name: T -> string)
    ensures Named(InsertSorted(list, x, name), n, name) == Named(list, n, name) + Pick(x, n, name)
  {
    if list == [] {
      assert [x][..0] == [];
    } else {
      var front, last := list[..|list| - 1], list[|list| - 1];
      if Before(name(x), name(last)) {
        BeforeIrreflexive(name(x));
        InsertIsStable(front, x, n, name);
        NamedAppend(InsertSorted(front, x, name), last, n, name);
        PickSwap(Named(front, n, name), x, last, n, name);
      } else {
        NamedAppend(list, x, n, name);
      }
    }
  }

  /** Sort is the stable sort: a sorted permutation that keeps the order of elements of the same name. */
  lemma {:induction false} SortIsStable<T>(list: seq<T>, n: string, name: T -> string)
    ensures Sorted(Sort(list, name), name)
    ensures multiset(Sort(list, name)) == multiset(list)
    ensures Named(Sort(list, name), n, name) == Named(list, n, name)
  {
    if list != [] {
      var front, last := list[..|list| - 1], list[|list| - 1];
      SortIsStable(front, n, name);
      InsertKeepsSorted(Sort(front, name), last, name);
      InsertIsStable(Sort(front, name), last, n, name);
    }
  }

  /** A sorted list is left alone. */
  lemma {:induction false} SortSorted<T>(list: seq<T>, name: T -> string)
    requires Sorted(list, name)
    ensures Sort(list, name) == list
  {
    if list != [] {
      var front, last := list[..|list| - 1], list[|list| - 1];
      SortSorted(front, name);
      if front != [] {
        assert !Before(name(last), name(list[|list| - 2]));
      }
    }
  }

  /** Sorting one more element into a sorted list inserts it. */
  lemma SortOneMore<T>(list: seq<T>, x: T, name: T -> string)
    requires Sorted(list, name)
    ensures Sort(list + [x], name) == InsertSorted(list, x, name)
  {
    assert (list + [x])[..|list|] == list;
    SortSorted(list, name);
  }

  /** Adding to a sorted list and sorting again is sorting once. */
  lemma SortAgain<T>(list: seq<T>, x: T, name: T -> string)
    ensures Sort(Sort(list, name) + [x], name) == Sort(list + [x], name)
  {
    SortIsStable(list, "", name);
    SortOneMore(Sort(list, name), x, name);
    assert (list + [x])[..|list|] == list;
  }

  lemma SortMembers<T>(list: seq<T>, name: T -> string)
    ensures forall i :: 0 <= i < |list| ==> Sort(list, name)[i] in list
  {
    assert forall i :: 0 <= i < |list| ==> Sort(list, name)[i] in multiset(Sort(list, name));
  }
}
