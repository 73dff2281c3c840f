/**
 * The result of PHP's `uasort` with a user comparator. Since PHP 8 the sort is
 * stable: elements the comparator calls equal keep their original order. The
 * result is therefore determined by the comparator alone, and is modelled here
 * by a stable insertion sort. Array keys, which `uasort` keeps, are not
 * modelled: only the iteration order of the result is.
 */
module StableSort {

  /**
   * A comparator in PHP's sense (`<0`, `0`, `>0`) that orders values consistently:
   * swapping the arguments negates the answer, and "not greater" is transitive.
   */
  ghost predicate IsComparator<T(!new)>(cmp: (T, T) -> int) {
    && (forall a, b :: cmp(a, b) == -cmp(b, a))
    && (forall a, b, c :: Chain(cmp, a, b, c))
  }

  /** Transitivity of "not greater" for one triple; mention it to use it. */
  ghost predicate Chain<T>(cmp: (T, T) -> int, a: T, b: T, c: T) {
    cmp(a, b) <= 0 && cmp(b, c) <= 0 ==> cmp(a, c) <= 0
  }

  /** Every element is not greater than every later one. */
  ghost predicate Sorted<T>(s: seq<T>, cmp: (T, T) -> int) {
    forall i, j :: 0 <= i < j < |s| ==> cmp(s[i], s[j]) <= 0
  }

  /** The elements of `s` the comparator calls equal to `x`, in their order in `s`. */
  function Ties<T>(s: seq<T>, x: T, cmp: (T, T) -> int): seq<T> {
    if s == [] then []
    else (if cmp(s[0], x) == 0 then [s[0]] else []) + Ties(s[1..], x, cmp)
  }

  /**
   * Stability: for every value, the elements tied with it appear in the same
   * order before and after sorting.
   */
  ghost predicate StableFor<T(!new)>(r: seq<T>, s: seq<T>, cmp: (T, T) -> int) {
    forall x :: Ties(r, x, cmp) == Ties(s, x, cmp)
  }

  /** Insert `x` after every element not greater than it. */
  function Insert<T>(x: T, s: seq<T>, cmp: (T, T) -> int): (r: seq<T>)
    ensures multiset(r) == multiset(s) + multiset{x}
    ensures |r| == |s| + 1
  {
    if s == [] || cmp(x, s[0]) < 0 then [x] + s
    else
      assert s == [s[0]] + s[1..];
      [s[0]] + Insert(x, s[1..], cmp)
  }

  /** Sort the prefix, then insert the last element behind its equals. */
  function Sort<T>(s: seq<T>, cmp: (T, T) -> int): seq<T> {
    if s == [] then [] else Insert(s[|s| - 1], Sort(s[..|s| - 1], cmp), cmp)
  }

  // ---------------------------------------------------------------------
  // Insertion

  lemma {:induction false} InsertSorted<T(!new)>(x: T, s: seq<T>, cmp: (T, T) -> int)
    requires IsComparator(cmp) && Sorted(s, cmp)
    ensures Sorted(Insert(x, s, cmp), cmp)
  {
    if s == [] {
    } else if cmp(x, s[0]) < 0 {
      forall j | 0 <= j < |s| ensures cmp(x, s[j]) <= 0 {
        assert j == 0 || cmp(s[0], s[j]) <= 0;
        assert Chain(cmp, x, s[0], s[j]);
      }
      assert Insert(x, s, cmp) == [x] + s;
    } else {
      InsertSorted(x, s[1..], cmp);
      var r := Insert(x, s[1..], cmp);
      forall j | 0 <= j < |r| ensures cmp(s[0], r[j]) <= 0 {
        assert r[j] in multiset(r);
        if r[j] != x {
          assert r[j] in multiset(s[1..]);
          var k :| 0 <= k < |s[1..]| && s[1..][k] == r[j];
          assert s[k + 1] == r[j];
        }
      }
      assert Insert(x, s, cmp) == [s[0]] + r;
    }
  }

  lemma {:induction false} TiesAppend<T>(a: seq<T>, b: seq<T>, x: T, cmp: (T, T) -> int)
    ensures Ties(a + b, x, cmp) == Ties(a, x, cmp) + Ties(b, x, cmp)
  {
    if a != [] {
      assert (a + b)[1..] == a[1..] + b;
      TiesAppend(a[1..], b, x, cmp);
    } else {
      assert a + b == b;
    }
  }

  lemma {:induction false} NoTies<T>(s: seq<T>, x: T, cmp: (T, T) -> int)
    requires forall e :: e in s ==> cmp(e, x) != 0
    ensures Ties(s, x, cmp) == []
  {
    if s != [] {
      NoTies(s[1..], x, cmp);
    }
  }

  lemma {:induction false} InsertTies<T(!new)>(x: T, s: seq<T>, y: T, cmp: (T, T) -> int)
    requires IsComparator(cmp) && Sorted(s, cmp)
    ensures Ties(Insert(x, s, cmp), y, cmp) == Ties(s, y, cmp) + (if cmp(x, y) == 0 then [x] else [])
  {
    if s == [] {
      assert Insert(x, s, cmp) == [x];
      TiesSingleton(x, y, cmp);
    } else if cmp(x, s[0]) < 0 {
      assert Insert(x, s, cmp) == [x] + s;
      InsertTiesBelow(x, s, y, cmp);
    } else {
      assert Insert(x, s, cmp) == [s[0]] + Insert(x, s[1..], cmp);
      SortedTail(s, cmp);
      InsertTies(x, s[1..], y, cmp);
      ConsTies(s[0], Insert(x, s[1..], cmp), s[1..], if cmp(x, y) == 0 then [x] else [], y, cmp);
      assert [s[0]] + s[1..] == s;
    }
  }

  /** Inserting in front of the head: `x` is the last of its ties. */
  lemma InsertTiesBelow<T(!new)>(x: T, s: seq<T>, y: T, cmp: (T, T) -> int)
    requires IsComparator(cmp) && Sorted(s, cmp)
    requires s != [] && cmp(x, s[0]) < 0
    ensures Ties([x] + s, y, cmp) == Ties(s, y, cmp) + (if cmp(x, y) == 0 then [x] else [])
  {
    TiesCons(x, s, y, cmp);
    if cmp(x, y) == 0 {
      BelowHeadNoTies(x, s, y, cmp);
    }
  }

  /** Putting the same head in front of two sequences keeps their ties related. */
  lemma ConsTies<T>(h: T, r: seq<T>, t: seq<T>, extra: seq<T>, y: T, cmp: (T, T) -> int)
    requires Ties(r, y, cmp) == Ties(t, y, cmp) + extra
    ensures Ties([h] + r, y, cmp) == Ties([h] + t, y, cmp) + extra
  {
    var head := if cmp(h, y) == 0 then [h] else [];
    TiesCons(h, r, y, cmp);
    TiesCons(h, t, y, cmp);
    assert head + (Ties(t, y, cmp) + extra) == (head + Ties(t, y, cmp)) + extra;
  }

  /** Ties of a sequence given as head and tail. */
  lemma TiesCons<T>(e: T, t: seq<T>, y: T, cmp: (T, T) -> int)
    ensures Ties([e] + t, y, cmp) == (if cmp(e, y) == 0 then [e] else []) + Ties(t, y, cmp)
  {
    assert ([e] + t)[1..] == t && ([e] + t)[0] == e;
  }

  lemma SortedTail<T>(s: seq<T>, cmp: (T, T) -> int)
    requires s != [] && Sorted(s, cmp)
    ensures Sorted(s[1..], cmp)
  {
    forall i, j | 0 <= i < j < |s[1..]| ensures cmp(s[1..][i], s[1..][j]) <= 0 {
      assert s[1..][i] == s[i + 1] && s[1..][j] == s[j + 1];
    }
  }

  /** Nothing in a sorted sequence ties with a value tied to something below its head. */
  lemma BelowHeadNoTies<T(!new)>(x: T, s: seq<T>, y: T, cmp: (T, T) -> int)
    requires IsComparator(cmp) && Sorted(s, cmp)
    requires s != [] && cmp(x, s[0]) < 0 && cmp(x, y) == 0
    ensures Ties(s, y, cmp) == []
  {
    forall e | e in s ensures cmp(e, y) != 0 {
      var k :| 0 <= k < |s| && s[k] == e;
      assert k == 0 || cmp(s[0], e) <= 0;
      assert Chain(cmp, s[0], e, y);
      assert Chain(cmp, s[0], y, x);
    }
    NoTies(s, y, cmp);
  }

  // ---------------------------------------------------------------------
  // Sorting

  /** The sort returns a sorted permutation of its input. */
  lemma {:induction false} SortSortedPermutation<T(!new)>(s: seq<T>, cmp: (T, T) -> int)
    requires IsComparator(cmp)
    ensures Sorted(Sort(s, cmp), cmp)
    ensures multiset(Sort(s, cmp)) == multiset(s)
    ensures |Sort(s, cmp)| == |s|
  {
    SortSorted(s, cmp);
    SortElements(s, cmp);
    SortLength(s, cmp);
  }

  lemma {:induction false} SortSorted<T(!new)>(s: seq<T>, cmp: (T, T) -> int)
    requires IsComparator(cmp)
    ensures Sorted(Sort(s, cmp), cmp)
  {
    if s != [] {
      var prefix := s[..|s| - 1];
      SortSorted(prefix, cmp);
      InsertSorted(s[|s| - 1], Sort(prefix, cmp), cmp);
    }
  }

  lemma {:induction false} SortLength<T>(s: seq<T>, cmp: (T, T) -> int)
    ensures |Sort(s, cmp)| == |s|
  {
    if s != [] {
      SortLength(s[..|s| - 1], cmp);
    }
  }

  /** The sort is stable: elements that compare equal keep their input order. */
  lemma {:induction false} SortStable<T(!new)>(s: seq<T>, cmp: (T, T) -> int)
    requires IsComparator(cmp)
    ensures StableFor(Sort(s, cmp), s, cmp)
  {
    if s != [] {
      var prefix, last := s[..|s| - 1], s[|s| - 1];
      SortStable(prefix, cmp);
      SortSortedPermutation(prefix, cmp);
      forall x ensures Ties(Sort(s, cmp), x, cmp) == Ties(s, x, cmp) {
        calc {
          Ties(Sort(s, cmp), x, cmp);
          Ties(Insert(last, Sort(prefix, cmp), cmp), x, cmp);
          { InsertTies(last, Sort(prefix, cmp), x, cmp); }
          Ties(Sort(prefix, cmp), x, cmp) + (if cmp(last, x) == 0 then [last] else []);
          { TiesSingleton(last, x, cmp); }
          Ties(prefix, x, cmp) + Ties([last], x, cmp);
          { TiesAppend(prefix, [last], x, cmp); assert s == prefix + [last]; }
          Ties(s, x, cmp);
        }
      }
    }
  }

  lemma TiesSingleton<T>(e: T, x: T, cmp: (T, T) -> int)
    ensures Ties([e], x, cmp) == if cmp(e, x) == 0 then [e] else []
  {
    assert [e][1..] == [] && [e][0] == e;
    assert Ties([e][1..], x, cmp) == [];
  }

  /** The first element of a tie class is the first element of the input in that class. */
  lemma {:induction false} TiesHead<T>(s: seq<T>, x: T, cmp: (T, T) -> int)
    requires Ties(s, x, cmp) != []
    ensures exists i :: 0 <= i < |s| && s[i] == Ties(s, x, cmp)[0] && cmp(s[i], x) == 0
                        && forall j :: 0 <= j < i ==> cmp(s[j], x) != 0
  {
    if cmp(s[0], x) != 0 {
      TiesHead(s[1..], x, cmp);
      var i :| 0 <= i < |s[1..]| && s[1..][i] == Ties(s[1..], x, cmp)[0] && cmp(s[1..][i], x) == 0
               && forall j :: 0 <= j < i ==> cmp(s[1..][j], x) != 0;
      assert s[i + 1] == s[1..][i];
      forall j | 0 <= j < i + 1 ensures cmp(s[j], x) != 0 {
        if j > 0 { assert s[j] == s[1..][j - 1]; }
      }
    } else {
      assert s[0] == Ties(s, x, cmp)[0];
    }
  }

  /**
   * The head of the sorted sequence is a minimum of the input, and among the
   * minima it is the one that comes first in the input.
   */
  lemma SortHeadIsFirstMinimum<T(!new)>(s: seq<T>, cmp: (T, T) -> int)
    requires IsComparator(cmp) && s != []
    ensures Sort(s, cmp) != []
    ensures forall e :: e in s ==> cmp(Sort(s, cmp)[0], e) <= 0
    ensures exists i :: 0 <= i < |s| && s[i] == Sort(s, cmp)[0]
                        && forall j :: 0 <= j < i ==> cmp(s[j], s[i]) > 0
  {
    var r := Sort(s, cmp);
    SortSortedPermutation(s, cmp);
    forall e | e in s ensures cmp(r[0], e) <= 0 {
      assert e in multiset(r);
      var k :| 0 <= k < |r| && r[k] == e;
      assert k == 0 || cmp(r[0], r[k]) <= 0;
    }
    SortStable(s, cmp);
    var h := r[0];
    assert Ties(r, h, cmp) == [h] + Ties(r[1..], h, cmp);
    assert Ties(s, h, cmp) == Ties(r, h, cmp);
    TiesHead(s, h, cmp);
    var i :| 0 <= i < |s| && s[i] == Ties(s, h, cmp)[0] && cmp(s[i], h) == 0
             && forall j :: 0 <= j < i ==> cmp(s[j], h) != 0;
    forall j | 0 <= j < i ensures cmp(s[j], s[i]) > 0 {
      assert s[j] in s;
      assert cmp(h, s[j]) <= 0;
    }
  }

  /**
   * A property every pair of elements has (distinct keys, say) still holds of
   * every pair after sorting.
   */
  ghost predicate Pairwise<T>(s: seq<T>, ok: (T, T) -> bool) {
    forall i, j :: 0 <= i < j < |s| ==> ok(s[i], s[j])
  }

  lemma {:induction false} InsertPairwise<T(!new)>(x: T, s: seq<T>, cmp: (T, T) -> int, ok: (T, T) -> bool)
    requires forall a, b :: ok(a, b) == ok(b, a)
    requires Pairwise(s, ok) && forall e :: e in s ==> ok(x, e)
    ensures Pairwise(Insert(x, s, cmp), ok)
  {
    if s != [] && cmp(x, s[0]) >= 0 {
      InsertPairwise(x, s[1..], cmp, ok);
      var r := Insert(x, s[1..], cmp);
      forall j | 0 <= j < |r| ensures ok(s[0], r[j]) {
        assert r[j] in multiset(r);
        assert r[j] == x || r[j] in multiset(s[1..]);
      }
    }
  }

  lemma {:induction false} SortPairwise<T(!new)>(s: seq<T>, cmp: (T, T) -> int, ok: (T, T) -> bool)
    requires forall a, b :: ok(a, b) == ok(b, a)
    requires Pairwise(s, ok)
    ensures Pairwise(Sort(s, cmp), ok)
  {
    if s != [] {
      var prefix, last := s[..|s| - 1], s[|s| - 1];
      SortPairwise(prefix, cmp, ok);
      forall e | e in Sort(prefix, cmp) ensures ok(last, e) {
        SortElements(prefix, cmp);
        var k :| 0 <= k < |prefix| && prefix[k] == e;
        assert ok(s[k], s[|s| - 1]);
      }
      InsertPairwise(last, Sort(prefix, cmp), cmp, ok);
    }
  }

  lemma {:induction false} SortElements<T>(s: seq<T>, cmp: (T, T) -> int)
    ensures multiset(Sort(s, cmp)) == multiset(s)
    ensures forall e :: e in Sort(s, cmp) <==> e in s
  {
    if s != [] {
      var prefix := s[..|s| - 1];
      SortElements(prefix, cmp);
      assert s == prefix + [s[|s| - 1]];
    }
    forall e ensures e in Sort(s, cmp) <==> e in s {
      assert e in Sort(s, cmp) <==> e in multiset(Sort(s, cmp));
      assert e in s <==> e in multiset(s);
    }
  }
}
