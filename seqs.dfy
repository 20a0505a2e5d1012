/** Sequence helpers standing for Python's `set(...)`, `range(...)` and filtered comprehensions. */
module Seqs {

  /** `set(s)`: the elements of a list. */
  function ElemSet<T>(s: seq<T>): set<T> {
    set x | x in s
  }

  /**
   * Some element of a non-empty set. Iterating a Python set visits its
   * elements in an order the model leaves open; each step takes this.
   */
  method Pick<T>(s: set<T>) returns (x: T)
    requires s != {}
    ensures x in s
  {
    x :| x in s;
  }

  /** Appending an element adds it to the elements. */
  lemma ElemSetSnoc<T>(s: seq<T>, x: T)
    ensures ElemSet(s + [x]) == ElemSet(s) + {x}
  {
  }

  /** A subset is no larger than its superset. */
  lemma {:induction false} SubsetCard<T>(a: set<T>, b: set<T>)
    requires a <= b
    ensures |a| <= |b|
    decreases |b|
  {
    if a != {} {
      var x :| x in a;
      SubsetCard(a - {x}, b - {x});
    }
  }

  /** Taking one more element out removes it when it was still there. */
  lemma MinusOneMore<T>(s: set<T>, k: set<T>, y: T)
    ensures |s - (k + {y})| == if y in s && y !in k then |s - k| - 1 else |s - k|
  {
    if y in s && y !in k {
      assert s - (k + {y}) == (s - k) - {y};
    } else {
      assert s - (k + {y}) == s - k;
    }
  }

  /** No element occurs twice. */
  ghost predicate Distinct<T>(s: seq<T>) {
    forall i, j :: 0 <= i < j < |s| ==> s[i] != s[j]
  }

  /** Two duplicate-free lists with no common element concatenate to a duplicate-free list. */
  lemma DistinctConcat<T>(a: seq<T>, b: seq<T>)
    requires Distinct(a) && Distinct(b)
    requires forall x :: x in a ==> x !in b
    ensures Distinct(a + b)
  {
    forall i, j | 0 <= i < j < |a + b| ensures (a + b)[i] != (a + b)[j] {
      if j < |a| {
        assert (a + b)[i] == a[i] && (a + b)[j] == a[j];
      } else if i < |a| {
        assert (a + b)[i] == a[i] && (a + b)[j] == b[j - |a|];
        assert a[i] in a;
      } else {
        assert (a + b)[i] == b[i - |a|] && (a + b)[j] == b[j - |a|];
      }
    }
  }

  /** A list holds at least as many entries as it has distinct elements. */
  lemma {:induction false} ElemSetCard<T>(s: seq<T>)
    ensures |ElemSet(s)| <= |s|
  {
    if s != [] {
      ElemSetCard(s[1..]);
      assert ElemSet(s) == {s[0]} + ElemSet(s[1..]);
    }
  }

  /** A list without repetitions has exactly as many distinct elements as entries. */
  lemma {:induction false} DistinctCard<T>(s: seq<T>)
    requires Distinct(s)
    ensures |ElemSet(s)| == |s|
  {
    if s != [] {
      assert Distinct(s[1..]) by {
        forall i, j | 0 <= i < j < |s[1..]| ensures s[1..][i] != s[1..][j] {
          assert s[1..][i] == s[i + 1] && s[1..][j] == s[j + 1];
        }
      }
      DistinctCard(s[1..]);
      assert ElemSet(s) == {s[0]} + ElemSet(s[1..]);
      assert s[0] !in ElemSet(s[1..]) by {
        forall k | 0 <= k < |s[1..]| ensures s[1..][k] != s[0] {
          assert s[1..][k] == s[k + 1];
        }
      }
    }
  }

  /** `range(lo, hi)`. */
  function Range(lo: int, hi: int): (r: seq<int>)
    ensures |r| == if lo < hi then hi - lo else 0
    ensures forall x :: x in r <==> lo <= x < hi
    ensures forall i :: 0 <= i < |r| ==> r[i] == lo + i
    decreases hi - lo
  {
    if lo < hi then [lo] + Range(lo + 1, hi) else []
  }

  lemma RangeDistinct(lo: int, hi: int)
    ensures Distinct(Range(lo, hi))
  {
  }

  /** `[y for y in s if y != v]`. */
  function Without(s: seq<int>, v: int): (r: seq<int>)
    ensures forall y :: y in r <==> y in s && y != v
    ensures Distinct(s) ==> Distinct(r)
    ensures Distinct(s) && v in s ==> |r| == |s| - 1
    ensures v !in s ==> r == s
  {
    if s == [] then []
    else
      var rest := Without(s[1..], v);
      assert Distinct(s) ==> Distinct(s[1..]) by {
        if Distinct(s) {
          forall i, j | 0 <= i < j < |s[1..]| ensures s[1..][i] != s[1..][j] {
            assert s[1..][i] == s[i + 1] && s[1..][j] == s[j + 1];
          }
        }
      }
      assert s == [s[0]] + s[1..];
      assert Distinct(s) ==> s[0] !in s[1..] by {
        if Distinct(s) {
          forall k | 0 <= k < |s[1..]| ensures s[1..][k] != s[0] {
            assert s[1..][k] == s[k + 1];
          }
        }
      }
      if s[0] != v then [s[0]] + rest else rest
  }
}
