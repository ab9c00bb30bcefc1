/** Python's `sorted(...)` over the keys of a dictionary, for the two key
    orders the scripts use: numeric order on workids and byte-wise string
    order on workid strings. */
module Sorting {
  import Text

  ghost predicate StrictTotalOrder<T(!new)>(less: (T, T) -> bool)
  {
    && (forall x :: !less(x, x))
    && (forall x, y, z :: less(x, y) && less(y, z) ==> less(x, z))
    && (forall x, y :: x != y ==> less(x, y) || less(y, x))
  }

  /** Every element comes strictly before every later one. */
  ghost predicate Ascending<T>(s: seq<T>, less: (T, T) -> bool)
  {
    forall i, j :: 0 <= i < j < |s| ==> less(s[i], s[j])
  }

  /** Places `x` into an ascending sequence that does not yet hold it. */
  function Insert<T(!new)>(s: seq<T>, x: T, less: (T, T) -> bool): (r: seq<T>)
    requires StrictTotalOrder(less)
    requires Ascending(s, less) && x !in s
    ensures Ascending(r, less)
    ensures |r| == |s| + 1
    ensures forall y :: y in r <==> y in s || y == x
  {
    if |s| == 0 || less(x, s[0]) then [x] + s
    else
      var tail := Insert(s[1..], x, less);
      assert forall k :: 0 <= k < |tail| ==> less(s[0], tail[k]) by {
        forall k | 0 <= k < |tail|
          ensures less(s[0], tail[k])
        {
          if tail[k] != x {
            assert tail[k] in tail;
            var j :| 0 <= j < |s[1..]| && s[1..][j] == tail[k];
            assert s[j + 1] == tail[k];
          }
        }
      }
      [s[0]] + tail
  }

  /** `sorted(keys)`: the elements of `keys`, each once, in ascending order. */
  method SortSet<T(!new)>(keys: set<T>, less: (T, T) -> bool) returns (r: seq<T>)
    requires StrictTotalOrder(less)
    ensures Ascending(r, less)
    ensures |r| == |keys|
    ensures forall x :: x in r <==> x in keys
  {
    r := [];
    var rest := keys;
    while rest != {}
      invariant rest <= keys
      invariant Ascending(r, less)
      invariant forall x :: x in r <==> x in keys && x !in rest
      invariant |r| + |rest| == |keys|
      decreases rest
    {
      var x :| x in rest;
      r := Insert(r, x, less);
      rest := rest - {x};
    }
  }

  /** Some element of a non-empty set: the next key a loop over a
      dictionary meets, in an order the program does not rely on. */
  method Pick<T>(s: set<T>) returns (x: T)
    requires s != {}
    ensures x in s
  {
    x :| x in s;
  }

  predicate IntLess(a: int, b: int)
  {
    a < b
  }

  lemma IntOrderIsStrictTotal()
    ensures StrictTotalOrder(IntLess)
  {
  }

  /** `sorted(keys)` on integers. */
  method SortInts(keys: set<int>) returns (r: seq<int>)
    ensures forall i, j :: 0 <= i < j < |r| ==> r[i] < r[j]
    ensures |r| == |keys|
    ensures forall x :: x in r <==> x in keys
  {
    IntOrderIsStrictTotal();
    r := SortSet(keys, IntLess);
    assert forall i, j :: 0 <= i < j < |r| ==> IntLess(r[i], r[j]);
  }

  /** `sorted(keys)` on strings. */
  method SortStrings(keys: set<string>) returns (r: seq<string>)
    ensures Ascending(r, Text.LexLess)
    ensures |r| == |keys|
    ensures forall x :: x in r <==> x in keys
  {
    StringOrderIsStrictTotal();
    r := SortSet(keys, Text.LexLess);
  }

  /** The byte-wise order Python 2 uses on `str` is a strict total order. */
  lemma StringOrderIsStrictTotal()
    ensures StrictTotalOrder(Text.LexLess)
  {
    forall x: string
      ensures !Text.LexLess(x, x)
    {
      Text.LexLessIrreflexive(x);
    }
    forall x: string, y: string, z: string | Text.LexLess(x, y) && Text.LexLess(y, z)
      ensures Text.LexLess(x, z)
    {
      Text.LexLessTransitive(x, y, z);
    }
    forall x: string, y: string | x != y
      ensures Text.LexLess(x, y) || Text.LexLess(y, x)
    {
      Text.LexLessConnected(x, y);
    }
  }
}
