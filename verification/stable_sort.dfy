/** Python's `sorted(xs, key=key, reverse=not ascending)` for an integer
    key: a stable sort in either direction. With `reverse=True` Python still
    keeps equal keys in their input order, so descending order is not the
    reverse of ascending order. */
module StableSort {

  /** A key `a` may come before a key `b` in the requested direction. */
  predicate Ordered(a: int, b: int, ascending: bool)
  {
    if ascending then a <= b else a >= b
  }

  predicate Sorted<T>(s: seq<T>, key: T -> int, ascending: bool)
  {
    forall i, j :: 0 <= i < j < |s| ==> Ordered(key(s[i]), key(s[j]), ascending)
  }

  /** The elements of `s` whose key is `k`, in their order in `s`. */
  function Filter<T>(s: seq<T>, key: T -> int, k: int): (r: seq<T>)
    ensures |r| <= |s|
  {
    if s == [] then [] else (if key(s[0]) == k then [s[0]] else []) + Filter(s[1..], key, k)
  }

  /** `output` is `input` ordered by key, with the elements of each key in
      their input order. This is what a stable sort promises. */
  ghost predicate StablySorted<T>(input: seq<T>, output: seq<T>, key: T -> int, ascending: bool)
  {
    && Sorted(output, key, ascending)
    && forall k :: Filter(output, key, k) == Filter(input, key, k)
  }

  /** Places `x` before the first element of `s` it may precede, so `x`
      lands ahead of the elements that share its key. */
  function Insert<T>(x: T, s: seq<T>, key: T -> int, ascending: bool): (r: seq<T>)
    ensures multiset(r) == multiset{x} + multiset(s)
    ensures forall k :: Filter(r, key, k) == (if key(x) == k then [x] else []) + Filter(s, key, k)
  {
    if s == [] || Ordered(key(x), key(s[0]), ascending) then
      var r := [x] + s;
      assert r[1..] == s;
      r
    else
      var tail := Insert(x, s[1..], key, ascending);
      var r := [s[0]] + tail;
      assert r[1..] == tail;
      assert s == [s[0]] + s[1..];
      assert key(x) != key(s[0]);
      r
  }

  /** Inserting into a sorted sequence keeps it sorted. */
  lemma {:induction false} InsertSorted<T>(x: T, s: seq<T>, key: T -> int, ascending: bool)
    requires Sorted(s, key, ascending)
    ensures Sorted(Insert(x, s, key, ascending), key, ascending)
  {
    if s == [] || Ordered(key(x), key(s[0]), ascending) {
    } else {
      var tail := Insert(x, s[1..], key, ascending);
      InsertSorted(x, s[1..], key, ascending);
      assert Insert(x, s, key, ascending) == [s[0]] + tail;
      forall i | 0 <= i < |tail|
        ensures Ordered(key(s[0]), key(tail[i]), ascending)
      {
        assert tail[i] in multiset(tail);
        if tail[i] != x {
          assert tail[i] in multiset(s[1..]);
          var j :| 0 <= j < |s[1..]| && s[1..][j] == tail[i];
          assert s[j + 1] == tail[i];
        }
      }
    }
  }

  /** Insertion sort from the back: each element is inserted ahead of the
      already sorted later elements with the same key. */
  function Sort<T>(s: seq<T>, key: T -> int, ascending: bool): (r: seq<T>)
    ensures Sorted(r, key, ascending)
    ensures multiset(r) == multiset(s)
    ensures forall k :: Filter(r, key, k) == Filter(s, key, k)
  {
    if s == [] then []
    else
      assert s == [s[0]] + s[1..];
      InsertSorted(s[0], Sort(s[1..], key, ascending), key, ascending);
      Insert(s[0], Sort(s[1..], key, ascending), key, ascending)
  }

  /** Sort meets the stable-sort specification. */
  lemma SortIsStable<T>(s: seq<T>, key: T -> int, ascending: bool)
    ensures StablySorted(s, Sort(s, key, ascending), key, ascending)
    ensures |Sort(s, key, ascending)| == |s|
  {
    var r := Sort(s, key, ascending);
    assert |r| == |multiset(r)| == |multiset(s)| == |s|;
  }

  /** An element's own key selects a non-empty part. */
  lemma {:induction false} FilterHasElement<T>(s: seq<T>, key: T -> int, i: int)
    requires 0 <= i < |s|
    ensures Filter(s, key, key(s[i])) != []
  {
    if i > 0 && key(s[0]) != key(s[i]) {
      FilterHasElement(s[1..], key, i - 1);
    }
  }

  /** A non-empty part comes from an element of that key. */
  lemma {:induction false} FilterWitness<T>(s: seq<T>, key: T -> int, k: int) returns (i: int)
    requires Filter(s, key, k) != []
    ensures 0 <= i < |s| && key(s[i]) == k
  {
    if key(s[0]) == k {
      i := 0;
    } else {
      var j := FilterWitness(s[1..], key, k);
      i := j + 1;
    }
  }

  /** Two sorted sequences with the same per-key parts are equal. */
  lemma {:induction false} SortedByParts<T>(a: seq<T>, b: seq<T>, key: T -> int, ascending: bool)
    requires Sorted(a, key, ascending) && Sorted(b, key, ascending)
    requires forall k :: Filter(a, key, k) == Filter(b, key, k)
    ensures a == b
  {
    if a == [] {
      if b != [] {
        FilterHasElement(b, key, 0);
      }
    } else if b == [] {
      FilterHasElement(a, key, 0);
    } else {
      var ka, kb := key(a[0]), key(b[0]);
      FilterHasElement(a, key, 0);
      FilterHasElement(b, key, 0);
      var i := FilterWitness(a, key, kb);
      var j := FilterWitness(b, key, ka);
      assert Ordered(ka, key(a[i]), ascending) by {
        if i > 0 {
          assert Ordered(key(a[0]), key(a[i]), ascending);
        }
      }
      assert Ordered(kb, key(b[j]), ascending) by {
        if j > 0 {
          assert Ordered(key(b[0]), key(b[j]), ascending);
        }
      }
      assert ka == kb;
      assert Filter(a, key, ka) == [a[0]] + Filter(a[1..], key, ka);
      assert Filter(b, key, ka) == [b[0]] + Filter(b[1..], key, ka);
      assert Filter(a, key, ka)[0] == a[0];
      assert Filter(b, key, ka)[0] == b[0];
      assert a[0] == b[0];
      forall k
        ensures Filter(a[1..], key, k) == Filter(b[1..], key, k)
      {
        var fa, fb := Filter(a[1..], key, k), Filter(b[1..], key, k);
        assert Filter(a, key, k) == Filter(b, key, k);
        if ka == k {
          assert Filter(a, key, k) == [a[0]] + fa;
          assert Filter(b, key, k) == [a[0]] + fb;
          assert fa == ([a[0]] + fa)[1..];
          assert fb == ([a[0]] + fb)[1..];
        } else {
          assert Filter(a, key, k) == fa;
          assert Filter(b, key, k) == fb;
        }
      }
      SortedByParts(a[1..], b[1..], key, ascending);
      assert a == [a[0]] + a[1..];
      assert b == [b[0]] + b[1..];
    }
  }

  /** The stable-sort specification has exactly one solution, and it is
      what Sort computes. */
  lemma SortIsTheStableSort<T>(s: seq<T>, output: seq<T>, key: T -> int, ascending: bool)
    ensures StablySorted(s, output, key, ascending) <==> output == Sort(s, key, ascending)
  {
    SortIsStable(s, key, ascending);
    if StablySorted(s, output, key, ascending) {
      SortedByParts(output, Sort(s, key, ascending), key, ascending);
    }
  }

  /** Pairwise order gives the neighbour-by-neighbour order. */
  lemma SortedAdjacent<T>(s: seq<T>, key: T -> int, ascending: bool)
    requires Sorted(s, key, ascending)
    ensures forall i :: 0 <= i < |s| - 1 ==> Ordered(key(s[i]), key(s[i + 1]), ascending)
  {
  }
}
