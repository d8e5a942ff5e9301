/** Python's `list.sort(key=..., reverse=True)`: a stable sort into non-increasing key
    order (elements with equal keys keep their relative order). Modelled as an insertion
    sort that files each element after every element whose key is at least its own. */
module Ranking {

  ghost predicate SortedDesc<T>(s: seq<T>, key: T -> real) {
    forall i, j :: 0 <= i < j < |s| ==> key(s[i]) >= key(s[j])
  }

  /** The elements of `s` whose key is `k`, in order. */
  function FilterKey<T>(s: seq<T>, key: T -> real, k: real): (r: seq<T>)
    ensures |r| <= |s|
  {
    if s == [] then [] else (if key(s[0]) == k then [s[0]] else []) + FilterKey(s[1..], key, k)
  }

  /** `out` is what a stable descending sort of `s` produces: ordered by key, and for every
      key value the elements having it appear exactly as in `s`. */
  ghost predicate IsStableSortDesc<T>(out: seq<T>, s: seq<T>, key: T -> real) {
    SortedDesc(out, key) && forall k :: FilterKey(out, key, k) == FilterKey(s, key, k)
  }

  function InsertDesc<T>(x: T, s: seq<T>, key: T -> real): seq<T> {
    if s == [] then [x]
    else if key(s[0]) >= key(x) then [s[0]] + InsertDesc(x, s[1..], key)
    else [x] + s
  }

  function SortDesc<T>(s: seq<T>, key: T -> real): seq<T> {
    if s == [] then [] else InsertDesc(s[|s| - 1], SortDesc(s[..|s| - 1], key), key)
  }

  lemma {:induction false} FilterKeyConcat<T>(a: seq<T>, b: seq<T>, key: T -> real, k: real)
    ensures FilterKey(a + b, key, k) == FilterKey(a, key, k) + FilterKey(b, key, k)
  {
    if a == [] {
      assert a + b == b;
    } else {
      var ab := a + b;
      assert ab != [] && ab[0] == a[0] && ab[1..] == a[1..] + b;
      FilterKeyConcat(a[1..], b, key, k);
      var h := if key(a[0]) == k then [a[0]] else [];
      calc {
        FilterKey(ab, key, k);
        h + FilterKey(a[1..] + b, key, k);
        h + (FilterKey(a[1..], key, k) + FilterKey(b, key, k));
        (h + FilterKey(a[1..], key, k)) + FilterKey(b, key, k);
      }
    }
  }

  lemma {:induction false} FilterKeyEmpty<T>(s: seq<T>, key: T -> real, k: real)
    ensures FilterKey(s, key, k) == [] <==> forall i :: 0 <= i < |s| ==> key(s[i]) != k
  {
    if s != [] {
      FilterKeyEmpty(s[1..], key, k);
      assert forall i :: 1 <= i < |s| ==> s[i] == s[1..][i - 1];
    }
  }

  /** Every element of the filter has key `k` and comes from `s`. */
  lemma {:induction false} FilterKeyMembers<T>(s: seq<T>, key: T -> real, k: real)
    ensures forall x :: x in FilterKey(s, key, k) ==> x in s && key(x) == k
  {
    if s != [] {
      FilterKeyMembers(s[1..], key, k);
    }
  }

  lemma {:induction false} InsertDescMultiset<T>(x: T, s: seq<T>, key: T -> real)
    ensures multiset(InsertDesc(x, s, key)) == multiset(s) + multiset{x}
  {
    if s != [] && key(s[0]) >= key(x) {
      InsertDescMultiset(x, s[1..], key);
      assert s == [s[0]] + s[1..];
    }
  }

  lemma SortedDescTail<T>(s: seq<T>, key: T -> real)
    requires s != [] && SortedDesc(s, key)
    ensures SortedDesc(s[1..], key)
  {
    var t := s[1..];
    forall i, j | 0 <= i < j < |t| ensures key(t[i]) >= key(t[j]) {
      assert t[i] == s[i + 1] && t[j] == s[j + 1];
    }
  }

  /** A head at least as large as every element of a sorted tail gives a sorted list. */
  lemma SortedDescCons<T>(h: T, t: seq<T>, key: T -> real)
    requires SortedDesc(t, key)
    requires forall y :: y in t ==> key(h) >= key(y)
    ensures SortedDesc([h] + t, key)
  {
    var out := [h] + t;
    forall i, j | 0 <= i < j < |out| ensures key(out[i]) >= key(out[j]) {
      assert out[j] == t[j - 1];
      if i > 0 {
        assert out[i] == t[i - 1];
      }
    }
  }

  lemma {:induction false} InsertDescSorted<T>(x: T, s: seq<T>, key: T -> real)
    requires SortedDesc(s, key)
    ensures SortedDesc(InsertDesc(x, s, key), key)
  {
    if s == [] {
    } else if key(s[0]) >= key(x) {
      var t := s[1..];
      SortedDescTail(s, key);
      InsertDescSorted(x, t, key);
      var r := InsertDesc(x, t, key);
      InsertDescMultiset(x, t, key);
      forall y | y in r ensures key(s[0]) >= key(y) {
        assert y in multiset(r);
        if y != x {
          assert y in multiset(t);
          var j :| 0 <= j < |t| && t[j] == y;
          assert s[j + 1] == y;
        }
      }
      SortedDescCons(s[0], r, key);
    } else {
      forall y | y in s ensures key(x) >= key(y) {
        var j :| 0 <= j < |s| && s[j] == y;
        assert key(s[0]) >= key(s[j]) || j == 0;
      }
      SortedDescCons(x, s, key);
    }
  }

  /** Inserting `x` into a sorted list puts it after every element of its own key. */
  lemma {:induction false} InsertDescFilter<T>(x: T, s: seq<T>, key: T -> real, k: real)
    requires SortedDesc(s, key)
    ensures FilterKey(InsertDesc(x, s, key), key, k) == FilterKey(s, key, k) + FilterKey([x], key, k)
  {
    if s == [] {
    } else if key(s[0]) >= key(x) {
      var t := s[1..];
      assert SortedDesc(t, key) by {
        forall i, j | 0 <= i < j < |t| ensures key(t[i]) >= key(t[j]) {
          assert t[i] == s[i + 1] && t[j] == s[j + 1];
        }
      }
      InsertDescFilter(x, t, key, k);
      assert ([s[0]] + InsertDesc(x, t, key))[1..] == InsertDesc(x, t, key);
    } else {
      assert ([x] + s)[1..] == s;
      if key(x) == k {
        FilterKeyEmpty(s, key, k);
        forall i | 0 <= i < |s| ensures key(s[i]) != k {
          if i > 0 { assert key(s[0]) >= key(s[i]); }
        }
      }
    }
  }

  /** The sort's contract: ordered, stable, and a permutation of its input. */
  lemma {:induction false} SortDescIsStableSort<T>(s: seq<T>, key: T -> real)
    ensures IsStableSortDesc(SortDesc(s, key), s, key)
    ensures multiset(SortDesc(s, key)) == multiset(s)
  {
    if s != [] {
      var init, last := s[..|s| - 1], s[|s| - 1];
      assert s == init + [last];
      SortDescIsStableSort(init, key);
      var sorted := SortDesc(init, key);
      InsertDescSorted(last, sorted, key);
      InsertDescMultiset(last, sorted, key);
      forall k ensures FilterKey(SortDesc(s, key), key, k) == FilterKey(s, key, k) {
        InsertDescFilter(last, sorted, key, k);
        FilterKeyConcat(init, [last], key, k);
      }
    }
  }
}
