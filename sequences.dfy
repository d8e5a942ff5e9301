/** Order-preserving filtering of a sequence, as the handlers' loops that append every
    matching directory entry compute it. */
module Sequences {

  function Filter<T>(s: seq<T>, p: T -> bool): (r: seq<T>)
    ensures |r| <= |s|
    ensures forall x :: x in r ==> x in s && p(x)
  {
    if s == [] then []
    else Filter(s[..|s| - 1], p) + (if p(s[|s| - 1]) then [s[|s| - 1]] else [])
  }

  /** Nothing that satisfies `p` is dropped. */
  lemma {:induction false} FilterKeepsAll<T>(s: seq<T>, p: T -> bool)
    ensures forall x :: x in s && p(x) ==> x in Filter(s, p)
  {
    if s != [] {
      var init := s[..|s| - 1];
      FilterKeepsAll(init, p);
      assert s == init + [s[|s| - 1]];
    }
  }

  /** The filter is empty exactly when nothing satisfies `p`, and otherwise starts with the
      earliest element that does. */
  lemma {:induction false} FilterFirst<T>(s: seq<T>, p: T -> bool)
    ensures Filter(s, p) == [] <==> forall i :: 0 <= i < |s| ==> !p(s[i])
    ensures Filter(s, p) != [] ==>
              exists i :: 0 <= i < |s| && s[i] == Filter(s, p)[0] && p(s[i])
                          && forall j :: 0 <= j < i ==> !p(s[j])
  {
    if s != [] {
      var init := s[..|s| - 1];
      FilterFirst(init, p);
      assert forall i :: 0 <= i < |init| ==> init[i] == s[i];
      if Filter(init, p) == [] && Filter(s, p) != [] {
        assert Filter(s, p)[0] == s[|s| - 1];
      }
    }
  }

  /** Filtering twice is filtering once by both tests. */
  lemma {:induction false} FilterTwice<T>(s: seq<T>, p: T -> bool, q: T -> bool, both: T -> bool)
    requires forall x :: both(x) == (p(x) && q(x))
    ensures Filter(Filter(s, p), q) == Filter(s, both)
  {
    if s != [] {
      var init, last := s[..|s| - 1], s[|s| - 1];
      FilterTwice(init, p, q, both);
      var m := Filter(init, p);
      if p(last) {
        var ml := m + [last];
        assert Filter(s, p) == ml;
        assert ml[..|ml| - 1] == m && ml[|ml| - 1] == last;
        assert Filter(ml, q) == Filter(m, q) + (if q(last) then [last] else []);
      } else {
        assert Filter(s, p) == m;
      }
    }
  }

  /** The elements of `s` outside `gone`, in order. */
  function Without<T>(s: seq<T>, gone: set<T>): (r: seq<T>)
    ensures |r| <= |s|
  {
    if s == [] then []
    else Without(s[..|s| - 1], gone) + (if s[|s| - 1] in gone then [] else [s[|s| - 1]])
  }

  /** `Without` keeps exactly the elements that are not in `gone`. */
  lemma {:induction false} WithoutMembers<T>(s: seq<T>, gone: set<T>)
    ensures forall x :: x in Without(s, gone) ==> x in s && x !in gone
    ensures forall x :: x in s && x !in gone ==> x in Without(s, gone)
  {
    if s != [] {
      var init := s[..|s| - 1];
      WithoutMembers(init, gone);
      assert s == init + [s[|s| - 1]];
    }
  }

  lemma {:induction false} WithoutTwice<T>(s: seq<T>, a: set<T>, b: set<T>)
    ensures Without(Without(s, a), b) == Without(s, a + b)
  {
    if s != [] {
      var init, last := s[..|s| - 1], s[|s| - 1];
      WithoutTwice(init, a, b);
      var w := Without(init, a);
      assert Without(s, a + b) == Without(init, a + b) + (if last in a + b then [] else [last]);
      if last in a {
        assert Without(s, a) == w;
      } else {
        var wl := w + [last];
        assert Without(s, a) == wl;
        assert wl[..|wl| - 1] == w && wl[|wl| - 1] == last;
        assert Without(wl, b) == Without(w, b) + (if last in b then [] else [last]);
      }
    }
  }

  /** Removing names of which the sequence holds none changes nothing. */
  lemma {:induction false} WithoutNone<T>(s: seq<T>, gone: set<T>)
    requires forall x :: x in s ==> x !in gone
    ensures Without(s, gone) == s
  {
    if s != [] {
      var init := s[..|s| - 1];
      WithoutNone(init, gone);
      assert s == init + [s[|s| - 1]];
    }
  }
}
