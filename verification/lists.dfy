/** The Python list operations the game rules lean on, with Python's own
    meaning: `remove` deletes the first element equal to its argument, and
    a pass of `if x in s: s.remove(x)` over a list of values deletes one
    occurrence per value. */
module PyLists {

  predicate Distinct<T(==)>(s: seq<T>) {
    forall i, j :: 0 <= i < j < |s| ==> s[i] != s[j]
  }

  /** `s.remove(x)`: the first element equal to `x` goes. */
  function Remove<T(==)>(s: seq<T>, x: T): (r: seq<T>)
    requires x in s
    ensures |r| == |s| - 1
    ensures multiset(r) == multiset(s) - multiset{x}
    ensures forall v :: v in r ==> v in s
  {
    assert s == [s[0]] + s[1..];
    if s[0] == x then s[1..] else [s[0]] + Remove(s[1..], x)
  }

  /** When no element before position `k` equals `s[k]`, removing that
      value removes position `k` itself. */
  lemma {:induction false} RemoveAt<T>(s: seq<T>, k: nat)
    requires k < |s|
    requires s[k] !in s[..k]
    ensures Remove(s, s[k]) == s[..k] + s[k + 1..]
  {
    if k > 0 {
      var t := s[1..];
      assert s[..k][0] == s[0];
      assert s[..k] == [s[0]] + t[..k - 1];
      assert t[k - 1] == s[k];
      RemoveAt(t, k - 1);
      RemoveStep(s, s[k]);
      assert t[k..] == s[k + 1..];
      AppendAssoc([s[0]], t[..k - 1], t[k..]);
    }
  }

  /** A head that differs from the value stays in front. */
  lemma RemoveStep<T>(s: seq<T>, x: T)
    requires x in s && s[0] != x
    ensures Remove(s, x) == [s[0]] + Remove(s[1..], x)
  {
  }

  lemma AppendAssoc<T>(a: seq<T>, b: seq<T>, c: seq<T>)
    ensures a + (b + c) == (a + b) + c
  {
  }

  /** `for x in xs: if x in s: s.remove(x)`. */
  function RemoveEach<T(==)>(s: seq<T>, xs: seq<T>): (r: seq<T>)
    ensures |r| <= |s|
    ensures forall v :: v in r ==> v in s
    decreases xs
  {
    if xs == [] then s
    else RemoveEach(if xs[0] in s then Remove(s, xs[0]) else s, xs[1..])
  }

  /** The elements of `s` that are not in `xs`, in their order. */
  function Without<T(==,!new)>(s: seq<T>, xs: seq<T>): (r: seq<T>)
    ensures forall v :: v in r <==> v in s && v !in xs
  {
    if s == [] then []
    else
      assert s == [s[0]] + s[1..];
      (if s[0] in xs then [] else [s[0]]) + Without(s[1..], xs)
  }

  /** The elements of `s` satisfying `p`, in their order. */
  function Filter<T(!new)>(s: seq<T>, p: T -> bool): (r: seq<T>)
    ensures |r| <= |s|
    ensures forall v :: v in r <==> v in s && p(v)
  {
    if s == [] then []
    else
      assert s == [s[0]] + s[1..];
      (if p(s[0]) then [s[0]] else []) + Filter(s[1..], p)
  }

  /** The elements of `s` not satisfying `p`, in their order. */
  function Reject<T(!new)>(s: seq<T>, p: T -> bool): (r: seq<T>)
    ensures |r| <= |s|
    ensures forall v :: v in r <==> v in s && !p(v)
  {
    if s == [] then []
    else
      assert s == [s[0]] + s[1..];
      (if p(s[0]) then [] else [s[0]]) + Reject(s[1..], p)
  }

  /** A head that none of the removals names is left in place. */
  lemma {:induction false} RemoveEachKeepsHead<T>(a: T, t: seq<T>, xs: seq<T>)
    requires a !in xs
    ensures RemoveEach([a] + t, xs) == [a] + RemoveEach(t, xs)
    decreases xs
  {
    if xs != [] {
      var x := xs[0];
      assert ([a] + t)[1..] == t;
      assert x in [a] + t <==> x in t;
      var t' := if x in t then Remove(t, x) else t;
      if x in t {
        assert Remove([a] + t, x) == [a] + Remove(t, x);
      }
      assert a !in xs[1..] by {
        assert forall v :: v in xs[1..] ==> v in xs;
      }
      RemoveEachKeepsHead(a, t', xs[1..]);
    }
  }

  /** A head that occurs nowhere else goes at its first mention and later
      mentions find nothing to remove. */
  lemma {:induction false} RemoveEachTakesHead<T>(a: T, t: seq<T>, xs: seq<T>)
    requires a !in t
    requires a in xs
    ensures RemoveEach([a] + t, xs) == RemoveEach(t, xs)
    decreases xs
  {
    var x := xs[0];
    assert ([a] + t)[1..] == t;
    if x == a {
      assert a !in t;
    } else {
      assert a in xs[1..] by {
        assert xs == [x] + xs[1..];
      }
      var t' := if x in t then Remove(t, x) else t;
      if x in t {
        assert Remove([a] + t, x) == [a] + Remove(t, x);
      }
      RemoveEachTakesHead(a, t', xs[1..]);
    }
  }

  /** Removing the elements of `s` that satisfy `p`, value by value, leaves
      exactly those that do not, in order: an earlier element equal to a
      removed one satisfies `p` too, so it was due to go anyway. */
  lemma {:induction false} RemoveEachOwnFilter<T(!new)>(s: seq<T>, p: T -> bool)
    ensures RemoveEach(s, Filter(s, p)) == Reject(s, p)
    decreases |s|
  {
    if s != [] {
      var a, t := s[0], s[1..];
      assert s == [a] + t;
      RemoveEachOwnFilter(t, p);
      if p(a) {
        assert Filter(s, p) == [a] + Filter(t, p);
        assert (Filter(s, p))[1..] == Filter(t, p);
        assert Remove(s, a) == t;
      } else {
        assert Filter(s, p) == Filter(t, p);
        RemoveEachKeepsHead(a, t, Filter(t, p));
      }
    }
  }

  lemma DistinctTail<T>(s: seq<T>)
    requires Distinct(s)
    requires s != []
    ensures s[0] !in s[1..]
    ensures Distinct(s[1..])
  {
    forall v | v in s[1..] ensures v != s[0] {
      var j :| 0 <= j < |s[1..]| && s[1..][j] == v;
      assert s[j + 1] == v;
    }
  }

  /** On a list without repeats, the removal pass keeps exactly the
      elements not named, in order. */
  lemma {:induction false} RemoveEachDistinct<T(!new)>(s: seq<T>, xs: seq<T>)
    requires Distinct(s)
    ensures RemoveEach(s, xs) == Without(s, xs)
    decreases |s|
  {
    if s == [] {
      RemoveEachEmpty(s, xs);
    } else {
      var a, t := s[0], s[1..];
      assert s == [a] + t;
      DistinctTail(s);
      RemoveEachDistinct(t, xs);
      if a in xs {
        RemoveEachTakesHead(a, t, xs);
      } else {
        RemoveEachKeepsHead(a, t, xs);
      }
    }
  }

  lemma {:induction false} RemoveEachEmpty<T>(s: seq<T>, xs: seq<T>)
    requires s == []
    ensures RemoveEach(s, xs) == []
    decreases xs
  {
    if xs != [] {
      RemoveEachEmpty(s, xs[1..]);
    }
  }

  /** A list without repeats keeps that property when elements are dropped. */
  lemma {:induction false} WithoutDistinct<T(!new)>(s: seq<T>, xs: seq<T>)
    requires Distinct(s)
    ensures Distinct(Without(s, xs))
    decreases |s|
  {
    if s != [] {
      DistinctTail(s);
      WithoutDistinct(s[1..], xs);
      var w := Without(s[1..], xs);
      assert s[0] !in w;
      if s[0] !in xs {
        var r := [s[0]] + w;
        forall i, j | 0 <= i < j < |r| ensures r[i] != r[j] {
          if i == 0 {
            assert r[j] == w[j - 1];
          } else {
            assert r[i] == w[i - 1] && r[j] == w[j - 1];
          }
        }
      }
    }
  }
}
