/** Facts about duplicate-free lists, used for the snake's body and the
    apple's candidate cells. */
module Sequences {

  /** True when no value occurs twice in `s`: the first element is not
      repeated later, and the same holds of the rest. */
  predicate Distinct<T(==)>(s: seq<T>) {
    |s| == 0 || (s[0] !in s[1..] && Distinct(s[1..]))
  }

  lemma {:induction false} DistinctConcat<T>(a: seq<T>, b: seq<T>)
    requires Distinct(a) && Distinct(b)
    requires forall e :: e in a ==> e !in b
    ensures Distinct(a + b)
  {
    if |a| == 0 {
      assert a + b == b;
    } else {
      assert (a + b)[1..] == a[1..] + b;
      DistinctConcat(a[1..], b);
      assert a[0] !in a[1..] && a[0] !in b;
    }
  }

  /** Dropping the last element keeps a list duplicate-free. */
  lemma {:induction false} DistinctDropLast<T>(s: seq<T>)
    requires Distinct(s) && |s| > 0
    ensures Distinct(s[..|s| - 1])
  {
    if |s| > 1 {
      var init := s[..|s| - 1];
      assert init[1..] == s[1..][..|s[1..]| - 1];
      DistinctDropLast(s[1..]);
      assert s[0] !in init[1..];
    }
  }

  lemma {:induction false} DistinctCard<T>(s: seq<T>)
    requires Distinct(s)
    ensures |set e | e in s| == |s|
  {
    if s != [] {
      DistinctCard(s[1..]);
      assert (set e | e in s) == {s[0]} + (set e | e in s[1..]);
    }
  }

  lemma {:induction false} CardAtMostLength<T>(s: seq<T>)
    ensures |set e | e in s| <= |s|
  {
    if s != [] {
      CardAtMostLength(s[1..]);
      assert (set e | e in s) == {s[0]} + (set e | e in s[1..]);
    }
  }

  /** A list holding every element of a duplicate-free list is at least as long. */
  lemma CoverIsLonger<T>(s: seq<T>, t: seq<T>)
    requires Distinct(s)
    requires forall e :: e in s ==> e in t
    ensures |s| <= |t|
  {
    DistinctCard(s);
    CardAtMostLength(t);
    var a, b := set e | e in s, set e | e in t;
    assert a <= b;
    assert |b| == |a| + |b - a| by {
      assert b == a + (b - a);
    }
  }
}
