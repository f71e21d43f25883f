/**
 * Sequence helpers shared by the scripts: distinctness, the set of a
 * sequence's elements (Python's `set(xs)`), and pandas' order-keeping
 * `unique()`.
 */
module Seqs {

  predicate Distinct<T(==)>(s: seq<T>) {
    forall i, j :: 0 <= i < j < |s| ==> s[i] != s[j]
  }

  function Elements<T>(s: seq<T>): set<T> {
    set x | x in s
  }

  /** `len(set(xs)) == len(xs)` holds exactly when no element repeats. */
  lemma {:induction false} ElementsSize<T>(s: seq<T>)
    ensures |Elements(s)| <= |s|
    ensures |Elements(s)| == |s| <==> Distinct(s)
  {
    if |s| > 0 {
      var t := s[1..];
      ElementsSize(t);
      DistinctCons(s);
      assert Elements(s) == {s[0]} + Elements(t) by {
        assert s == [s[0]] + t;
      }
      if s[0] in t {
        assert Elements(s) == Elements(t);
      } else {
        assert |Elements(s)| == |Elements(t)| + 1;
      }
    }
  }

  /** A sequence is free of repeats exactly when its head is not repeated and its tail is free of repeats. */
  lemma DistinctCons<T>(s: seq<T>)
    requires |s| > 0
    ensures Distinct(s) <==> s[0] !in s[1..] && Distinct(s[1..])
  {
    var t := s[1..];
    if s[0] in t {
      var k :| 0 <= k < |t| && t[k] == s[0];
      assert s[k + 1] == s[0];
    }
    if s[0] !in t && Distinct(t) {
      forall i, j | 0 <= i < j < |s|
        ensures s[i] != s[j]
      {
        assert s[j] == t[j - 1];
        if i > 0 {
          assert s[i] == t[i - 1];
        }
      }
    }
    if Distinct(s) {
      forall i, j | 0 <= i < j < |t|
        ensures t[i] != t[j]
      {
        assert t[i] == s[i + 1] && t[j] == s[j + 1];
      }
    }
  }

  /** The index of the first occurrence of `x` in `s`. */
  function IndexOf<T(==)>(s: seq<T>, x: T): (i: nat)
    requires x in s
    ensures i < |s| && s[i] == x
    ensures forall k :: 0 <= k < i ==> s[k] != x
  {
    if s[0] == x then 0 else 1 + IndexOf(s[1..], x)
  }

  /** An element of a prefix first occurs in the whole sequence where it first occurs in the prefix. */
  lemma IndexOfPrefix<T>(s: seq<T>, n: nat, x: T)
    requires n <= |s| && x in s[..n]
    ensures x in s && IndexOf(s, x) == IndexOf(s[..n], x)
  {
    var j := IndexOf(s[..n], x);
    assert s[j] == x;
    assert forall k :: 0 <= k < j ==> s[k] == s[..n][k];
    var i := IndexOf(s, x);
    assert !(j < i) && !(i < j);
  }

  /**
   * `pd.Index(xs).unique()`: every element once, at the place of its first
   * occurrence. Defined by appending the elements of `s` one at a time.
   */
  function Unique<T(==, !new)>(s: seq<T>): (u: seq<T>)
    ensures Distinct(u)
    ensures forall x :: x in u <==> x in s
    ensures |u| <= |s|
  {
    if |s| == 0 then []
    else
      var prefix := s[..|s| - 1];
      var init := Unique(prefix);
      var last := s[|s| - 1];
      assert forall x :: x in s <==> x in prefix || x == last by {
        assert s == prefix + [last];
      }
      if last in init then init else init + [last]
  }

  /** The distinct elements come in the order of their first occurrence in the input. */
  lemma {:induction false} UniqueOrder<T(!new)>(s: seq<T>)
    ensures FirstOccurrenceOrder(s, Unique(s))
  {
    if |s| > 0 {
      var prefix, last := s[..|s| - 1], s[|s| - 1];
      assert s == prefix + [last];
      UniqueOrder(prefix);
      UniqueSnoc(prefix, last);
      FirstOccurrenceSnoc(prefix, Unique(prefix), last);
    }
  }

  /** The elements of `u`, all drawn from `s`, come in the order of their first occurrence in `s`. */
  predicate FirstOccurrenceOrder<T(==)>(s: seq<T>, u: seq<T>)
    requires forall k :: 0 <= k < |u| ==> u[k] in s
  {
    forall i, j :: 0 <= i < j < |u| ==> IndexOf(s, u[i]) < IndexOf(s, u[j])
  }

  /** Appending an element to the input keeps the order, and a new element goes last. */
  lemma FirstOccurrenceSnoc<T>(p: seq<T>, u: seq<T>, x: T)
    requires forall k :: 0 <= k < |u| ==> u[k] in p
    requires FirstOccurrenceOrder(p, u)
    ensures forall k :: 0 <= k < |u| ==> u[k] in p + [x]
    ensures FirstOccurrenceOrder(p + [x], u)
    ensures x !in p ==> FirstOccurrenceOrder(p + [x], u + [x])
  {
    var s := p + [x];
    assert s[..|p|] == p;
    forall k | 0 <= k < |u|
      ensures u[k] in s && IndexOf(s, u[k]) == IndexOf(p, u[k]) < |p|
    {
      IndexOfPrefix(s, |p|, u[k]);
    }
    if x !in p {
      assert forall k :: 0 <= k < |p| ==> s[k] == p[k];
      assert IndexOf(s, x) == |p|;
      var v := u + [x];
      forall i, j | 0 <= i < j < |v|
        ensures IndexOf(s, v[i]) < IndexOf(s, v[j])
      {
        assert v[i] == u[i];
        if j < |u| {
          assert v[j] == u[j];
        }
      }
    }
  }

  /** Appending one element to the input appends it to the output unless it was seen before. */
  lemma UniqueSnoc<T(!new)>(s: seq<T>, x: T)
    ensures Unique(s + [x]) == if x in s then Unique(s) else Unique(s) + [x]
  {
    assert (s + [x])[..|s|] == s;
  }

  /** Deduplication does nothing to a sequence without repeats. */
  lemma {:induction false} UniqueOfDistinct<T(!new)>(s: seq<T>)
    requires Distinct(s)
    ensures Unique(s) == s
  {
    if |s| > 0 {
      var init := s[..|s| - 1];
      UniqueOfDistinct(init);
      assert s[|s| - 1] !in init;
      assert init + [s[|s| - 1]] == s;
    }
  }

  /** Deduplicating twice is deduplicating once. */
  lemma UniqueIdempotent<T(!new)>(s: seq<T>)
    ensures Unique(Unique(s)) == Unique(s)
  {
    UniqueOfDistinct(Unique(s));
  }
}
