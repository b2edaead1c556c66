/** Sequence helpers shared by the phone list and the address book's key order. */
module Sequences {
  import opened Wrappers

  /** No element occurs twice. */
  ghost predicate Distinct<T>(s: seq<T>)
  {
    forall i, j :: 0 <= i < j < |s| ==> s[i] != s[j]
  }

  /** The elements of `s` that differ from `x`, in their original order
      (the comprehension `[p for p in s if p != x]`, and deletion from a key order). */
  function Without<T(==)>(s: seq<T>, x: T): (r: seq<T>)
    ensures x !in r
    ensures forall i :: 0 <= i < |r| ==> r[i] in s
    ensures forall i :: 0 <= i < |s| && s[i] != x ==> s[i] in r
    ensures |r| <= |s|
  {
    if s == [] then []
    else (if s[0] == x then [] else [s[0]]) + Without(s[1..], x)
  }

  /** Removing an absent element changes nothing. */
  lemma {:induction false} WithoutAbsent<T>(s: seq<T>, x: T)
    requires x !in s
    ensures Without(s, x) == s
  {
    if s != [] {
      WithoutAbsent(s[1..], x);
    }
  }

  /** Exactly the occurrences of `x` are dropped: every other element keeps its multiplicity. */
  lemma {:induction false} WithoutMultiset<T>(s: seq<T>, x: T)
    ensures multiset(Without(s, x)) == multiset(s)[x := 0]
  {
    if s != [] {
      WithoutMultiset(s[1..], x);
      assert s == [s[0]] + s[1..];
      assert multiset(s) == multiset([s[0]]) + multiset(s[1..]);
      var head := if s[0] == x then [] else [s[0]];
      assert Without(s, x) == head + Without(s[1..], x);
      assert multiset(Without(s, x)) == multiset(head) + multiset(Without(s[1..], x));
    }
  }

  /** Removal works piecewise, so elements keep their relative order. */
  lemma {:induction false} WithoutAppend<T>(a: seq<T>, b: seq<T>, x: T)
    ensures Without(a + b, x) == Without(a, x) + Without(b, x)
  {
    if a == [] {
      assert a + b == b;
    } else {
      assert (a + b)[1..] == a[1..] + b;
      WithoutAppend(a[1..], b, x);
    }
  }

  /** Removal keeps a sequence free of duplicates. */
  lemma {:induction false} WithoutDistinct<T>(s: seq<T>, x: T)
    requires Distinct(s)
    ensures Distinct(Without(s, x))
  {
    if s != [] {
      assert Distinct(s[1..]) by {
        forall i, j | 0 <= i < j < |s[1..]| ensures s[1..][i] != s[1..][j] {
          assert s[1..][i] == s[i + 1] && s[1..][j] == s[j + 1];
        }
      }
      WithoutDistinct(s[1..], x);
      assert s[0] !in s[1..] by {
        forall j | 0 <= j < |s[1..]| ensures s[1..][j] != s[0] {
          assert s[1..][j] == s[j + 1];
        }
      }
    }
  }

  /** The lowest index holding `x`, or `None` exactly when `x` does not occur. */
  function IndexOf<T(==)>(s: seq<T>, x: T): (r: Option<nat>)
    ensures r.None? <==> x !in s
    ensures r.Some? ==> r.value < |s| && s[r.value] == x
    ensures r.Some? ==> forall j :: 0 <= j < r.value ==> s[j] != x
  {
    if s == [] then None
    else if s[0] == x then Some(0)
    else match IndexOf(s[1..], x)
      case None => None
      case Some(i) => Some(i + 1)
  }
}
