/** Sequence helpers mirroring the JavaScript array operations the registry
    uses: `filter(id => id !== x)`, `find(id => id !== x)`, and the order a
    `Map` keeps for its keys. */
module Sequences {

  /** No element occurs twice. */
  predicate NoDuplicates<T(==,!new)>(s: seq<T>) {
    forall i, j :: 0 <= i < j < |s| ==> s[i] != s[j]
  }

  /** `s.filter(y => y !== x)`: every occurrence of `x` dropped, the rest
      kept in order. */
  function Without<T(==,!new)>(s: seq<T>, x: T): (r: seq<T>)
    ensures forall y :: y in r <==> y in s && y != x
    ensures |r| <= |s|
    ensures x !in s ==> r == s
    ensures NoDuplicates(s) ==> NoDuplicates(r)
  {
    if |s| == 0 then []
    else if s[0] == x then Without(s[1..], x)
    else
      var rest := Without(s[1..], x);
      assert NoDuplicates(s) ==> NoDuplicates(s[1..]) && s[0] !in s[1..] by {
        if NoDuplicates(s) {
          forall i, j | 0 <= i < j < |s[1..]| ensures s[1..][i] != s[1..][j] {
            assert s[1..][i] == s[i + 1] && s[1..][j] == s[j + 1];
          }
        }
      }
      [s[0]] + rest
  }

  /** In a duplicate-free sequence, filtering out the element at index `i`
      is deleting position `i`: everything before and after keeps its
      place. */
  lemma {:induction false} WithoutDeletesAt<T(!new)>(s: seq<T>, i: nat)
    requires NoDuplicates(s)
    requires i < |s|
    ensures Without(s, s[i]) == s[..i] + s[i + 1..]
    ensures |Without(s, s[i])| == |s| - 1
  {
    if i == 0 {
      assert s[0] !in s[1..];
    } else {
      var x := s[i];
      assert s[1..][i - 1] == x;
      WithoutDeletesAt(s[1..], i - 1);
      assert s[0] != x;
      calc {
        Without(s, x);
        [s[0]] + Without(s[1..], x);
        [s[0]] + (s[1..][..i - 1] + s[1..][i..]);
        { assert s[1..][..i - 1] == s[1..i]; assert s[1..][i..] == s[i + 1..]; }
        [s[0]] + (s[1..i] + s[i + 1..]);
        { assert [s[0]] + s[1..i] == s[..i]; }
        s[..i] + s[i + 1..];
      }
    }
  }

  /** The index `Array.prototype.find(y => y !== x)` stops at: every earlier
      element is `x`, and the element there (if any) is not. */
  function IndexOfFirstOther<T(==,!new)>(s: seq<T>, x: T): (i: nat)
    ensures i <= |s|
    ensures forall j :: 0 <= j < i ==> s[j] == x
    ensures i < |s| ==> s[i] != x
  {
    if |s| == 0 || s[0] != x then 0
    else 1 + IndexOfFirstOther(s[1..], x)
  }

  /** In a duplicate-free sequence containing `x`, the first element other
      than `x` is the unique other element when there are exactly two. */
  lemma {:induction false} FirstOtherOfPair<T(!new)>(s: seq<T>, x: T)
    requires NoDuplicates(s)
    requires |s| == 2
    requires x in s
    ensures IndexOfFirstOther(s, x) < |s|
    ensures s[IndexOfFirstOther(s, x)] != x
    ensures forall y :: y in s && y != x ==> s[IndexOfFirstOther(s, x)] == y
  {
    assert s[0] != s[1];
  }

  /** The elements of `s` that belong to `keep`, in their order in `s`. */
  function Restrict<T(==,!new)>(s: seq<T>, keep: set<T>): (r: seq<T>)
    ensures forall y :: y in r <==> y in s && y in keep
    ensures |r| <= |s|
  {
    if |s| == 0 then []
    else if s[0] in keep then [s[0]] + Restrict(s[1..], keep)
    else Restrict(s[1..], keep)
  }

  lemma {:induction false} RestrictAll<T(!new)>(s: seq<T>, keep: set<T>)
    requires forall y :: y in s ==> y in keep
    ensures Restrict(s, keep) == s
  {
    if |s| > 0 {
      RestrictAll(s[1..], keep);
      assert [s[0]] + s[1..] == s;
    }
  }

  /** Filtering out one element is restricting to every other element. */
  lemma {:induction false} WithoutIsRestrict<T(!new)>(s: seq<T>, keep: set<T>, x: T)
    requires forall y :: y in s ==> y in keep
    ensures Without(s, x) == Restrict(s, keep - {x})
  {
    if |s| > 0 {
      WithoutIsRestrict(s[1..], keep, x);
    }
  }

  /** Restricting twice is restricting once to the smaller set. */
  lemma {:induction false} RestrictRestrict<T(!new)>(s: seq<T>, a: set<T>, b: set<T>)
    requires b <= a
    ensures Restrict(Restrict(s, a), b) == Restrict(s, b)
  {
    if |s| > 0 {
      RestrictRestrict(s[1..], a, b);
      if s[0] in a {
        assert ([s[0]] + Restrict(s[1..], a))[1..] == Restrict(s[1..], a);
      }
    }
  }
}
