/** The list operations the registries rely on (System.Collections.Generic.List semantics). */
module Lists {

  /** Position of the first element equal to `x`. */
  function FirstIndex<T(==)>(s: seq<T>, x: T): (i: nat)
    requires x in s
    ensures i < |s| && s[i] == x && x !in s[..i]
  {
    if s[0] == x then 0
    else
      var j := FirstIndex(s[1..], x);
      assert s[..j + 1] == [s[0]] + s[1..][..j];
      j + 1
  }

  /** List<T>.Remove: drops the first element equal to `x`; a list without `x` is returned unchanged. */
  function RemoveFirst<T(==)>(s: seq<T>, x: T): (r: seq<T>)
  {
    if s == [] then []
    else if s[0] == x then s[1..]
    else [s[0]] + RemoveFirst(s[1..], x)
  }

  /** Exactly the first occurrence is cut out; everything before and after keeps its order. */
  lemma {:induction false} RemoveFirstCutsFirstOccurrence<T>(s: seq<T>, x: T)
    ensures x !in s ==> RemoveFirst(s, x) == s
    ensures x in s ==> RemoveFirst(s, x) == s[..FirstIndex(s, x)] + s[FirstIndex(s, x) + 1..]
  {
    if s != [] && s[0] != x {
      var tail := s[1..];
      RemoveFirstCutsFirstOccurrence(tail, x);
      if x in s {
        assert x in tail;
        var j := FirstIndex(tail, x);
        assert FirstIndex(s, x) == j + 1;
        calc {
          RemoveFirst(s, x);
          [s[0]] + RemoveFirst(tail, x);
          [s[0]] + (tail[..j] + tail[j + 1..]);
          { assert s[..j + 1] == [s[0]] + tail[..j]; assert s[j + 2..] == tail[j + 1..]; }
          s[..j + 1] + s[j + 2..];
        }
      } else {
        assert s == [s[0]] + tail;
      }
    }
  }

  /** As a multiset, removing takes away one copy of `x` when there is one. */
  lemma {:induction false} RemoveFirstMultiset<T>(s: seq<T>, x: T)
    ensures |RemoveFirst(s, x)| == if x in s then |s| - 1 else |s|
    ensures multiset(RemoveFirst(s, x)) == multiset(s) - multiset{x}
  {
    RemoveFirstCutsFirstOccurrence(s, x);
    if x in s {
      var i := FirstIndex(s, x);
      assert s == s[..i] + [x] + s[i + 1..];
      assert multiset(s) == multiset(s[..i]) + multiset{x} + multiset(s[i + 1..]);
    } else {
      assert multiset(s)[x] == 0;
    }
  }

  /** Appending `x` and then removing `x` gives back the same multiset, and the very same
      list when `x` was not there before. */
  lemma {:induction false} RemoveAfterAppend<T>(s: seq<T>, x: T)
    ensures multiset(RemoveFirst(s + [x], x)) == multiset(s)
    ensures x !in s ==> RemoveFirst(s + [x], x) == s
  {
    RemoveFirstMultiset(s + [x], x);
    assert multiset(s + [x]) == multiset(s) + multiset{x};
    if x !in s {
      RemoveFirstCutsFirstOccurrence(s + [x], x);
      var i := FirstIndex(s + [x], x);
      assert i == |s|;
      assert (s + [x])[..|s|] == s;
    }
  }
}
