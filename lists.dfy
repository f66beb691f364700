/**
 * The behaviour of .NET's List<T> / IList operations that the drag-and-drop
 * code relies on, stated on sequences: Contains is `in`, Add appends,
 * IndexOf finds the first occurrence and Remove drops the first occurrence.
 */
module Lists {

  /** No element occurs twice: the shape every registry list is kept in. */
  predicate NoDuplicates<T(==)>(s: seq<T>) {
    forall i, j :: 0 <= i < j < |s| ==> s[i] != s[j]
  }

  /** List.IndexOf: the position of the first occurrence of x, or -1. */
  function IndexOf<T(==)>(s: seq<T>, x: T): (i: int)
    ensures -1 <= i < |s|
    ensures i == -1 <==> x !in s
    ensures 0 <= i ==> s[i] == x && x !in s[..i]
  {
    if s == [] then -1
    else if s[0] == x then 0
    else
      var k := IndexOf(s[1..], x);
      if k == -1 then -1
      else
        assert s[..k + 1] == [s[0]] + s[1..][..k];
        k + 1
  }

  /**
   * List.Remove: takes out the first occurrence of x and keeps the order of
   * everything else; a list without x is left as it is.
   */
  function Remove<T(==)>(s: seq<T>, x: T): (r: seq<T>)
    ensures x !in s ==> r == s
    ensures x in s ==> |r| == |s| - 1
  {
    if s == [] then []
    else if s[0] == x then s[1..]
    else
      assert s == [s[0]] + s[1..];
      [s[0]] + Remove(s[1..], x)
  }

  /** Remove takes exactly one x out of the multiset of elements, if there is one. */
  lemma {:induction false} RemoveMultiset<T>(s: seq<T>, x: T)
    ensures multiset(Remove(s, x)) == multiset(s) - multiset{x}
  {
    if s != [] {
      assert s == [s[0]] + s[1..];
      if s[0] != x {
        RemoveMultiset(s[1..], x);
      }
    }
  }

  /** Remove creates no element: whatever is left was there before. */
  lemma RemoveKeepsOnlyOld<T>(s: seq<T>, x: T, y: T)
    requires y in Remove(s, x)
    ensures y in s
  {
    RemoveMultiset(s, x);
    assert multiset(Remove(s, x))[y] > 0;
  }

  /** Remove agrees with its reference definition: cut the list at IndexOf. */
  lemma {:induction false} RemoveAtIndexOf<T>(s: seq<T>, x: T)
    requires x in s
    ensures Remove(s, x) == s[..IndexOf(s, x)] + s[IndexOf(s, x) + 1..]
  {
    if s[0] != x {
      var t := s[1..];
      RemoveAtIndexOf(t, x);
      var k := IndexOf(t, x);
      assert s[..k + 1] == [s[0]] + t[..k];
      assert s[k + 2..] == t[k + 1..];
    }
  }

  /** In a duplicate-free list an element that is present occurs exactly once. */
  lemma {:induction false} OccursOnce<T>(s: seq<T>, x: T)
    requires NoDuplicates(s) && x in s
    ensures multiset(s)[x] == 1
  {
    assert s == [s[0]] + s[1..];
    assert NoDuplicates(s[1..]) by {
      forall i, j | 0 <= i < j < |s[1..]| ensures s[1..][i] != s[1..][j] {
        assert s[1..][i] == s[i + 1] && s[1..][j] == s[j + 1];
      }
    }
    if s[0] == x {
      assert x !in s[1..] by {
        forall j | 0 <= j < |s[1..]| ensures s[1..][j] != x {
          assert s[1..][j] == s[j + 1];
        }
      }
    } else {
      OccursOnce(s[1..], x);
    }
  }

  /** Cutting one position out of a duplicate-free list keeps it duplicate-free. */
  lemma CutKeepsNoDuplicates<T>(s: seq<T>, i: nat)
    requires NoDuplicates(s) && i < |s|
    ensures NoDuplicates(s[..i] + s[i + 1..])
  {
    var r := s[..i] + s[i + 1..];
    forall p, q | 0 <= p < q < |r| ensures r[p] != r[q] {
      var p', q' := if p < i then p else p + 1, if q < i then q else q + 1;
      assert r[p] == s[p'] && r[q] == s[q'];
    }
  }

  /** Removing from a duplicate-free list keeps it duplicate-free and leaves no x. */
  lemma RemoveKeepsNoDuplicates<T>(s: seq<T>, x: T)
    requires NoDuplicates(s)
    ensures NoDuplicates(Remove(s, x))
    ensures x !in Remove(s, x)
  {
    if x in s {
      OccursOnce(s, x);
      RemoveMultiset(s, x);
      assert multiset(Remove(s, x))[x] == 0;
      RemoveAtIndexOf(s, x);
      CutKeepsNoDuplicates(s, IndexOf(s, x));
    }
  }

  /** List.Add of an absent element keeps the list duplicate-free. */
  lemma AppendKeepsNoDuplicates<T>(s: seq<T>, x: T)
    requires NoDuplicates(s) && x !in s
    ensures NoDuplicates(s + [x])
  {
  }
}
