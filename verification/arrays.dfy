/** The handful of TArray operations the core relies on, modelled on sequences. */
module Arrays {

  /** TArray::Find: the index of the first occurrence, or -1 (INDEX_NONE) when absent. */
  function Find<T(==)>(s: seq<T>, x: T): (r: int)
    ensures -1 <= r < |s|
    ensures r == -1 <==> x !in s
    ensures 0 <= r ==> s[r] == x && forall i :: 0 <= i < r ==> s[i] != x
  {
    if |s| == 0 then -1
    else if s[0] == x then 0
    else
      var k := Find(s[1..], x);
      if k == -1 then -1 else k + 1
  }

  /** C++ truthiness of an int used as a condition. */
  predicate Truthy(i: int) {
    i != 0
  }

  /** TArray::Remove: drops every occurrence of x, keeping the order of the rest. */
  function RemoveAll<T(==)>(s: seq<T>, x: T): (r: seq<T>)
    ensures x !in r
    ensures forall y :: y in r ==> y in s
    ensures forall y :: y in s && y != x ==> y in r
    ensures x !in s ==> r == s
    ensures |r| <= |s|
    ensures NoDuplicates(s) ==> NoDuplicates(r)
    ensures multiset(r) == multiset(s)[x := 0]
    ensures |s| > 0 && s[0] != x ==> |r| > 0 && r[0] == s[0]
  {
    if |s| == 0 then []
    else
      assert s == [s[0]] + s[1..];
      assert multiset(s) == multiset([s[0]]) + multiset(s[1..]);
      var rest := RemoveAll(s[1..], x);
      if s[0] == x then rest
      else
        var r := [s[0]] + rest;
        assert multiset(r) == multiset([s[0]]) + multiset(rest);
        assert NoDuplicates(s) ==> NoDuplicates(r) by {
          if NoDuplicates(s) {
            assert s[0] !in s[1..];
            forall j | 0 < j < |r|
              ensures r[j] != r[0]
            {
              assert r[j] == rest[j - 1];
            }
          }
        }
        r
  }

  /**
    TArray::Remove is stable: of two kept elements, the one whose first occurrence came first
    still comes first, so the element heading the array after a removal is the first kept one.
   */
  lemma {:induction false} RemoveAllKeepsOrder<T>(s: seq<T>, x: T, y: T, z: T)
    requires y != x && z != x && y in s && z in s
    ensures Find(s, y) < Find(s, z) <==> Find(RemoveAll(s, x), y) < Find(RemoveAll(s, x), z)
  {
    var r := RemoveAll(s, x);
    if s[0] == x {
      assert y in s[1..] && z in s[1..];
      RemoveAllKeepsOrder(s[1..], x, y, z);
    } else if y != s[0] && z != s[0] {
      assert y in s[1..] && z in s[1..];
      assert r[1..] == RemoveAll(s[1..], x);
      RemoveAllKeepsOrder(s[1..], x, y, z);
    }
  }

  /** Removing an element appended to an array that did not hold it gives the array back. */
  lemma {:induction false} RemoveAllAppendFresh<T>(s: seq<T>, x: T)
    requires x !in s
    ensures RemoveAll(s + [x], x) == s
  {
    if |s| > 0 {
      assert (s + [x])[1..] == s[1..] + [x];
      RemoveAllAppendFresh(s[1..], x);
    }
  }

  predicate NoDuplicates<T(==)>(s: seq<T>) {
    forall i, j :: 0 <= i < j < |s| ==> s[i] != s[j]
  }

  lemma AppendFreshKeepsNoDuplicates<T>(s: seq<T>, x: T)
    ensures NoDuplicates(s) && x !in s ==> NoDuplicates(s + [x])
  {
    if NoDuplicates(s) && x !in s {
      var t := s + [x];
      forall i, j | 0 <= i < j < |t|
        ensures t[i] != t[j]
      {
        if j == |s| {
          assert t[i] == s[i];
        } else {
          assert t[i] == s[i] && t[j] == s[j];
        }
      }
    }
  }
}
