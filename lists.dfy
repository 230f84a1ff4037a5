/** The two ways the handlers delete from a java.util.ArrayList. */
module Lists {

  /** No element occurs twice: every task, link and icon is its own object. */
  predicate Distinct<T(==)>(s: seq<T>) {
    forall i, j :: 0 <= i < j < |s| ==> s[i] != s[j]
  }

  /** ArrayList.remove(int index): the element at j goes, the later ones
      move down by one place. */
  function RemoveAt<T>(s: seq<T>, j: nat): (r: seq<T>)
    requires j < |s|
    ensures |r| == |s| - 1
    ensures forall i :: 0 <= i < j ==> r[i] == s[i]
    ensures forall i :: j <= i < |r| ==> r[i] == s[i + 1]
  {
    s[..j] + s[j + 1..]
  }

  /** RemoveAt keeps a Distinct list Distinct and drops exactly the removed element. */
  lemma RemoveAtDistinct<T>(s: seq<T>, j: nat)
    requires j < |s| && Distinct(s)
    ensures Distinct(RemoveAt(s, j))
    ensures s[j] !in RemoveAt(s, j)
    ensures forall x :: x in RemoveAt(s, j) <==> x in s && x != s[j]
  {
    var r := RemoveAt(s, j);
    forall x ensures x in r <==> x in s && x != s[j] {
      if x in r {
        var i :| 0 <= i < |r| && r[i] == x;
        if i < j { assert s[i] == x; } else { assert s[i + 1] == x; }
      }
      if x in s && x != s[j] {
        var i :| 0 <= i < |s| && s[i] == x;
        if i < j { assert r[i] == x; } else { assert r[i - 1] == x; }
      }
    }
  }

  /** Removing at i + 1 keeps the head and removes at i in the tail. */
  lemma RemoveAtCons<T>(s: seq<T>, i: nat)
    requires i + 1 < |s|
    ensures RemoveAt(s, i + 1) == [s[0]] + RemoveAt(s[1..], i)
  {
    assert s[..i + 1] == [s[0]] + s[1..][..i];
  }

  /** Index of the first occurrence of x (ArrayList.indexOf). */
  function IndexOf<T(==)>(s: seq<T>, x: T): (i: nat)
    requires x in s
    ensures i < |s| && s[i] == x
    ensures forall k :: 0 <= k < i ==> s[k] != x
  {
    if s[0] == x then 0 else 1 + IndexOf(s[1..], x)
  }

  /** ArrayList.remove(Object o): removes the first element equal to o, if
      there is one. Link does not override equals, so for links equality is
      object identity. */
  function RemoveFirst<T(==)>(s: seq<T>, x: T): (r: seq<T>)
    ensures |r| == if x in s then |s| - 1 else |s|
    ensures forall y :: y in r ==> y in s
  {
    if s == [] then []
    else if s[0] == x then s[1..]
    else [s[0]] + RemoveFirst(s[1..], x)
  }

  /** RemoveFirst deletes the first occurrence and shifts the rest, and is
      the identity when x is absent. */
  lemma {:induction false} RemoveFirstIsRemoveAt<T>(s: seq<T>, x: T)
    ensures x in s ==> RemoveFirst(s, x) == RemoveAt(s, IndexOf(s, x))
    ensures x !in s ==> RemoveFirst(s, x) == s
  {
    if s != [] && s[0] != x {
      RemoveFirstIsRemoveAt(s[1..], x);
      if x in s {
        assert x in s[1..];
        RemoveAtCons(s, IndexOf(s[1..], x));
      }
    }
  }

  /** Removing an element from a list of distinct elements leaves it absent
      and every other element in place. */
  lemma RemoveFirstDistinct<T>(s: seq<T>, x: T)
    requires Distinct(s)
    ensures Distinct(RemoveFirst(s, x))
    ensures x !in RemoveFirst(s, x)
    ensures forall y :: y in RemoveFirst(s, x) <==> y in s && y != x
  {
    RemoveFirstIsRemoveAt(s, x);
    if x in s {
      RemoveAtDistinct(s, IndexOf(s, x));
    }
  }
}
