/** Sequence helpers shared by the collection models: the behaviour of
    java.util.List.indexOf / remove(Object) and of an insertion-ordered set. */
module Common {

  datatype Option<T> = None | Some(value: T)

  /** java.util.List.indexOf: position of the first element equal to x, or -1. */
  function IndexOf<T(==)>(s: seq<T>, x: T): (r: int)
    ensures -1 <= r < |s|
    ensures r == -1 <==> x !in s
    ensures r >= 0 ==> s[r] == x && forall j :: 0 <= j < r ==> s[j] != x
  {
    if |s| == 0 then -1
    else if s[0] == x then 0
    else
      var k := IndexOf(s[1..], x);
      if k == -1 then -1 else k + 1
  }

  /** java.util.List.remove(Object): drops the first element equal to x, if any. */
  function RemoveFirst<T(==)>(s: seq<T>, x: T): (r: seq<T>)
    ensures x !in s ==> r == s
    ensures multiset(r) == multiset(s) - multiset{x}
  {
    if |s| == 0 then []
    else if s[0] == x then
      assert s == [s[0]] + s[1..];
      s[1..]
    else
      assert s == [s[0]] + s[1..];
      [s[0]] + RemoveFirst(s[1..], x)
  }

  /** The element removed is the one at IndexOf: the prefix before it and the suffix after it are kept. */
  lemma {:induction false} RemoveFirstAt<T>(s: seq<T>, x: T)
    requires x in s
    ensures RemoveFirst(s, x) == s[..IndexOf(s, x)] + s[IndexOf(s, x) + 1..]
  {
    if s[0] != x {
      RemoveFirstAt(s[1..], x);
      ConsAroundGap(s, IndexOf(s[1..], x));
    }
  }

  /** Putting the head back in front of the tail with position k cut out is s with position k + 1 cut out. */
  lemma ConsAroundGap<T>(s: seq<T>, k: nat)
    requires k + 1 < |s|
    ensures [s[0]] + (s[1..][..k] + s[1..][k + 1..]) == s[..k + 1] + s[k + 2..]
  {
    assert s[1..][..k] == s[1..k + 1] && s[1..][k + 1..] == s[k + 2..];
    assert [s[0]] + s[1..k + 1] == s[..k + 1];
  }

  /** No element occurs twice: the shape of a java.util.LinkedHashSet kept in insertion order. */
  ghost predicate NoDup<T(!new)>(s: seq<T>)
  {
    forall y :: multiset(s)[y] <= 1
  }

  /** LinkedHashSet.add: appends x unless an equal element is already present (which keeps its place). */
  function SetAdd<T(==,!new)>(s: seq<T>, x: T): (r: seq<T>)
    ensures NoDup(s) ==> NoDup(r)
    ensures x in r && (forall y :: y in r <==> y in s || y == x)
  {
    if x in s then s else s + [x]
  }

  /** LinkedHashSet.remove: drops x; the others keep their relative order. */
  lemma SetRemove<T(!new)>(s: seq<T>, x: T)
    requires NoDup(s)
    ensures NoDup(RemoveFirst(s, x))
    ensures forall y :: y in RemoveFirst(s, x) <==> y in s && y != x
  {
    var r := RemoveFirst(s, x);
    forall y ensures y in r <==> y in s && y != x {
      assert y in r <==> multiset(r)[y] > 0;
      assert y in s <==> multiset(s)[y] > 0;
    }
  }
}
