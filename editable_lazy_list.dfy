/** EditableLazyList: a LazyList with an uncommitted overlay of added, updated and removed
    entities. Reads merge the backend rows with the added entities in the ordered provider's
    comparison order.

    The backend is abstracted as `db`, the rows the inherited get(i) and size() stand for; the
    paging machinery behind them is modelled in LazyLists. The ordered provider's compare is the
    function `cmp`. */
module EditableLazyLists {
  import opened Common
  import opened LazyLists

  /** The merge get walks: backend and added entities interleaved, the backend element going
      first only when it compares strictly smaller, so ties pick the added element. */
  function Merge<T>(d: seq<T>, a: seq<T>, cmp: (T, T) -> int): (r: seq<T>)
    ensures |r| == |d| + |a|
    decreases |d| + |a|
  {
    if |d| == 0 then a
    else if |a| == 0 then d
    else if cmp(d[0], a[0]) < 0 then [d[0]] + Merge(d[1..], a, cmp)
    else [a[0]] + Merge(d, a[1..], cmp)
  }

  /** The merge holds exactly the backend rows and the added entities, with multiplicities. */
  lemma {:induction false} MergeMultiset<T>(d: seq<T>, a: seq<T>, cmp: (T, T) -> int)
    ensures multiset(Merge(d, a, cmp)) == multiset(d) + multiset(a)
    decreases |d| + |a|
  {
    if |d| > 0 && |a| > 0 {
      if cmp(d[0], a[0]) < 0 {
        MergeMultiset(d[1..], a, cmp);
        assert d == [d[0]] + d[1..];
      } else {
        MergeMultiset(d, a[1..], cmp);
        assert a == [a[0]] + a[1..];
      }
    }
  }

  /** cmp orders entities: a negative result is the reverse of a positive one, any two are
      comparable one way, and "not greater" is transitive. */
  ghost predicate TotalPreorder<T(!new)>(cmp: (T, T) -> int)
  {
    && (forall x, y :: cmp(x, y) < 0 <==> cmp(y, x) > 0)
    && (forall x, y, z :: cmp(x, y) <= 0 && cmp(y, z) <= 0 ==> cmp(x, z) <= 0)
  }

  ghost predicate Sorted<T>(s: seq<T>, cmp: (T, T) -> int)
  {
    forall i, j :: 0 <= i < j < |s| ==> cmp(s[i], s[j]) <= 0
  }

  /** Every element of the merge is at least the smaller of the two heads. */
  lemma {:induction false} MergeAboveHeads<T(!new)>(d: seq<T>, a: seq<T>, cmp: (T, T) -> int, x: T)
    requires TotalPreorder(cmp) && Sorted(d, cmp) && Sorted(a, cmp)
    requires |d| > 0 ==> cmp(x, d[0]) <= 0
    requires |a| > 0 ==> cmp(x, a[0]) <= 0
    ensures forall k :: 0 <= k < |Merge(d, a, cmp)| ==> cmp(x, Merge(d, a, cmp)[k]) <= 0
  {
    var m := Merge(d, a, cmp);
    MergeMultiset(d, a, cmp);
    forall k | 0 <= k < |m|
      ensures cmp(x, m[k]) <= 0
    {
      assert m[k] in multiset(d) + multiset(a);
      if m[k] in d {
        var j :| 0 <= j < |d| && d[j] == m[k];
        assert j == 0 || cmp(d[0], d[j]) <= 0;
      } else {
        assert m[k] in a;
        var j :| 0 <= j < |a| && a[j] == m[k];
        assert j == 0 || cmp(a[0], a[j]) <= 0;
      }
    }
  }

  /** A head no greater than anything after it, in front of a sorted sequence, keeps it sorted. */
  lemma SortedCons<T>(h: T, rest: seq<T>, cmp: (T, T) -> int)
    requires Sorted(rest, cmp)
    requires forall k :: 0 <= k < |rest| ==> cmp(h, rest[k]) <= 0
    ensures Sorted([h] + rest, cmp)
  {
    var m := [h] + rest;
    forall i, j | 0 <= i < j < |m|
      ensures cmp(m[i], m[j]) <= 0
    {
      assert m[j] == rest[j - 1];
      if i > 0 {
        assert m[i] == rest[i - 1];
      }
    }
  }

  /** Merging two sorted sequences gives a sorted sequence. */
  lemma {:induction false} MergeSorted<T(!new)>(d: seq<T>, a: seq<T>, cmp: (T, T) -> int)
    requires TotalPreorder(cmp) && Sorted(d, cmp) && Sorted(a, cmp)
    ensures Sorted(Merge(d, a, cmp), cmp)
    decreases |d| + |a|
  {
    if |d| > 0 && |a| > 0 {
      if cmp(d[0], a[0]) < 0 {
        MergeSorted(d[1..], a, cmp);
        MergeAboveHeads(d[1..], a, cmp, d[0]);
        SortedCons(d[0], Merge(d[1..], a, cmp), cmp);
      } else {
        MergeSorted(d, a[1..], cmp);
        MergeAboveHeads(d, a[1..], cmp, a[0]);
        SortedCons(a[0], Merge(d, a[1..], cmp), cmp);
      }
    }
  }

  /** An entity appended to the added list that every backend row precedes comes out last,
      wherever the other added entities fall. */
  lemma {:induction false} AddedAfterBackendComesLast<T>(d: seq<T>, a: seq<T>, cmp: (T, T) -> int, x: T)
    requires forall k :: 0 <= k < |d| ==> cmp(d[k], x) < 0
    ensures Merge(d, a + [x], cmp)[|d| + |a|] == x
    decreases |d| + |a|
  {
    var ax := a + [x];
    if |d| > 0 {
      if cmp(d[0], ax[0]) < 0 {
        AddedAfterBackendComesLast(d[1..], a, cmp, x);
      } else {
        assert |a| > 0;
        assert ax[1..] == a[1..] + [x];
        AddedAfterBackendComesLast(d, a[1..], cmp, x);
      }
    }
  }

  /** One step of the walk: the merge from a position on is the merge of the two remainders. */
  lemma MergeStep<T>(d: seq<T>, a: seq<T>, cmp: (T, T) -> int, iDb: nat, iAdded: nat)
    requires iDb < |d| && iAdded < |a|
    ensures cmp(d[iDb], a[iAdded]) < 0 ==>
      Merge(d[iDb..], a[iAdded..], cmp) == [d[iDb]] + Merge(d[iDb + 1..], a[iAdded..], cmp)
    ensures !(cmp(d[iDb], a[iAdded]) < 0) ==>
      Merge(d[iDb..], a[iAdded..], cmp) == [a[iAdded]] + Merge(d[iDb..], a[iAdded + 1..], cmp)
  {
    assert d[iDb..][1..] == d[iDb + 1..];
    assert a[iAdded..][1..] == a[iAdded + 1..];
  }

  /** The walk has passed i positions of m, iDb of them backend rows and iAdded of them added
      entities: what remains of m is the merge of what remains of each side. */
  ghost predicate WalkedTo<T>(m: seq<T>, d: seq<T>, a: seq<T>, cmp: (T, T) -> int, i: nat, iDb: nat, iAdded: nat)
  {
    iDb <= |d| && iAdded <= |a| && i <= |m| && m[i..] == Merge(d[iDb..], a[iAdded..], cmp)
  }

  /** The walk's invariant is kept by one step: whichever head goes first, the merge from the
      next position on is the merge of what remains. */
  lemma MergeAdvance<T>(m: seq<T>, d: seq<T>, a: seq<T>, cmp: (T, T) -> int, i: nat, iDb: nat, iAdded: nat)
    requires iDb < |d| && iAdded < |a| && WalkedTo(m, d, a, cmp, i, iDb, iAdded)
    ensures i < |m|
    ensures cmp(d[iDb], a[iAdded]) < 0 ==> WalkedTo(m, d, a, cmp, i + 1, iDb + 1, iAdded)
    ensures !(cmp(d[iDb], a[iAdded]) < 0) ==> WalkedTo(m, d, a, cmp, i + 1, iDb, iAdded + 1)
  {
    MergeStep(d, a, cmp, iDb, iAdded);
    assert m[i + 1..] == m[i..][1..];
  }

  /** The backend rows with every removed entity taken out. */
  function Visible<T(==,!new)>(d: seq<T>, removed: seq<T>): (r: seq<T>)
    ensures forall x :: x in r <==> x in d && x !in removed
    ensures |r| <= |d|
  {
    if |d| == 0 then []
    else if d[0] in removed then Visible(d[1..], removed)
    else [d[0]] + Visible(d[1..], removed)
  }

  class EditableLazyList<T(==,!new)> {
    /** The backend rows as the inherited get(i) and size() see them. */
    var db: seq<T>
    const cmp: (T, T) -> int
    var added: seq<T>
    var updated: seq<T>
    var removed: seq<T>
    /** Cleared on every change and never filled. */
    var elementPositions: map<T, int>

    constructor (db: seq<T>, cmp: (T, T) -> int)
      ensures this.db == db && this.cmp == cmp
      ensures added == [] && updated == [] && removed == [] && elementPositions == map[]
    {
      this.db := db;
      this.cmp := cmp;
      added := [];
      updated := [];
      removed := [];
      elementPositions := map[];
    }

    /** What a walk over the list meets, before size() cuts it short: the merge of the backend
        rows with the added entities. */
    ghost function Merged(): seq<T>
      reads this
    {
      Merge(db, added, cmp)
    }

    /** size(): backend count plus added minus removed. The merged listing holds every backend
        row and every added entity; size hides as many of them as there are removals. */
    function Size(): (n: int)
      reads this
      ensures n == |Merged()| - |removed|
    {
      |db| + |added| - |removed|
    }

    /** The elements iteration yields: the first size() positions of the merge. */
    ghost function Listed(): seq<T>
      reads this
    {
      if Size() <= 0 then [] else Merged()[..Size()]
    }

    /** add: ArrayList.add always succeeds, so the item is appended and true returned. */
    method Add(item: T) returns (r: bool)
      modifies this`added, this`elementPositions
      ensures r && added == old(added) + [item] && elementPositions == map[]
      ensures Size() == old(Size()) + 1
    {
      added := added + [item];
      elementPositions := map[];
      r := true;
    }

    /** remove: an added item is dropped from the added list; anything else is dropped from the
        updated list and appended to the removed list, even when absent or already removed. */
    method Remove(item: T) returns (r: bool)
      modifies this`added, this`updated, this`removed, this`elementPositions
      ensures r && elementPositions == map[]
      ensures item in old(added) ==>
        added == RemoveFirst(old(added), item) && updated == old(updated) && removed == old(removed)
      ensures item !in old(added) ==>
        added == old(added) && updated == RemoveFirst(old(updated), item) && removed == old(removed) + [item]
      ensures Size() == old(Size()) - 1
    {
      if item in added {
        added := RemoveFirst(added, item);
        assert |multiset(added)| == |multiset(old(added))| - 1;
      } else {
        if item in updated {
          updated := RemoveFirst(updated, item);
        }
        removed := removed + [item];
      }
      elementPositions := map[];
      r := true;
    }

    /** update: an added or updated item moves to the end of its list; a removed one is
        refused; a backend row the overlay does not know is appended to the removed list. */
    method Update(item: T) returns (r: bool)
      modifies this`added, this`updated, this`removed
      ensures r <==> item in old(added) || item in old(updated) || (item !in old(removed) && item in db)
      ensures item in old(added) ==>
        added == RemoveFirst(old(added), item) + [item] && updated == old(updated) && removed == old(removed)
      ensures item !in old(added) && item in old(updated) ==>
        added == old(added) && updated == RemoveFirst(old(updated), item) + [item] && removed == old(removed)
      ensures item !in old(added) && item !in old(updated) ==>
        added == old(added) && updated == old(updated)
        && removed == old(removed) + (if item !in old(removed) && item in db then [item] else [])
      ensures old(updated) == [] ==> updated == []
    {
      if item in added {
        added := RemoveFirst(added, item) + [item];
        r := true;
      } else if item in updated {
        updated := RemoveFirst(updated, item) + [item];
        r := true;
      } else if item in removed {
        r := false;
      } else if item in db {
        removed := removed + [item];
        r := true;
      } else {
        r := false;
      }
    }

    /** update as evidently intended: a backend row the overlay does not know joins the updated
        list, so it stays in the list and the size does not change. */
    method UpdateFixed(item: T) returns (r: bool)
      modifies this`added, this`updated, this`removed
      ensures r <==> item in old(added) || item in old(updated) || (item !in old(removed) && item in db)
      ensures removed == old(removed) && Size() == old(Size())
      ensures r ==> item in added || item in updated
      ensures item in old(added) ==>
        added == RemoveFirst(old(added), item) + [item] && updated == old(updated)
      ensures item !in old(added) && item in old(updated) ==>
        added == old(added) && updated == RemoveFirst(old(updated), item) + [item]
      ensures item !in old(added) && item !in old(updated) ==>
        added == old(added)
        && updated == old(updated) + (if item !in old(removed) && item in db then [item] else [])
    {
      if item in added {
        added := RemoveFirst(added, item) + [item];
        assert |multiset(added)| == |multiset(old(added))|;
        r := true;
      } else if item in updated {
        updated := RemoveFirst(updated, item) + [item];
        r := true;
      } else if item in removed {
        r := false;
      } else if item in db {
        updated := updated + [item];
        r := true;
      } else {
        r := false;
      }
    }

    /** contains: added or updated entities are in, removed ones out, anything else is asked of
        the backend. */
    method Contains(o: T) returns (r: bool)
      ensures o in added || o in updated ==> r
      ensures o !in added && o !in updated && o in removed ==> !r
      ensures o !in added && o !in updated && o !in removed ==> (r <==> o in db)
    {
      if o in added || o in updated {
        r := true;
      } else if o in removed {
        r := false;
      } else {
        r := o in db;
      }
    }

    /** clearCache: forgets the positions; the backend page cache is LazyLists' concern. */
    method ClearCache()
      modifies this`elementPositions
      ensures elementPositions == map[]
    {
      elementPositions := map[];
    }

    /** getMostRecentVersion: backend row k, or the updated entity equal to it. */
    function MostRecentVersion(k: int): (r: T)
      requires 0 <= k < |db|
      reads this
      ensures r == db[k]
    {
      var element := db[k];
      var updatedIndex := Common.IndexOf(updated, element);
      if updatedIndex == -1 then element else updated[updatedIndex]
    }

    /** The counting loop of get: i positions are passed, iDb of them backend rows and iAdded
        of them added entities; it stops at index or when one side runs out. */
    method WalkTo(index: int) returns (i: int, iDb: int, iAdded: int)
      requires 0 <= index < |Merged()|
      ensures 0 <= iDb <= |db| && 0 <= iAdded <= |added| && i == iDb + iAdded && i <= index
      ensures i == index || iAdded == |added| || iDb == |db|
      ensures Merged()[i..] == Merge(db[iDb..], added[iAdded..], cmp)
    {
      i, iDb, iAdded := 0, 0, 0;
      ghost var m := Merged();
      assert db[0..] == db && added[0..] == added;
      while i < index && iAdded < |added| && iDb < |db|
        invariant 0 <= iDb && 0 <= iAdded && i == iDb + iAdded && i <= index
        invariant WalkedTo(m, db, added, cmp, i, iDb, iAdded)
        decreases index - i
      {
        var dbElement := MostRecentVersion(iDb);
        var addedElement := added[iAdded];
        MergeAdvance(m, db, added, cmp, i, iDb, iAdded);
        if cmp(dbElement, addedElement) < 0 {
          iDb := iDb + 1;
        } else {
          iAdded := iAdded + 1;
        }
        i := i + 1;
      }
    }

    /** get: after the walk, the element at index is the smaller head when both sides remain,
        and otherwise is read from the side that remains. The result is the element at index of
        the merge; removed entities are not skipped. */
    method Get(index: int) returns (out: Outcome<T>)
      ensures 0 <= index < Size() ==> out == Ok(Merged()[index])
      ensures !(0 <= index < Size()) ==> out == Thrown(IndexOutOfBounds)
    {
      if index < 0 || index >= Size() {
        return Thrown(IndexOutOfBounds);
      }
      var i, iDb, iAdded := WalkTo(index);
      ghost var rest := Merge(db[iDb..], added[iAdded..], cmp);
      assert Merged()[index] == rest[index - i];
      if i == index && iAdded < |added| && iDb < |db| {
        var dbElement := MostRecentVersion(iDb);
        var addedElement := added[iAdded];
        MergeStep(db, added, cmp, iDb, iAdded);
        if cmp(dbElement, addedElement) < 0 {
          out := Ok(dbElement);
        } else {
          out := Ok(addedElement);
        }
      } else if i <= index && iDb < |db| {
        assert added[iAdded..] == [] && rest == db[iDb..];
        out := if iDb + index - i < |db| then Ok(db[iDb + index - i]) else Thrown(IndexOutOfBounds);
      } else {
        assert db[iDb..] == [] && rest == added[iAdded..];
        out := if iAdded + index - i < |added| then Ok(added[iAdded + index - i]) else Thrown(IndexOutOfBounds);
      }
    }

    /** indexOf: walks the list through iterator(), whose next() is get, and reports the first
        position holding o, or -1. */
    method IndexOf(o: T) returns (r: int)
      ensures r == Common.IndexOf(Listed(), o)
    {
      var n := Size();
      var index := 0;
      while index < n
        invariant 0 <= index && (n > 0 ==> index <= n) && |Listed()| == (if n > 0 then n else 0)
        invariant forall j :: 0 <= j < index && j < |Listed()| ==> Listed()[j] != o
        decreases n - index
      {
        var next := Get(index);
        if next.value == o {
          return index;
        }
        index := index + 1;
      }
      return -1;
    }

    /** get as evidently intended: the merge of the backend rows that were not removed with the
        added entities. */
    function GetVisible(index: int): (out: Outcome<T>)
      reads this
      ensures out.Ok? <==> 0 <= index < |Visible(db, removed)| + |added|
      ensures out.Ok? ==> out.value in added || (out.value in db && out.value !in removed)
    {
      var listing := Merge(Visible(db, removed), added, cmp);
      if 0 <= index < |listing| then
        MergeMultiset(Visible(db, removed), added, cmp);
        assert listing[index] in multiset(listing);
        Ok(listing[index])
      else
        Thrown(IndexOutOfBounds)
    }
  }

  /** With the code as written, a removed backend row is still listed: after remove(1) on the
      rows [1, 2] the list has size 1 and get(0) returns 1, while 2 can no longer be reached. */
  method RemovedRowStillListed() returns (size: int, first: Outcome<int>)
    ensures size == 1 && first == Ok(1)
  {
    var list := new EditableLazyList<int>([1, 2], (x: int, y: int) => x - y);
    var ok := list.Remove(1);
    size := list.Size();
    first := list.Get(0);
  }

  /** With the code as written, updating a backend row drops it from the list. */
  method UpdateDropsRow() returns (updatedOk: bool, stillThere: bool, size: int)
    ensures updatedOk && !stillThere && size == 0
  {
    var list := new EditableLazyList<int>([1], (x: int, y: int) => x - y);
    updatedOk := list.Update(1);
    stillThere := list.Contains(1);
    size := list.Size();
  }

  /** With nothing removed, add(x) then get(size() - 1) returns x when x sorts after every
      backend row. */
  method AddThenGetLast<T(==,!new)>(list: EditableLazyList<T>, x: T) returns (out: Outcome<T>)
    requires list.removed == [] && forall k :: 0 <= k < |list.db| ==> list.cmp(list.db[k], x) < 0
    modifies list
    ensures out == Ok(x)
  {
    var ok := list.Add(x);
    AddedAfterBackendComesLast(list.db, old(list.added), list.cmp, x);
    out := list.Get(list.Size() - 1);
  }
}
