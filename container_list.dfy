/** ContainerList: an eager list over a data provider. Every row is loaded once, at
    construction; changes are tracked in three insertion-ordered sets (added, modified, removed)
    and a key-to-element index (the codex), and are sent to the provider only by commit.

    The provider is not called here: its replies are parameters, and every call is recorded in
    the log `calls`. The key generator is the function `key`. */
module ContainerLists {
  import opened Common
  import opened LazyLists

  /** The three kinds of write commit sends, in the order commit sends them. */
  datatype Phase = Removing | Updating | Adding

  /** A call made to the data provider. */
  datatype ProviderCall<T> =
    | CountCall
    | GetCall(first: int, count: int)
    | Apply(phase: Phase, element: T)

  function PhaseRank(p: Phase): int
  {
    match p
    case Removing => 0
    case Updating => 1
    case Adding => 2
  }

  /** One provider call of the given kind per element, in order. */
  function CallsFor<T>(phase: Phase, s: seq<T>): (c: seq<ProviderCall<T>>)
    ensures |c| == |s|
    ensures forall i :: 0 <= i < |s| ==> c[i] == Apply(phase, s[i])
  {
    if |s| == 0 then [] else [Apply(phase, s[0])] + CallsFor(phase, s[1..])
  }

  /** What commit sends: every removal, then every modification, then every addition. */
  function CommitCalls<T>(removed: seq<T>, modified: seq<T>, added: seq<T>): seq<ProviderCall<T>>
  {
    CallsFor(Removing, removed) + CallsFor(Updating, modified) + CallsFor(Adding, added)
  }

  /** The call commit makes at each position: removals first, then updates, then additions. */
  lemma CommitCallsAt<T>(removed: seq<T>, modified: seq<T>, added: seq<T>)
    ensures var c := CommitCalls(removed, modified, added);
      && |c| == |removed| + |modified| + |added|
      && forall i :: 0 <= i < |c| ==>
           c[i] == if i < |removed| then Apply(Removing, removed[i])
                   else if i < |removed| + |modified| then Apply(Updating, modified[i - |removed|])
                   else Apply(Adding, added[i - |removed| - |modified|])
  {
  }

  lemma CommitRemovals<T>(removed: seq<T>, modified: seq<T>, added: seq<T>)
    ensures forall x :: Apply(Removing, x) in CommitCalls(removed, modified, added) <==> x in removed
  {
    var c := CommitCalls(removed, modified, added);
    CommitCallsAt(removed, modified, added);
    forall x
      ensures Apply(Removing, x) in c <==> x in removed
    {
      if x in removed {
        var i :| 0 <= i < |removed| && removed[i] == x;
        assert c[i] == Apply(Removing, x);
      }
    }
  }

  lemma CommitUpdates<T>(removed: seq<T>, modified: seq<T>, added: seq<T>)
    ensures forall x :: Apply(Updating, x) in CommitCalls(removed, modified, added) <==> x in modified
  {
    var c := CommitCalls(removed, modified, added);
    CommitCallsAt(removed, modified, added);
    forall x
      ensures Apply(Updating, x) in c <==> x in modified
    {
      if x in modified {
        var i :| 0 <= i < |modified| && modified[i] == x;
        assert c[|removed| + i] == Apply(Updating, x);
      }
    }
  }

  lemma CommitAdditions<T>(removed: seq<T>, modified: seq<T>, added: seq<T>)
    ensures forall x :: Apply(Adding, x) in CommitCalls(removed, modified, added) <==> x in added
  {
    var c := CommitCalls(removed, modified, added);
    CommitCallsAt(removed, modified, added);
    forall x
      ensures Apply(Adding, x) in c <==> x in added
    {
      if x in added {
        var i :| 0 <= i < |added| && added[i] == x;
        assert c[|removed| + |modified| + i] == Apply(Adding, x);
      }
    }
  }

  /** commit's calls come in phase order, and a call is made for exactly the pending elements. */
  lemma CommitCallsSpec<T>(removed: seq<T>, modified: seq<T>, added: seq<T>)
    ensures var c := CommitCalls(removed, modified, added);
      && |c| == |removed| + |modified| + |added|
      && (forall i, j :: 0 <= i < j < |c| ==> c[i].Apply? && c[j].Apply? && PhaseRank(c[i].phase) <= PhaseRank(c[j].phase))
      && (forall x :: Apply(Removing, x) in c <==> x in removed)
      && (forall x :: Apply(Updating, x) in c <==> x in modified)
      && (forall x :: Apply(Adding, x) in c <==> x in added)
  {
    CommitCallsAt(removed, modified, added);
    CommitRemovals(removed, modified, added);
    CommitUpdates(removed, modified, added);
    CommitAdditions(removed, modified, added);
  }

  /** The codex built from a list, one put per element in list order. */
  function CodexOf<T, K>(s: seq<T>, key: T -> K): map<K, T>
  {
    if |s| == 0 then map[] else CodexOf(s[..|s| - 1], key)[key(s[|s| - 1]) := s[|s| - 1]]
  }

  /** The codex holds exactly the keys of the list, and each key maps to the last element
      carrying it. */
  lemma {:induction false} CodexOfLastWins<T, K(!new)>(s: seq<T>, key: T -> K)
    ensures forall k :: k in CodexOf(s, key) <==> exists i :: 0 <= i < |s| && key(s[i]) == k
    ensures forall k :: k in CodexOf(s, key) ==> exists i :: (0 <= i < |s| && s[i] == CodexOf(s, key)[k] &&
      key(s[i]) == k && forall j :: i < j < |s| ==> key(s[j]) != k)
  {
    if |s| > 0 {
      var init, n := s[..|s| - 1], |s| - 1;
      var previous, m := CodexOf(init, key), CodexOf(s, key);
      CodexOfLastWins(init, key);
      assert m == previous[key(s[n]) := s[n]];
      assert forall i :: 0 <= i < n ==> s[i] == init[i];
      forall k
        ensures k in m <==> exists i :: 0 <= i < |s| && key(s[i]) == k
      {
        if k == key(s[n]) {
          assert 0 <= n < |s| && key(s[n]) == k;
        } else if exists i :: 0 <= i < |s| && key(s[i]) == k {
          var i :| 0 <= i < |s| && key(s[i]) == k;
          assert 0 <= i < |init| && key(init[i]) == k;
        }
      }
      forall k | k in m
        ensures exists i :: (0 <= i < |s| && s[i] == m[k] && key(s[i]) == k &&
          forall j :: i < j < |s| ==> key(s[j]) != k)
      {
        if k != key(s[n]) {
          assert k in previous && m[k] == previous[k];
          var i :| 0 <= i < |init| && init[i] == previous[k] && key(init[i]) == k &&
            forall j :: i < j < |init| ==> key(init[j]) != k;
          assert s[i] == m[k] && key(s[i]) == k;
        } else {
          assert s[n] == m[k];
        }
      }
    }
  }

  /** The change sets after removeElement: an added element leaves the added set; any other
      leaves the modified set and joins the removed set. */
  function AfterRemoval<T(==,!new)>(added: seq<T>, modified: seq<T>, removed: seq<T>, x: T): (seq<T>, seq<T>, seq<T>)
  {
    if x in added then (RemoveFirst(added, x), modified, removed)
    else (added, RemoveFirst(modified, x), SetAdd(removed, x))
  }

  lemma AfterRemovalKeepsSets<T(!new)>(added: seq<T>, modified: seq<T>, removed: seq<T>, x: T)
    requires NoDup(added) && NoDup(modified) && NoDup(removed)
    ensures var (a, m, r) := AfterRemoval(added, modified, removed, x);
      && NoDup(a) && NoDup(m) && NoDup(r)
      && x !in a && (x !in added ==> x !in m)
      && (x in added ==> m == modified && r == removed)
      && (x !in added ==> a == added && x in r)
  {
    SetRemove(added, x);
    SetRemove(modified, x);
  }

  /** The change sets after removeElement(x) and then addElement(x): x ends up in the added set,
      and it is also in the removed set unless it was added before. */
  function AfterReinsertion<T(==,!new)>(added: seq<T>, modified: seq<T>, removed: seq<T>, x: T): (seq<T>, seq<T>, seq<T>)
  {
    var (a, m, r) := AfterRemoval(added, modified, removed, x);
    (SetAdd(a, x), m, r)
  }

  /** After set(i, e) the previous occupant p is pending as added, and, unless it was added
      before, also as removed: a commit would both remove and add p. */
  lemma ReinsertionSchedulesPrevious<T(!new)>(added: seq<T>, modified: seq<T>, removed: seq<T>, x: T)
    requires NoDup(added) && NoDup(modified) && NoDup(removed)
    ensures var (a, m, r) := AfterReinsertion(added, modified, removed, x);
      && NoDup(a) && NoDup(m) && NoDup(r)
      && x in a && (x !in added ==> x in r && x !in m)
      && (x in added ==> m == modified && r == removed)
  {
    AfterRemovalKeepsSets(added, modified, removed, x);
  }

  lemma MapRemoveThenPut<K, V>(m: map<K, V>, k: K, v: V)
    ensures (m - {k})[k := v] == m[k := v]
  {
  }

  class ContainerList<T(==,!new), K(==,!new)> {
    const key: T -> K
    var view: seq<T>
    var added: seq<T>
    var modified: seq<T>
    var removed: seq<T>
    var codex: map<K, T>
    var calls: seq<ProviderCall<T>>

    /** The change sets hold no element twice (they are LinkedHashSets). */
    ghost predicate Valid()
      reads this
    {
      NoDup(added) && NoDup(modified) && NoDup(removed)
    }

    /** The provider reports countReply rows and get(0, countReply) returns rows. */
    constructor (countReply: nat, rows: seq<T>, key: T -> K)
      ensures Valid() && this.key == key
      ensures view == rows && codex == CodexOf(rows, key)
      ensures added == [] && modified == [] && removed == []
      ensures calls == [CountCall, GetCall(0, countReply)]
    {
      this.key := key;
      view := rows;
      added := [];
      modified := [];
      removed := [];
      calls := [CountCall, GetCall(0, countReply)];
      var index: map<K, T> := map[];
      for k := 0 to |rows|
        invariant index == CodexOf(rows[..k], key)
      {
        assert rows[..k + 1][..k] == rows[..k];
        index := index[key(rows[k]) := rows[k]];
      }
      assert rows[..|rows|] == rows;
      codex := index;
    }

    /** addElement: the element joins the added set and the codex under its key. */
    method AddElement(element: T)
      requires Valid()
      modifies this`added, this`codex
      ensures Valid()
      ensures added == SetAdd(old(added), element) && codex == old(codex)[key(element) := element]
    {
      added := SetAdd(added, element);
      codex := codex[key(element) := element];
    }

    /** removeElement: the element's key leaves the codex; an added element just leaves the
        added set, any other leaves the modified set and joins the removed set. */
    method RemoveElement(element: T)
      requires Valid()
      modifies this`added, this`modified, this`removed, this`codex
      ensures Valid()
      ensures codex == old(codex) - {key(element)}
      ensures (added, modified, removed) == AfterRemoval(old(added), old(modified), old(removed), element)
      ensures element !in added && (element !in old(added) ==> element !in modified)
    {
      AfterRemovalKeepsSets(added, modified, removed, element);
      var sets := AfterRemoval(added, modified, removed, element);
      added, modified, removed := sets.0, sets.1, sets.2;
      codex := codex - {key(element)};
    }

    /** update(original, modified): the original's slot in the view takes the new version, which
        replaces the original in the added set when the original was added there, and otherwise
        in the modified set. An original not in the view changes nothing. */
    method Update(original: T, replacement: T)
      requires Valid()
      modifies this`view, this`added, this`modified
      ensures Valid()
      ensures original !in old(view) ==> view == old(view) && added == old(added) && modified == old(modified)
      ensures original in old(view) ==>
        && view == old(view)[IndexOf(old(view), original) := replacement]
        && (original in old(added) ==>
              added == SetAdd(RemoveFirst(old(added), original), replacement) && modified == old(modified))
        && (original !in old(added) ==>
              added == old(added) && modified == SetAdd(RemoveFirst(old(modified), original), replacement))
    {
      var i := IndexOf(view, original);
      if i == -1 {
        return;
      }
      view := view[i := replacement];
      SetRemove(added, original);
      SetRemove(modified, original);
      if original in added {
        added := SetAdd(RemoveFirst(added, original), replacement);
      } else {
        if original in modified {
          modified := RemoveFirst(modified, original);
        }
        modified := SetAdd(modified, replacement);
      }
    }

    /** update(original): the same entity, marked as modified in place. */
    method UpdateInPlace(original: T)
      requires Valid()
      modifies this`view, this`added, this`modified
      ensures Valid() && view == old(view)
      ensures original in old(view) && original !in old(added) ==> original in modified && added == old(added)
      ensures original in old(view) && original in old(added) ==> original in added && modified == old(modified)
      ensures original !in old(view) ==> added == old(added) && modified == old(modified)
    {
      Update(original, original);
    }

    /** set(index, element): element takes the slot and the previous occupant is returned; the
        bookkeeping is then applied to the previous occupant, which is removed and added again.
        The new element is registered nowhere. */
    method Set(index: int, element: T) returns (out: Outcome<T>)
      requires Valid()
      modifies this`view, this`added, this`modified, this`removed, this`codex
      ensures Valid()
      ensures !(0 <= index < |old(view)|) ==>
        && out == Thrown(IndexOutOfBounds) && view == old(view)
        && added == old(added) && modified == old(modified) && removed == old(removed) && codex == old(codex)
      ensures 0 <= index < |old(view)| ==>
        var previous := old(view)[index];
        && out == Ok(previous) && view == old(view)[index := element]
        && codex == old(codex)[key(previous) := previous]
        && (added, modified, removed) == AfterReinsertion(old(added), old(modified), old(removed), previous)
    {
      if !(0 <= index < |view|) {
        return Thrown(IndexOutOfBounds);
      }
      var previous := view[index];
      view := view[index := element];
      ghost var before := codex;
      RemoveElement(previous);
      AddElement(previous);
      MapRemoveThenPut(before, key(previous), previous);
      out := Ok(previous);
    }

    /** set as evidently intended: the previous occupant is removed and the new element added. */
    method SetFixed(index: int, element: T) returns (out: Outcome<T>)
      requires Valid()
      modifies this`view, this`added, this`modified, this`removed, this`codex
      ensures Valid()
      ensures !(0 <= index < |old(view)|) ==> out == Thrown(IndexOutOfBounds) && view == old(view)
      ensures 0 <= index < |old(view)| ==>
        var previous := old(view)[index];
        && out == Ok(previous) && view == old(view)[index := element]
        && element in added && key(element) in codex && codex[key(element)] == element
        && (previous !in old(added) && previous != element ==> previous in removed)
        && codex == (old(codex) - {key(previous)})[key(element) := element]
        && var (a, m, r) := AfterRemoval(old(added), old(modified), old(removed), previous);
           added == SetAdd(a, element) && modified == m && removed == r
    {
      if !(0 <= index < |view|) {
        return Thrown(IndexOutOfBounds);
      }
      var previous := view[index];
      view := view[index := element];
      RemoveElement(previous);
      AddElement(element);
      out := Ok(previous);
    }

    /** add(element): appended to the view and registered as added. */
    method Add(element: T) returns (r: bool)
      requires Valid()
      modifies this`view, this`added, this`codex
      ensures Valid() && r
      ensures view == old(view) + [element]
      ensures added == SetAdd(old(added), element) && codex == old(codex)[key(element) := element]
    {
      view := view + [element];
      AddElement(element);
      r := true;
    }

    /** add(index, element): inserted at index and registered as added; an index outside
        [0, size] fails before anything changes. */
    method AddAt(index: int, element: T) returns (ok: bool)
      requires Valid()
      modifies this`view, this`added, this`codex
      ensures Valid()
      ensures ok <==> 0 <= index <= |old(view)|
      ensures !ok ==> view == old(view) && added == old(added) && codex == old(codex)
      ensures ok ==>
        && view == old(view)[..index] + [element] + old(view)[index..]
        && added == SetAdd(old(added), element) && codex == old(codex)[key(element) := element]
    {
      if !(0 <= index <= |view|) {
        return false;
      }
      view := view[..index] + [element] + view[index..];
      AddElement(element);
      ok := true;
    }

    /** remove(o): false and nothing changed when o is not in the view; otherwise its first
        occurrence leaves the view and the bookkeeping of removeElement follows. */
    method RemoveObject(o: T) returns (r: bool)
      requires Valid()
      modifies this`view, this`added, this`modified, this`removed, this`codex
      ensures Valid()
      ensures r <==> o in old(view)
      ensures !r ==>
        && view == old(view) && added == old(added) && modified == old(modified)
        && removed == old(removed) && codex == old(codex)
      ensures r ==>
        && view == RemoveFirst(old(view), o) && codex == old(codex) - {key(o)}
        && (added, modified, removed) == AfterRemoval(old(added), old(modified), old(removed), o)
    {
      if o !in view {
        return false;
      }
      view := RemoveFirst(view, o);
      RemoveElement(o);
      r := true;
    }

    /** remove(index): the element at index leaves the view and is returned; an index out of
        range fails before anything changes. */
    method RemoveAt(index: int) returns (out: Outcome<T>)
      requires Valid()
      modifies this`view, this`added, this`modified, this`removed, this`codex
      ensures Valid()
      ensures !(0 <= index < |old(view)|) ==>
        && out == Thrown(IndexOutOfBounds) && view == old(view)
        && added == old(added) && modified == old(modified) && removed == old(removed) && codex == old(codex)
      ensures 0 <= index < |old(view)| ==>
        && out == Ok(old(view)[index]) && view == old(view)[..index] + old(view)[index + 1..]
        && codex == old(codex) - {key(old(view)[index])}
        && (added, modified, removed) == AfterRemoval(old(added), old(modified), old(removed), old(view)[index])
    {
      if !(0 <= index < |view|) {
        return Thrown(IndexOutOfBounds);
      }
      var element := view[index];
      view := view[..index] + view[index + 1..];
      RemoveElement(element);
      out := Ok(element);
    }

    /** get(index): the view's element, or IndexOutOfBoundsException. */
    function Get(index: int): (out: Outcome<T>)
      reads this
      ensures out.Ok? <==> 0 <= index < |view|
      ensures out.Ok? ==> out.value == view[index]
      ensures out.Thrown? ==> out.failure == IndexOutOfBounds
    {
      if 0 <= index < |view| then Ok(view[index]) else Thrown(IndexOutOfBounds)
    }

    /** size(): the view's length: exactly the indices get accepts. */
    function Size(): (n: nat)
      reads this
      ensures forall i :: 0 <= i < n <==> Get(i).Ok?
    {
      |view|
    }

    /** getByKey: the element the codex holds for the key, null when none. */
    function GetByKey(k: K): (r: Option<T>)
      reads this
      ensures r.Some? <==> k in codex
      ensures r.Some? ==> r.value == codex[k]
    {
      if k in codex then Some(codex[k]) else None
    }

    /** containsKey agrees with getByKey: the codex never maps a key to null. */
    function ContainsKey(k: K): (b: bool)
      reads this
      ensures b <==> GetByKey(k).Some?
    {
      k in codex
    }

    /** keys(): the key set of the codex. */
    function Keys(): (ks: set<K>)
      reads this
      ensures forall k :: k in ks <==> ContainsKey(k)
    {
      codex.Keys
    }

    /** getIdByIndex: the key of the element at index. */
    function GetIdByIndex(index: int): (out: Outcome<K>)
      reads this
      ensures out.Ok? <==> Get(index).Ok?
      ensures out.Ok? ==> out.value == key(view[index])
    {
      match Get(index)
      case Ok(x) => Ok(key(x))
      case Thrown(f) => Thrown(f)
    }

    /** getKeys: the key of every element of the view, in order. */
    method GetKeys() returns (keys: seq<K>)
      ensures |keys| == |view|
      ensures forall i :: 0 <= i < |view| ==> keys[i] == key(view[i])
    {
      keys := [];
      for k := 0 to |view|
        invariant |keys| == k
        invariant forall i :: 0 <= i < k ==> keys[i] == key(view[i])
      {
        keys := keys + [key(view[k])];
      }
    }

    /** The first loop of commit: provider.remove for each removed element, which then leaves the set. */
    method FlushRemoved()
      modifies this`removed, this`calls
      ensures calls == old(calls) + CallsFor(Removing, old(removed)) && removed == []
    {
      while removed != []
        invariant calls + CallsFor(Removing, removed) == old(calls) + CallsFor(Removing, old(removed))
        decreases |removed|
      {
        var next := removed[0];
        assert CallsFor(Removing, removed) == [Apply(Removing, next)] + CallsFor(Removing, removed[1..]);
        calls := calls + [Apply(Removing, next)];
        removed := removed[1..];
      }
    }

    /** The second loop of commit: provider.update for each modified element. */
    method FlushModified()
      modifies this`modified, this`calls
      ensures calls == old(calls) + CallsFor(Updating, old(modified)) && modified == []
    {
      while modified != []
        invariant calls + CallsFor(Updating, modified) == old(calls) + CallsFor(Updating, old(modified))
        decreases |modified|
      {
        var next := modified[0];
        assert CallsFor(Updating, modified) == [Apply(Updating, next)] + CallsFor(Updating, modified[1..]);
        calls := calls + [Apply(Updating, next)];
        modified := modified[1..];
      }
    }

    /** The third loop of commit: provider.add for each added element. */
    method FlushAdded()
      modifies this`added, this`calls
      ensures calls == old(calls) + CallsFor(Adding, old(added)) && added == []
    {
      while added != []
        invariant calls + CallsFor(Adding, added) == old(calls) + CallsFor(Adding, old(added))
        decreases |added|
      {
        var next := added[0];
        assert CallsFor(Adding, added) == [Apply(Adding, next)] + CallsFor(Adding, added[1..]);
        calls := calls + [Apply(Adding, next)];
        added := added[1..];
      }
    }

    /** commit: the removed elements are sent to provider.remove, then the modified ones to
        provider.update, then the added ones to provider.add, each in insertion order and each
        leaving its set once its call is made. */
    method Commit()
      modifies this`removed, this`modified, this`added, this`calls
      ensures calls == old(calls) + CommitCalls(old(removed), old(modified), old(added))
      ensures removed == [] && modified == [] && added == [] && Valid()
    {
      AppendThree(calls, CallsFor(Removing, removed), CallsFor(Updating, modified), CallsFor(Adding, added));
      FlushRemoved();
      FlushModified();
      FlushAdded();
    }
  }

  lemma AppendThree<U>(log: seq<U>, a: seq<U>, b: seq<U>, c: seq<U>)
    ensures log + a + b + c == log + (a + b + c)
  {
  }

  /** A commit with nothing pending calls nothing, so a second commit in a row is silent. */
  lemma CommitNothingPending<T>()
    ensures CommitCalls<T>([], [], []) == []
  {
  }

  /** After removeElement(x), the next commit never sends x as an addition. An x that was not
      pending as added is sent as a removal and not as an update. An x pending as added is not
      sent as a removal (the add and the remove cancel out) unless it was removed before, and it
      is still sent as an update when it was pending as modified too. */
  lemma CommitAfterRemoval<T(!new)>(added: seq<T>, modified: seq<T>, removed: seq<T>, x: T)
    requires NoDup(added) && NoDup(modified) && NoDup(removed)
    ensures var (a, m, r) := AfterRemoval(added, modified, removed, x);
      var c := CommitCalls(r, m, a);
      && Apply(Adding, x) !in c
      && (Apply(Updating, x) in c <==> x in added && x in modified)
      && (Apply(Removing, x) in c <==> x !in added || x in removed)
  {
    var (a, m, r) := AfterRemoval(added, modified, removed, x);
    AfterRemovalKeepsSets(added, modified, removed, x);
    CommitCallsSpec(r, m, a);
  }

  /** The bookkeeping set(0, 2) leaves on a freshly loaded [1], and what commit then sends. */
  lemma ReinsertOnlyRow()
    ensures AfterReinsertion<int>([], [], [], 1) == ([1], [], [1])
    ensures CommitCalls<int>([1], [], [1]) == [Apply(Removing, 1), Apply(Adding, 1)]
  {
    assert RemoveFirst<int>([], 1) == [] && SetAdd<int>([], 1) == [1];
  }

  /** With the code as written, set(0, 2) on the rows [1] schedules the old row 1 for removal
      and for addition again, and the new element 2 is never sent to the provider. */
  method SetRegistersPreviousOccupant() returns (list: ContainerList<int, int>)
    ensures list.view == [2]
    ensures list.calls == [CountCall, GetCall(0, 1), Apply(Removing, 1), Apply(Adding, 1)]
  {
    list := new ContainerList<int, int>(1, [1], (x: int) => x);
    var previous := list.Set(0, 2);
    ReinsertOnlyRow();
    list.Commit();
  }

  /** Collections.sort writes its result back slot by slot through set. With set as written,
      sorting the rows [1, 2] into [2, 1] keeps both keys in the codex. */
  method SortWritesKeepKeys() returns (list: ContainerList<int, int>)
    ensures list.view == [2, 1]
    ensures list.codex.Keys == {1, 2}
  {
    list := new ContainerList<int, int>(2, [1, 2], (x: int) => x);
    assert list.codex == map[1 := 1, 2 := 2];
    var first := list.Set(0, 2);
    var second := list.Set(1, 1);
  }

  /** The same two writes through SetFixed drop key 2 from the codex although 2 is still
      listed: the replacement set does not suit sort. */
  method SortWritesThroughSetFixedLoseKey() returns (list: ContainerList<int, int>)
    ensures list.view == [2, 1]
    ensures 2 in list.view && 2 !in list.codex
  {
    list := new ContainerList<int, int>(2, [1, 2], (x: int) => x);
    assert list.codex == map[1 := 1, 2 := 2];
    var first := list.SetFixed(0, 2);
    var second := list.SetFixed(1, 1);
  }
}
