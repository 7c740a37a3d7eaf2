/** ReflectionComparator: a lexicographic comparator over a runtime-chosen list of bean
    properties, each ascending or descending. Bean introspection is replaced by an accessor
    table from property name to a read function. */
module ReflectionComparators {

  /** What a property's read method gives back for one entity. */
  datatype PropertyValue =
    | Str(s: string)          // a java.lang.String
    | Comparable(rank: int)   // any other Comparable, ordered by its rank
    | Other                   // a value that is neither a String nor a Comparable
    | ReadFails               // the read method threw (IllegalAccess/IllegalArgument/InvocationTarget)

  /** The comparator's final fields: propertyId, ascending and the descriptor map. */
  datatype Comparator<!E> = Comparator(
    propertyId: seq<string>,
    ascending: seq<bool>,
    descriptors: map<string, E -> PropertyValue>)

  /** The outcome of compare: an int, or the ClassCastException that is not caught. */
  datatype CompareResult = Returns(value: int) | ThrowsClassCast

  /** What a single key contributes. */
  datatype KeyOutcome = Skipped | Tie | Decides(raw: int) | Throws

  /** Number of keys compare examines: i < propertyId.length && i < ascending.length. */
  function KeyCount<E>(c: Comparator<E>): (n: nat)
    ensures n <= |c.propertyId| && n <= |c.ascending|
    ensures n == |c.propertyId| || n == |c.ascending|
  {
    if |c.propertyId| < |c.ascending| then |c.propertyId| else |c.ascending|
  }

  /** Character.toLowerCase after toUpperCase, restricted to ASCII letters. */
  function FoldCase(ch: char): (r: char)
    ensures 'A' <= ch <= 'Z' ==> r as int == ch as int + 32
    ensures !('A' <= ch <= 'Z') ==> r == ch
  {
    if 'A' <= ch <= 'Z' then (ch as int + 32) as char else ch
  }

  function FoldString(s: string): (r: string)
    ensures |r| == |s| && forall k :: 0 <= k < |s| ==> r[k] == FoldCase(s[k])
  {
    if |s| == 0 then [] else [FoldCase(s[0])] + FoldString(s[1..])
  }

  /** String.compareToIgnoreCase: the difference of the first differing folded characters,
      otherwise the difference of the lengths. */
  function CompareToIgnoreCase(s: string, t: string): (r: int)
  {
    if |s| == 0 || |t| == 0 then |s| - |t|
    else if FoldCase(s[0]) != FoldCase(t[0]) then FoldCase(s[0]) as int - FoldCase(t[0]) as int
    else CompareToIgnoreCase(s[1..], t[1..])
  }

  /** Strings tie exactly when they are equal after case folding. */
  lemma {:induction false} CompareToIgnoreCaseZeroIff(s: string, t: string)
    ensures CompareToIgnoreCase(s, t) == 0 <==> FoldString(s) == FoldString(t)
  {
    if |s| > 0 && |t| > 0 {
      CompareToIgnoreCaseZeroIff(s[1..], t[1..]);
      assert FoldString(s) == [FoldCase(s[0])] + FoldString(s[1..]);
      assert FoldString(t) == [FoldCase(t[0])] + FoldString(t[1..]);
      if FoldString(s) == FoldString(t) {
        assert FoldString(s)[0] == FoldString(t)[0];
        assert FoldString(s)[1..] == FoldString(t)[1..];
      }
    }
  }

  /** Swapping the operands negates the result. */
  lemma {:induction false} CompareToIgnoreCaseAntisymmetric(s: string, t: string)
    ensures CompareToIgnoreCase(s, t) == -CompareToIgnoreCase(t, s)
  {
    if |s| > 0 && |t| > 0 && FoldCase(s[0]) == FoldCase(t[0]) {
      CompareToIgnoreCaseAntisymmetric(s[1..], t[1..]);
    }
  }

  /** Integer.compare-style natural ordering of two Comparable values. */
  function CompareRanks(x: int, y: int): (r: int)
    ensures r == 0 <==> x == y
    ensures r < 0 <==> x < y
  {
    if x < y then -1 else if x == y then 0 else 1
  }

  /** The value compare returns for a non-zero raw comparison: the raw value itself when
      ascending, and exactly -1 or +1 of the opposite sign when descending. */
  function Directed(raw: int, ascending: bool): (r: int)
    requires raw != 0
    ensures ascending ==> r == raw
    ensures !ascending ==> (r == -1 || r == 1) && (r < 0 <==> raw > 0)
  {
    if ascending then raw else if raw > 0 then -1 else 1
  }

  /** What key `name` contributes when comparing a with b. */
  function KeyOutcomeOf<E>(c: Comparator<E>, name: string, a: E, b: E): (o: KeyOutcome)
    ensures name !in c.descriptors ==> o == Skipped
    ensures o.Decides? ==> o.raw != 0
  {
    if name !in c.descriptors then Skipped
    else
      var read := c.descriptors[name];
      var p1 := read(a);
      if p1.ReadFails? then Skipped
      else
        var p2 := read(b);
        if p2.ReadFails? then Skipped
        else match p1
          case Str(s) =>
            if !p2.Str? then Throws
            else
              var r := CompareToIgnoreCase(s, p2.s);
              if r == 0 then Tie else Decides(r)
          case Comparable(x) =>
            if !p2.Comparable? then Throws
            else
              var r := CompareRanks(x, p2.rank);
              if r == 0 then Tie else Decides(r)
          case Other => Skipped
  }

  /** The rules a single key follows once its property has a descriptor: a read that throws
      one of the caught exceptions, or a first value that is neither a String nor a Comparable,
      skips the key; strings tie exactly when equal after case folding and Comparables exactly
      when equal; a value of the other kind makes the cast throw. */
  lemma KeyOutcomeRules<E>(c: Comparator<E>, name: string, a: E, b: E)
    requires name in c.descriptors
    ensures
      var o := KeyOutcomeOf(c, name, a, b);
      var p1 := c.descriptors[name](a);
      var p2 := c.descriptors[name](b);
      && (p1.ReadFails? || p2.ReadFails? ==> o == Skipped)
      && (p1.Other? ==> o == Skipped)
      && (p1.Str? && p2.Str? ==> (o == Tie <==> FoldString(p1.s) == FoldString(p2.s)))
      && (p1.Comparable? && p2.Comparable? ==> (o == Tie <==> p1.rank == p2.rank))
      && (o.Throws? <==> (p1.Str? && (p2.Comparable? || p2.Other?)) || (p1.Comparable? && (p2.Str? || p2.Other?)))
  {
    var p1 := c.descriptors[name](a);
    var p2 := c.descriptors[name](b);
    if p1.Str? && p2.Str? {
      CompareToIgnoreCaseZeroIff(p1.s, p2.s);
    }
  }

  /** compare's loop from key i on. */
  function CompareFrom<E>(c: Comparator<E>, a: E, b: E, i: nat): (r: CompareResult)
    decreases KeyCount(c) - i
  {
    if i >= KeyCount(c) then Returns(0)
    else match KeyOutcomeOf(c, c.propertyId[i], a, b)
      case Skipped => CompareFrom(c, a, b, i + 1)
      case Tie => CompareFrom(c, a, b, i + 1)
      case Decides(raw) => Returns(Directed(raw, c.ascending[i]))
      case Throws => ThrowsClassCast
  }

  function Compare<E>(c: Comparator<E>, a: E, b: E): CompareResult
  {
    CompareFrom(c, a, b, 0)
  }

  predicate Passes(o: KeyOutcome)
  {
    o.Skipped? || o.Tie?
  }

  /** Result 0 exactly when every examined key from i on is skipped or ties. */
  lemma {:induction false} CompareFromZeroIff<E>(c: Comparator<E>, a: E, b: E, i: nat)
    ensures CompareFrom(c, a, b, i) == Returns(0) <==>
      forall j :: i <= j < KeyCount(c) ==> Passes(KeyOutcomeOf(c, c.propertyId[j], a, b))
    decreases KeyCount(c) - i
  {
    if i < KeyCount(c) {
      CompareFromZeroIff(c, a, b, i + 1);
    }
  }

  lemma CompareZeroIff<E>(c: Comparator<E>, a: E, b: E)
    ensures Compare(c, a, b) == Returns(0) <==>
      forall j :: 0 <= j < KeyCount(c) ==> Passes(KeyOutcomeOf(c, c.propertyId[j], a, b))
  {
    CompareFromZeroIff(c, a, b, 0);
  }

  /** The first key that neither is skipped nor ties decides the result. */
  lemma {:induction false} CompareFromFirstDecidingKey<E>(c: Comparator<E>, a: E, b: E, i: nat, k: nat)
    requires i <= k < KeyCount(c)
    requires forall j :: i <= j < k ==> Passes(KeyOutcomeOf(c, c.propertyId[j], a, b))
    requires !Passes(KeyOutcomeOf(c, c.propertyId[k], a, b))
    ensures CompareFrom(c, a, b, i) ==
      match KeyOutcomeOf(c, c.propertyId[k], a, b)
      case Decides(raw) => Returns(Directed(raw, c.ascending[k]))
      case _ => ThrowsClassCast
    decreases k - i
  {
    if i < k {
      CompareFromFirstDecidingKey(c, a, b, i + 1, k);
    }
  }

  lemma CompareFirstDecidingKey<E>(c: Comparator<E>, a: E, b: E, k: nat)
    requires k < KeyCount(c)
    requires forall j :: 0 <= j < k ==> Passes(KeyOutcomeOf(c, c.propertyId[j], a, b))
    requires !Passes(KeyOutcomeOf(c, c.propertyId[k], a, b))
    ensures Compare(c, a, b) ==
      match KeyOutcomeOf(c, c.propertyId[k], a, b)
      case Decides(raw) => Returns(Directed(raw, c.ascending[k]))
      case _ => ThrowsClassCast
  {
    CompareFromFirstDecidingKey(c, a, b, 0, k);
  }

  /** The comparator with key k taken out of both arrays. */
  function DropKey<E>(c: Comparator<E>, k: nat): (d: Comparator<E>)
    requires k < KeyCount(c)
    ensures KeyCount(d) == KeyCount(c) - 1
  {
    Comparator(c.propertyId[..k] + c.propertyId[k + 1..], c.ascending[..k] + c.ascending[k + 1..], c.descriptors)
  }

  /** Two comparators with the same descriptors that examine the same key, in the same
      direction, at positions i and j agree there when they agree on the keys after it. */
  lemma SameKeyStep<E>(c: Comparator<E>, d: Comparator<E>, a: E, b: E, i: nat, j: nat)
    requires i < KeyCount(c) && j < KeyCount(d) && c.descriptors == d.descriptors
    requires c.propertyId[i] == d.propertyId[j] && c.ascending[i] == d.ascending[j]
    requires CompareFrom(c, a, b, i + 1) == CompareFrom(d, a, b, j + 1)
    ensures CompareFrom(c, a, b, i) == CompareFrom(d, a, b, j)
  {
    var o := KeyOutcomeOf(c, c.propertyId[i], a, b);
    assert o == KeyOutcomeOf(d, d.propertyId[j], a, b);
  }

  lemma {:induction false} DropKeyShift<E>(c: Comparator<E>, a: E, b: E, k: nat, j: nat)
    requires k < KeyCount(c) && k <= j
    ensures CompareFrom(c, a, b, j + 1) == CompareFrom(DropKey(c, k), a, b, j)
    decreases KeyCount(c) - j
  {
    var d := DropKey(c, k);
    if j + 1 < KeyCount(c) {
      assert d.propertyId[j] == c.propertyId[j + 1];
      assert d.ascending[j] == c.ascending[j + 1];
      DropKeyShift(c, a, b, k, j + 1);
      SameKeyStep(c, d, a, b, j + 1, j);
    }
  }

  /** At the dropped key itself: a passing key just moves compare on to the next one. */
  lemma DropKeyAt<E>(c: Comparator<E>, a: E, b: E, k: nat)
    requires k < KeyCount(c)
    requires Passes(KeyOutcomeOf(c, c.propertyId[k], a, b))
    ensures CompareFrom(c, a, b, k) == CompareFrom(DropKey(c, k), a, b, k)
  {
    assert CompareFrom(c, a, b, k) == CompareFrom(c, a, b, k + 1);
    DropKeyShift(c, a, b, k, k);
  }

  /** Before the dropped key both comparators examine the same keys. */
  lemma {:induction false} DropKeyPrefix<E>(c: Comparator<E>, a: E, b: E, k: nat, i: nat)
    requires k < KeyCount(c) && i <= k
    requires CompareFrom(c, a, b, k) == CompareFrom(DropKey(c, k), a, b, k)
    ensures CompareFrom(c, a, b, i) == CompareFrom(DropKey(c, k), a, b, i)
    decreases k - i
  {
    var d := DropKey(c, k);
    if i < k {
      assert d.propertyId[i] == c.propertyId[i];
      assert d.ascending[i] == c.ascending[i];
      DropKeyPrefix(c, a, b, k, i + 1);
      SameKeyStep(c, d, a, b, i, i);
    }
  }

  /** A key that is skipped or ties for a and b does not affect how they compare: the
      comparator behaves as if that key were not there. */
  lemma PassingKeyIgnored<E>(c: Comparator<E>, a: E, b: E, k: nat)
    requires k < KeyCount(c) && Passes(KeyOutcomeOf(c, c.propertyId[k], a, b))
    ensures Compare(c, a, b) == Compare(DropKey(c, k), a, b)
  {
    DropKeyAt(c, a, b, k);
    DropKeyPrefix(c, a, b, k, 0);
  }

  /** A property name without a descriptor is skipped, not an error, for every pair. */
  lemma UnknownPropertyIgnored<E>(c: Comparator<E>, a: E, b: E, k: nat)
    requires k < KeyCount(c) && c.propertyId[k] !in c.descriptors
    ensures Compare(c, a, b) == Compare(DropKey(c, k), a, b)
  {
    PassingKeyIgnored(c, a, b, k);
  }

  /** A read method that throws one of the caught exceptions is logged and the key skipped. */
  lemma FailedReadIgnored<E>(c: Comparator<E>, a: E, b: E, k: nat)
    requires k < KeyCount(c) && c.propertyId[k] in c.descriptors
    requires c.descriptors[c.propertyId[k]](a).ReadFails? || c.descriptors[c.propertyId[k]](b).ReadFails?
    ensures Compare(c, a, b) == Compare(DropKey(c, k), a, b)
  {
    KeyOutcomeRules(c, c.propertyId[k], a, b);
    PassingKeyIgnored(c, a, b, k);
  }

  function Sign(x: int): int
  {
    if x < 0 then -1 else if x == 0 then 0 else 1
  }

  lemma KeyOutcomeAntisymmetric<E>(c: Comparator<E>, name: string, a: E, b: E)
    requires !KeyOutcomeOf(c, name, a, b).Throws? && !KeyOutcomeOf(c, name, b, a).Throws?
    ensures Passes(KeyOutcomeOf(c, name, a, b)) <==> Passes(KeyOutcomeOf(c, name, b, a))
    ensures KeyOutcomeOf(c, name, a, b).Decides? ==>
      Sign(KeyOutcomeOf(c, name, a, b).raw) == -Sign(KeyOutcomeOf(c, name, b, a).raw)
  {
    if name in c.descriptors {
      var read := c.descriptors[name];
      if read(a).Str? && read(b).Str? {
        CompareToIgnoreCaseAntisymmetric(read(a).s, read(b).s);
      }
    }
  }

  lemma {:induction false} CompareFromAntisymmetric<E>(c: Comparator<E>, a: E, b: E, i: nat)
    requires CompareFrom(c, a, b, i).Returns? && CompareFrom(c, b, a, i).Returns?
    ensures Sign(CompareFrom(c, a, b, i).value) == -Sign(CompareFrom(c, b, a, i).value)
    decreases KeyCount(c) - i
  {
    if i < KeyCount(c) {
      var name := c.propertyId[i];
      KeyOutcomeAntisymmetric(c, name, a, b);
      if Passes(KeyOutcomeOf(c, name, a, b)) {
        CompareFromAntisymmetric(c, a, b, i + 1);
      }
    }
  }

  /** Whenever neither direction throws, compare(a, b) and compare(b, a) have opposite signs. */
  lemma CompareAntisymmetric<E>(c: Comparator<E>, a: E, b: E)
    requires Compare(c, a, b).Returns? && Compare(c, b, a).Returns?
    ensures Sign(Compare(c, a, b).value) == -Sign(Compare(c, b, a).value)
  {
    CompareFromAntisymmetric(c, a, b, 0);
  }

  /** The constructor's loop: every descriptor is put under its name, a later one replacing an
      earlier one of the same name. */
  method NewComparator<E>(descriptorList: seq<(string, E -> PropertyValue)>, propertyId: seq<string>, ascending: seq<bool>)
    returns (c: Comparator<E>)
    ensures c.propertyId == propertyId && c.ascending == ascending
    ensures forall name :: name in c.descriptors <==> exists i :: 0 <= i < |descriptorList| && descriptorList[i].0 == name
    ensures forall i ::
      (0 <= i < |descriptorList| && forall j :: i < j < |descriptorList| ==> descriptorList[j].0 != descriptorList[i].0)
      ==> c.descriptors[descriptorList[i].0] == descriptorList[i].1
  {
    var m: map<string, E -> PropertyValue> := map[];
    for n := 0 to |descriptorList|
      invariant forall name :: name in m <==> exists i :: 0 <= i < n && descriptorList[i].0 == name
      invariant forall i ::
        (0 <= i < n && forall j :: i < j < n ==> descriptorList[j].0 != descriptorList[i].0)
        ==> m[descriptorList[i].0] == descriptorList[i].1
    {
      m := m[descriptorList[n].0 := descriptorList[n].1];
    }
    c := Comparator(propertyId, ascending, m);
  }

  /** Sorting by name, ascending, puts "A" before "b" before "c": case does not count. */
  lemma NameOrderIgnoresCase()
    ensures
      var byName := Comparator(["name"], [true], map["name" := (e: string) => Str(e)]);
      Compare(byName, "A", "b").value < 0 && Compare(byName, "b", "c").value < 0 &&
      Compare(byName, "A", "c").value < 0 && Compare(byName, "a", "A") == Returns(0)
  {
    var byName := Comparator(["name"], [true], map["name" := (e: string) => Str(e)]);
    assert CompareToIgnoreCase("A", "b") == -1;
    assert CompareToIgnoreCase("b", "c") == -1;
    assert CompareToIgnoreCase("A", "c") == -2;
    assert CompareToIgnoreCase("a", "A") == 0;
  }
}
