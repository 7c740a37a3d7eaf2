/** BaseStorableObject: the identity rule every persisted entity follows (equality and
    hashing keyed on comparationId) and the second-truncating timestamp setters. */
module StorableObjects {
  import opened Common

  /** A runtime class given by its chain of classes from the root down, e.g.
      ["BaseStorableObject", "Form", "TreeForm"]. */
  type ClassPath = seq<string>

  /** Class.isInstance: obj's class is the receiver's class or one of its subclasses. */
  predicate IsInstance(receiver: ClassPath, obj: ClassPath)
  {
    receiver <= obj
  }

  const HashCodeSeed: int := 31
  const TwoTo31: int := 0x8000_0000
  const TwoTo32: int := 0x1_0000_0000
  const MillisPerSecond: int := 1000

  /** Java int arithmetic: the value modulo 2^32, read back as a signed 32-bit integer. */
  function WrapInt32(x: int): (r: int)
    ensures -TwoTo31 <= r < TwoTo31
    ensures (r - x) % TwoTo32 == 0
  {
    (x + TwoTo31) % TwoTo32 - TwoTo31
  }

  /** java.lang.String.hashCode: h := 31 * h + c over the characters, in 32-bit arithmetic. */
  function StringHash(s: string): (h: int)
    ensures -TwoTo31 <= h < TwoTo31
  {
    if |s| == 0 then 0
    else WrapInt32(HashCodeSeed * StringHash(s[..|s| - 1]) + s[|s| - 1] as int)
  }

  /** getRoundedMilliseconds: 0 for a null date, otherwise the instant with its millisecond
      field set to 0 (the calendar's millisecond field is never negative, also before 1970). */
  function RoundedMilliseconds(date: Option<int>): (r: int)
    ensures date.None? ==> r == 0
    ensures date.Some? ==> r <= date.value < r + MillisPerSecond && r % MillisPerSecond == 0
  {
    match date
    case None => 0
    case Some(t) => t - t % MillisPerSecond
  }

  /** Rounding a rounded instant changes nothing, so getCreationTime's double rounding is harmless. */
  lemma RoundedIdempotent(t: int)
    ensures RoundedMilliseconds(Some(RoundedMilliseconds(Some(t)))) == RoundedMilliseconds(Some(t))
  {
    var r := RoundedMilliseconds(Some(t));
    assert r % MillisPerSecond == 0;
  }

  /** Two instants in the same second round to the same value. */
  lemma {:induction false} RoundedSameSecond(t: int, u: int)
    requires t / MillisPerSecond == u / MillisPerSecond
    ensures RoundedMilliseconds(Some(t)) == RoundedMilliseconds(Some(u))
  {
    assert t == MillisPerSecond * (t / MillisPerSecond) + t % MillisPerSecond;
    assert u == MillisPerSecond * (u / MillisPerSecond) + u % MillisPerSecond;
  }

  class StorableObject {
    const cls: ClassPath
    var id: Option<int>
    var comparationId: Option<string>
    /** Timestamps in milliseconds since the epoch; None is a null Timestamp. */
    var creationTime: Option<int>
    var updateTime: Option<int>

    /** `now` is the clock reading and `freshId` the UUID the id generator produces. */
    constructor (cls: ClassPath, now: int, freshId: string)
      ensures this.cls == cls && id == None && comparationId == Some(freshId)
      ensures creationTime == Some(RoundedMilliseconds(Some(now))) && updateTime == None
    {
      this.cls := cls;
      id := None;
      updateTime := None;
      creationTime := Some(RoundedMilliseconds(Some(now)));
      comparationId := Some(freshId);
    }

    /** equals: the same reference; otherwise a non-null object of the receiver's class
        (or a subclass) whose comparationId is equal, both null counting as equal. */
    predicate Equals(obj: StorableObject?)
      reads this, obj
      ensures obj == null ==> !Equals(obj)
      ensures obj == this ==> Equals(obj)
      ensures obj != null && !IsInstance(cls, obj.cls) && obj != this ==> !Equals(obj)
    {
      this == obj || (obj != null && IsInstance(cls, obj.cls) && comparationId == obj.comparationId)
    }

    /** hashCode: 31 * 1 + (comparationId == null ? 0 : comparationId.hashCode()), in int arithmetic. */
    function HashCode(): (h: int)
      reads this
      ensures -TwoTo31 <= h < TwoTo31
      ensures comparationId.None? ==> h == HashCodeSeed
    {
      WrapInt32(HashCodeSeed + (match comparationId case None => 0 case Some(c) => StringHash(c)))
    }

    method SetCreationTime(dateCreated: Option<int>)
      modifies this
      ensures creationTime == Some(RoundedMilliseconds(dateCreated))
      ensures id == old(id) && comparationId == old(comparationId) && updateTime == old(updateTime)
    {
      creationTime := Some(RoundedMilliseconds(dateCreated));
    }

    method SetUpdateTime(dateUpdated: Option<int>)
      modifies this
      ensures updateTime == Some(RoundedMilliseconds(dateUpdated))
      ensures id == old(id) && comparationId == old(comparationId) && creationTime == old(creationTime)
    {
      updateTime := Some(RoundedMilliseconds(dateUpdated));
    }

    /** getCreationTime: a missing creation time is set, lazily, to `now` rounded to the second. */
    method GetCreationTime(now: int) returns (t: int)
      modifies this
      ensures old(creationTime).Some? ==> t == old(creationTime).value && creationTime == old(creationTime)
      ensures old(creationTime).None? ==> t == RoundedMilliseconds(Some(now)) && creationTime == Some(t)
      ensures id == old(id) && comparationId == old(comparationId) && updateTime == old(updateTime)
    {
      if creationTime.Some? {
        t := creationTime.value;
      } else {
        SetCreationTime(Some(RoundedMilliseconds(Some(now))));
        RoundedIdempotent(now);
        t := creationTime.value;
      }
    }

    /** getUpdateTime: a missing update time is set, lazily, to `now` rounded to the second. */
    method GetUpdateTime(now: int) returns (t: int)
      modifies this
      ensures old(updateTime).Some? ==> t == old(updateTime).value && updateTime == old(updateTime)
      ensures old(updateTime).None? ==> t == RoundedMilliseconds(Some(now)) && updateTime == Some(t)
      ensures id == old(id) && comparationId == old(comparationId) && creationTime == old(creationTime)
    {
      if updateTime.Some? {
        t := updateTime.value;
      } else {
        updateTime := Some(RoundedMilliseconds(Some(now)));
        t := updateTime.value;
      }
    }

    /** resetIds: forget the database id and take a fresh comparationId from the generator. */
    method ResetIds(freshId: string)
      modifies this
      ensures id == None && comparationId == Some(freshId)
      ensures creationTime == old(creationTime) && updateTime == old(updateTime)
    {
      id := None;
      comparationId := Some(freshId);
    }
  }

  /** Equal objects hash equally: the hash reads nothing but comparationId. */
  lemma EqualsImpliesSameHash(a: StorableObject, b: StorableObject)
    requires a.Equals(b)
    ensures a.HashCode() == b.HashCode()
  {
  }

  /** Between two distinct objects of compatible classes, equality is exactly equality of
      comparationIds (both null included). */
  lemma EqualsIffSameComparationId(a: StorableObject, b: StorableObject)
    requires a != b && IsInstance(a.cls, b.cls)
    ensures a.Equals(b) <==> a.comparationId == b.comparationId
  {
  }

  /** Equality is not symmetric across a class and its subclass: a base-class object equals a
      subclass object with the same comparationId, but not the other way round. */
  lemma EqualsAsymmetricForSubclass(base: StorableObject, sub: StorableObject)
    requires base.cls < sub.cls && base.comparationId == sub.comparationId
    ensures base.Equals(sub) && !sub.Equals(base)
  {
  }
}
