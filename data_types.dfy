/**
 * The primary key of a stored row: a day, the microseconds within it and a
 * unique id. Keys are compared through the Time their day and time make up
 * and through their ids, which orders them only partially.
 */
module DataTypes {

  import TimeUtils

  /** `primary_key_t`. */
  datatype PrimaryKey = PrimaryKey(date: int, time: int, uniqueId: int)

  /** `getTimeStamp()`. */
  function Stamp(k: PrimaryKey): int
  {
    TimeUtils.TimeOf(k.date, k.time)
  }

  /** `==`: the three fields agree. */
  predicate Same(a: PrimaryKey, b: PrimaryKey)
  {
    a.date == b.date && a.time == b.time && a.uniqueId == b.uniqueId
  }

  /** `<`: not later, and of a smaller id. */
  predicate Less(a: PrimaryKey, b: PrimaryKey)
  {
    Stamp(a) <= Stamp(b) && a.uniqueId < b.uniqueId
  }

  /** `<=`: not later, and of an id not larger. */
  predicate LessEq(a: PrimaryKey, b: PrimaryKey)
  {
    Stamp(a) <= Stamp(b) && a.uniqueId <= b.uniqueId
  }

  /** `>`: not earlier, and of a larger id. */
  predicate Greater(a: PrimaryKey, b: PrimaryKey)
  {
    Stamp(a) >= Stamp(b) && a.uniqueId > b.uniqueId
  }

  /** `>=`: not earlier, and of an id not smaller. */
  predicate GreaterEq(a: PrimaryKey, b: PrimaryKey)
  {
    Stamp(a) >= Stamp(b) && a.uniqueId >= b.uniqueId
  }

  /** `==` is the equality of keys, and `!=` its negation. */
  lemma SameIsEquality(a: PrimaryKey, b: PrimaryKey)
    ensures Same(a, b) <==> a == b
    ensures !Same(a, b) <==> a != b
  {
  }

  /** `<` is a strict order: irreflexive, asymmetric and transitive. */
  lemma LessIsStrictOrder(a: PrimaryKey, b: PrimaryKey, c: PrimaryKey)
    ensures !Less(a, a)
    ensures Less(a, b) ==> !Less(b, a)
    ensures Less(a, b) && Less(b, c) ==> Less(a, c)
  {
  }

  /** `>` and `>=` mirror `<` and `<=`. */
  lemma GreaterMirrorsLess(a: PrimaryKey, b: PrimaryKey)
    ensures Greater(a, b) <==> Less(b, a)
    ensures GreaterEq(a, b) <==> LessEq(b, a)
  {
  }

  /** `>` is transitive too. */
  lemma GreaterTransitive(a: PrimaryKey, b: PrimaryKey, c: PrimaryKey)
    ensures Greater(a, b) && Greater(b, c) ==> Greater(a, c)
  {
    GreaterMirrorsLess(a, b);
    GreaterMirrorsLess(b, c);
    GreaterMirrorsLess(a, c);
    LessIsStrictOrder(c, b, a);
  }

  /** `<=` holds for every pair related by `<`, and for equal keys. */
  lemma LessEqWeakensLess(a: PrimaryKey, b: PrimaryKey)
    ensures Less(a, b) ==> LessEq(a, b)
    ensures Same(a, b) ==> LessEq(a, b) && GreaterEq(a, b)
  {
  }

  /** The order is not total: a key of an earlier time but a larger id is
    * neither below, above nor equal to the other. */
  lemma NotTotal()
    ensures var a, b := PrimaryKey(0, 0, 2), PrimaryKey(0, 1, 1);
            !Less(a, b) && !Greater(a, b) && !Same(a, b)
  {
    assert Stamp(PrimaryKey(0, 0, 2)) == 0;
    assert Stamp(PrimaryKey(0, 1, 1)) == 1;
  }

  /** `<=` and `>=` compare the Time and not its day and time fields: two
    * different spellings of one moment with one id are each `<=` the other
    * and yet not `==`. */
  lemma LessEqNotAntisymmetric()
    ensures var a, b := PrimaryKey(1, 0, 5), PrimaryKey(0, TimeUtils.MicrosPerDay, 5);
            LessEq(a, b) && LessEq(b, a) && !Same(a, b)
  {
    assert Stamp(PrimaryKey(1, 0, 5)) == TimeUtils.MicrosPerDay;
    assert Stamp(PrimaryKey(0, TimeUtils.MicrosPerDay, 5)) == TimeUtils.MicrosPerDay;
  }
}
