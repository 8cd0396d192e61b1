/** Flag operations on enum values, as the enum helpers perform them: both
    operands are unboxed to a 32-bit int, combined bitwise, and (for Add and
    Remove) boxed back. The unboxing fails for anything whose runtime type
    is not int-backed; Has and Is then answer false, Add and Remove raise an
    ArgumentException. */
module EnumFlags {
  /** A boxed operand as the `(int)(object)` unboxing sees it. */
  datatype Boxed = IntBacked(bits: bv32) | NotInt

  /** The result of Add and Remove: the combined bits, or the exception. */
  datatype Outcome = Value(bits: bv32) | ArgumentException

  /** Flag i is set in x. */
  predicate Bit(x: bv32, i: bv5)
  {
    (x >> i) & 1 == 1
  }

  /** Every flag of v is also a flag of t. */
  ghost predicate Includes(t: bv32, v: bv32)
  {
    forall i: bv5 :: Bit(v, i) ==> Bit(t, i)
  }

  /** The word-level test Has performs: `t & v == v`. */
  predicate Covers(t: bv32, v: bv32)
  {
    t & v == v
  }

  // ---------------------------------------------------------------------
  // The operations
  // ---------------------------------------------------------------------

  /** Has: `type & value == value` on the unboxed ints; false when either
      operand cannot be unboxed. HasMeansIncludes states it flag by flag. */
  function Has(t: Boxed, v: Boxed): (r: bool)
    ensures r ==> t.IntBacked? && v.IntBacked?
  {
    t.IntBacked? && v.IntBacked? && Covers(t.bits, v.bits)
  }

  /** Is: the two operands unbox to the same int; false when either
      operand cannot be unboxed. */
  function Is(t: Boxed, v: Boxed): (r: bool)
    ensures r ==> t.IntBacked? && v.IntBacked?
  {
    t.IntBacked? && v.IntBacked? && t.bits == v.bits
  }

  /** Add: `type | value`, boxed back as the enum type itself; the
      exception when either operand cannot be unboxed. */
  function Add(t: Boxed, v: Boxed): (r: Outcome)
    ensures r.ArgumentException? <==> t.NotInt? || v.NotInt?
  {
    if t.IntBacked? && v.IntBacked? then Value(t.bits | v.bits) else ArgumentException
  }

  /** Remove: `type & ~value`, boxed back as the enum type itself; the
      exception when either operand cannot be unboxed. */
  function Remove(t: Boxed, v: Boxed): (r: Outcome)
    ensures r.ArgumentException? <==> t.NotInt? || v.NotInt?
  {
    if t.IntBacked? && v.IntBacked? then Value(t.bits & !v.bits) else ArgumentException
  }

  /** An Outcome boxed again, for chaining a second operation. */
  function Rebox(o: Outcome): Boxed
  {
    match o
    case Value(b) => IntBacked(b)
    case ArgumentException => NotInt
  }

  // ---------------------------------------------------------------------
  // Bits
  // ---------------------------------------------------------------------

  lemma OrBit(x: bv32, y: bv32, i: bv5)
    ensures Bit(x | y, i) <==> Bit(x, i) || Bit(y, i)
  {}

  lemma AndBit(x: bv32, y: bv32, i: bv5)
    ensures Bit(x & y, i) <==> Bit(x, i) && Bit(y, i)
  {}

  lemma AndNotBit(x: bv32, y: bv32, i: bv5)
    ensures Bit(x & !y, i) <==> Bit(x, i) && !Bit(y, i)
  {}

  /** Shifting right by k drops bit k, which reappears as the low bit. */
  lemma ShiftStep(x: bv32, k: bv5)
    ensures x >> k == ((x >> (k as bv6 + 1)) << 1) | ((x >> k) & 1)
  {}

  /** Two words agreeing on flags k .. 31 agree once shifted right by k. */
  lemma HighBitsDetermine(x: bv32, y: bv32, k: bv6)
    requires k <= 32
    requires forall i: bv5 | k <= i as bv6 :: Bit(x, i) == Bit(y, i)
    ensures x >> k == y >> k
    decreases 32 - k
  {
    if k < 32 {
      HighBitsDetermine(x, y, k + 1);
      ShiftStep(x, k as bv5);
      ShiftStep(y, k as bv5);
      assert Bit(x, k as bv5) == Bit(y, k as bv5);
    }
  }

  /** A word is determined by its 32 flags. */
  lemma BitsDetermine(x: bv32, y: bv32)
    requires forall i: bv5 :: Bit(x, i) == Bit(y, i)
    ensures x == y
  {
    HighBitsDetermine(x, y, 0);
  }

  /** Two different words differ in some flag. */
  lemma BitsDiffer(x: bv32, y: bv32)
    requires x != y
    ensures exists i: bv5 :: Bit(x, i) != Bit(y, i)
  {
    if forall i: bv5 :: Bit(x, i) == Bit(y, i) {
      BitsDetermine(x, y);
    }
  }

  /** The word-level test says exactly that the flags of v are among those
      of t. */
  lemma CoversMeansIncludes(t: bv32, v: bv32)
    ensures Covers(t, v) <==> Includes(t, v)
  {
    if Covers(t, v) {
      forall i: bv5 | Bit(v, i)
        ensures Bit(t, i)
      {
        AndBit(t, v, i);
      }
    }
    if Includes(t, v) {
      forall i: bv5
        ensures Bit(t & v, i) == Bit(v, i)
      {
        AndBit(t, v, i);
      }
      BitsDetermine(t & v, v);
    }
  }

  // ---------------------------------------------------------------------
  // Word identities behind the properties
  // ---------------------------------------------------------------------

  // Each operation on int-backed operands, unfolded; the properties below
  // apply these to every call they mention and then one word identity.

  lemma HasValue(x: bv32, y: bv32)
    ensures Has(IntBacked(x), IntBacked(y)) == Covers(x, y)
  {}

  lemma AddValue(x: bv32, y: bv32)
    ensures Add(IntBacked(x), IntBacked(y)) == Value(x | y)
    ensures Rebox(Add(IntBacked(x), IntBacked(y))) == IntBacked(x | y)
  {
    assert Add(IntBacked(x), IntBacked(y)) == Value(x | y);
  }

  lemma RemoveValue(x: bv32, y: bv32)
    ensures Remove(IntBacked(x), IntBacked(y)) == Value(x & !y)
    ensures Rebox(Remove(IntBacked(x), IntBacked(y))) == IntBacked(x & !y)
  {
    assert Remove(IntBacked(x), IntBacked(y)) == Value(x & !y);
  }

  lemma OrCovers(x: bv32, y: bv32)
    ensures Covers(x | y, x) && Covers(x | y, y)
  {}

  lemma OrAgain(x: bv32, y: bv32)
    ensures (x | y) | y == x | y
  {}

  lemma AndNotCovered(x: bv32, y: bv32)
    ensures Covers(x, x & !y) && (x & !y) & y == 0
  {}

  lemma AndNotMisses(x: bv32, y: bv32)
    requires y != 0
    ensures !Covers(x & !y, y)
  {}

  lemma OrThenAndNot(x: bv32, y: bv32)
    ensures (x | y) & !y == x & !y
  {}

  lemma AndNotThenOr(x: bv32, y: bv32)
    ensures (x & !y) | y == x | y
  {}

  // ---------------------------------------------------------------------
  // Properties
  // ---------------------------------------------------------------------

  /** Has holds exactly when both operands unbox and every flag of value is
      a flag of type. */
  lemma HasMeansIncludes(t: Boxed, v: Boxed)
    ensures Has(t, v) <==> t.IntBacked? && v.IntBacked? && Includes(t.bits, v.bits)
  {
    if t.IntBacked? && v.IntBacked? {
      CoversMeansIncludes(t.bits, v.bits);
    }
  }

  /** Is holds exactly when both operands unbox and have the same flags. */
  lemma IsMeansSameFlags(t: Boxed, v: Boxed)
    ensures Is(t, v) <==> t.IntBacked? && v.IntBacked? && forall i: bv5 :: Bit(t.bits, i) == Bit(v.bits, i)
  {
    if t.IntBacked? && v.IntBacked? && t.bits != v.bits {
      BitsDiffer(t.bits, v.bits);
    }
  }

  /** The flags of Add's result are the flags of type together with those
      of value. */
  lemma AddFlags(tb: bv32, vb: bv32)
    ensures var r := Add(IntBacked(tb), IntBacked(vb));
            r.Value? && forall i: bv5 :: Bit(r.bits, i) <==> Bit(tb, i) || Bit(vb, i)
  {
    AddValue(tb, vb);
    forall i: bv5
      ensures Bit(tb | vb, i) <==> Bit(tb, i) || Bit(vb, i)
    {
      OrBit(tb, vb, i);
    }
  }

  /** The flags of Remove's result are the flags of type that are not flags
      of value. */
  lemma RemoveFlags(tb: bv32, vb: bv32)
    ensures var r := Remove(IntBacked(tb), IntBacked(vb));
            r.Value? && forall i: bv5 :: Bit(r.bits, i) <==> Bit(tb, i) && !Bit(vb, i)
  {
    RemoveValue(tb, vb);
    forall i: bv5
      ensures Bit(tb & !vb, i) <==> Bit(tb, i) && !Bit(vb, i)
    {
      AndNotBit(tb, vb, i);
    }
  }

  /** Every int-backed value has the empty flag set. */
  lemma HasZero(tb: bv32)
    ensures Has(IntBacked(tb), IntBacked(0))
  {}

  /** The result of Add has the flags of both operands. */
  lemma AddHas(tb: bv32, vb: bv32)
    ensures Has(Rebox(Add(IntBacked(tb), IntBacked(vb))), IntBacked(vb))
    ensures Has(Rebox(Add(IntBacked(tb), IntBacked(vb))), IntBacked(tb))
  {
    AddValue(tb, vb);
    HasValue(tb | vb, vb);
    HasValue(tb | vb, tb);
    OrCovers(tb, vb);
  }

  /** Adding the same flags twice is adding them once. */
  lemma AddIdempotent(tb: bv32, vb: bv32)
    ensures Add(Rebox(Add(IntBacked(tb), IntBacked(vb))), IntBacked(vb)) == Add(IntBacked(tb), IntBacked(vb))
  {
    AddValue(tb, vb);
    AddValue(tb | vb, vb);
    OrAgain(tb, vb);
  }

  /** Remove leaves no flag that type did not have, and none of value's. */
  lemma RemoveDrops(tb: bv32, vb: bv32)
    ensures Has(IntBacked(tb), Rebox(Remove(IntBacked(tb), IntBacked(vb))))
    ensures Remove(IntBacked(tb), IntBacked(vb)).bits & vb == 0
  {
    RemoveValue(tb, vb);
    HasValue(tb, tb & !vb);
    AndNotCovered(tb, vb);
  }

  /** Once a non-empty value is removed the result no longer has it. */
  lemma RemoveNotHas(tb: bv32, vb: bv32)
    requires vb != 0
    ensures !Has(Rebox(Remove(IntBacked(tb), IntBacked(vb))), IntBacked(vb))
  {
    RemoveValue(tb, vb);
    HasValue(tb & !vb, vb);
    AndNotMisses(tb, vb);
  }

  /** Removing after adding is removing: the added flags are gone again. */
  lemma RemoveAfterAdd(tb: bv32, vb: bv32)
    ensures Remove(Rebox(Add(IntBacked(tb), IntBacked(vb))), IntBacked(vb)) == Remove(IntBacked(tb), IntBacked(vb))
  {
    AddValue(tb, vb);
    RemoveValue(tb | vb, vb);
    RemoveValue(tb, vb);
    OrThenAndNot(tb, vb);
  }

  /** Adding after removing is adding. */
  lemma AddAfterRemove(tb: bv32, vb: bv32)
    ensures Add(Rebox(Remove(IntBacked(tb), IntBacked(vb))), IntBacked(vb)) == Add(IntBacked(tb), IntBacked(vb))
  {
    RemoveValue(tb, vb);
    AddValue(tb & !vb, vb);
    AddValue(tb, vb);
    AndNotThenOr(tb, vb);
  }

  /** Is is an equivalence on int-backed operands. */
  lemma IsEquivalence(t: Boxed, u: Boxed, v: Boxed)
    ensures t.IntBacked? ==> Is(t, t)
    ensures Is(t, v) ==> Is(v, t)
    ensures Is(t, u) && Is(u, v) ==> Is(t, v)
  {}

  /** Operands that are the same value have each other's flags. */
  lemma IsImpliesHas(t: Boxed, v: Boxed)
    ensures Is(t, v) ==> Has(t, v)
  {}

  /** When either operand cannot be unboxed, Has and Is answer false and
      Add and Remove raise. */
  lemma CastFailure(t: Boxed, v: Boxed)
    requires t.NotInt? || v.NotInt?
    ensures !Has(t, v) && !Is(t, v)
    ensures Add(t, v) == ArgumentException && Remove(t, v) == ArgumentException
  {}
}
