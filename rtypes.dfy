/**
 * Types shared by the value classes and the update nodes: Java's 32-bit int, the
 * integer NA of RInt, and the modes of RAny with the implicit conversion ladder.
 */
module RTypes {

  /** A Java `int`. */
  type int32 = x: int | -0x8000_0000 <= x < 0x8000_0000

  const INT_MIN: int32 := -0x8000_0000
  const INT_MAX: int32 := 0x7fff_ffff

  /** RInt.NA: the integer NA is Integer.MIN_VALUE. */
  const INT_NA: int32 := INT_MIN

  /** RAny.Mode, as ValueCopy.valueMode computes it. */
  datatype Mode = LogicalMode | IntMode | DoubleMode | ComplexMode | StringMode | RawMode

  /** The ladder logical < int < double < complex < string; raw stands apart. */
  predicate OnLadder(m: Mode) { m != RawMode }

  function Rank(m: Mode): (r: nat)
    requires OnLadder(m)
    ensures r <= 4
  {
    match m
    case LogicalMode => 0
    case IntMode => 1
    case DoubleMode => 2
    case ComplexMode => 3
    case StringMode => 4
  }

  /** The larger of two modes on the ladder. */
  function Join(a: Mode, b: Mode): (j: Mode)
    requires OnLadder(a) && OnLadder(b)
    ensures OnLadder(j) && (j == a || j == b)
    ensures Rank(a) <= Rank(j) && Rank(b) <= Rank(j)
  {
    if Rank(a) < Rank(b) then b else a
  }

  /**
   * Join is the least upper bound on the ladder: any mode both operands convert to also
   * holds their join; it does not depend on the order of its operands and joins a mode
   * with itself to that mode.
   */
  lemma JoinIsLeastUpperBound(a: Mode, b: Mode, m: Mode)
    requires OnLadder(a) && OnLadder(b) && OnLadder(m)
    ensures Rank(a) <= Rank(m) && Rank(b) <= Rank(m) ==> Rank(Join(a, b)) <= Rank(m)
    ensures Join(a, b) == Join(b, a) && Join(a, a) == a
  {
  }
}
