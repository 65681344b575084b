/**
 * Comparison: the `==` and `<=` node on integer operands. The node first assumes two
 * numeric scalars; the first time that fails it replaces itself, for good, with the
 * vector-against-scalar version, which runs on the operands already evaluated.
 */
module Comparison {
  import opened Wrappers
  import opened RTypes
  import RLogical
  import Views

  /** The parser's binary operators, as far as this node distinguishes them. */
  datatype BinaryOperator = EQ | LE | OtherOperator(name: string)

  /** Equal and LessOrEqual. */
  datatype ValueComparison = Equal | LessOrEqual

  /** The RuntimeException of the constructor. */
  datatype NotImplemented = NotImplemented

  /** The constructor's switch: only EQ and LE have a comparator. */
  function Comparator(op: BinaryOperator): (r: Result<ValueComparison, NotImplemented>)
    ensures r.Ok? <==> op == EQ || op == LE
    ensures op == EQ ==> r == Ok(Equal)
    ensures op == LE ==> r == Ok(LessOrEqual)
  {
    match op
    case EQ => Ok(Equal)
    case LE => Ok(LessOrEqual)
    case OtherOperator(_) => Err(NotImplemented)
  }

  /** cmp(int, int) of the two comparators. */
  predicate Holds(c: ValueComparison, a: int32, b: int32)
  {
    match c
    case Equal => a == b
    case LessOrEqual => a <= b
  }

  /** The scalar int comparison with NA: NA on either side gives NA. */
  function CmpScalar(c: ValueComparison, a: int32, b: int32): (r: int32)
    ensures r == RLogical.TRUE || r == RLogical.FALSE || r == RLogical.NA
    ensures r == RLogical.NA <==> a == INT_NA || b == INT_NA
  {
    if a == INT_NA || b == INT_NA then RLogical.NA
    else if Holds(c, a, b) then RLogical.TRUE else RLogical.FALSE
  }

  /** On non-NA operands `==` is symmetric, implies `<=`, and `<=` is total and antisymmetric. */
  lemma ComparatorLaws(a: int32, b: int32)
    requires a != INT_NA && b != INT_NA
    ensures CmpScalar(Equal, a, b) == CmpScalar(Equal, b, a)
    ensures CmpScalar(Equal, a, b) == RLogical.TRUE ==> CmpScalar(LessOrEqual, a, b) == RLogical.TRUE
    ensures CmpScalar(LessOrEqual, a, b) == RLogical.TRUE || CmpScalar(LessOrEqual, b, a) == RLogical.TRUE
    ensures CmpScalar(LessOrEqual, a, b) == RLogical.TRUE && CmpScalar(LessOrEqual, b, a) == RLogical.TRUE
      ==> CmpScalar(Equal, a, b) == RLogical.TRUE
  {
  }

  /** Element-wise comparison of a vector against a scalar. */
  function VectorScalar(c: ValueComparison, a: seq<int32>, b: int32): (r: seq<int32>)
    ensures |r| == |a|
  {
    seq(|a|, i requires 0 <= i < |a| => CmpScalar(c, a[i], b))
  }

  /** Element-wise comparison of a scalar against a vector. */
  function ScalarVector(c: ValueComparison, a: int32, b: seq<int32>): (r: seq<int32>)
    ensures |r| == |b|
  {
    seq(|b|, i requires 0 <= i < |b| => CmpScalar(c, a, b[i]))
  }

  /**
   * ValueComparison.cmp(RInt a, int b): an NA scalar short-cuts to an all-NA result, which
   * agrees with comparing element by element.
   */
  method CmpVectorScalar(c: ValueComparison, a: seq<int32>, b: int32) returns (r: seq<int32>)
    ensures |r| == |a|
    ensures forall i :: 0 <= i < |a| ==> r[i] == CmpScalar(c, a[i], b)
  {
    var n := |a|;
    if b == INT_NA {
      var na := RLogical.GetNAArray(n, None);
      return Views.Elements(na);
    }
    var res := new int32[n];
    for i := 0 to n
      invariant forall k :: 0 <= k < i ==> res[k] == CmpScalar(c, a[k], b)
    {
      var aint := a[i];
      if aint == INT_NA {
        res[i] := RLogical.NA;
      } else {
        res[i] := if Holds(c, aint, b) then RLogical.TRUE else RLogical.FALSE;
      }
    }
    r := res[..];
  }

  /** ValueComparison.cmp(int a, RInt b), the mirror image. */
  method CmpScalarVector(c: ValueComparison, a: int32, b: seq<int32>) returns (r: seq<int32>)
    ensures |r| == |b|
    ensures forall i :: 0 <= i < |b| ==> r[i] == CmpScalar(c, a, b[i])
  {
    var n := |b|;
    if a == INT_NA {
      var na := RLogical.GetNAArray(n, None);
      return Views.Elements(na);
    }
    var res := new int32[n];
    for i := 0 to n
      invariant forall k :: 0 <= k < i ==> res[k] == CmpScalar(c, a, b[k])
    {
      var bint := b[i];
      if bint == INT_NA {
        res[i] := RLogical.NA;
      } else {
        res[i] := if Holds(c, a, bint) then RLogical.TRUE else RLogical.FALSE;
      }
    }
    r := res[..];
  }

  /**
   * An evaluated operand: an int vector, a logical vector (its codes), a double vector, or
   * any other value, with its size.
   */
  datatype Operand =
    | IntOperand(ints: seq<int32>)
    | LogicalOperand(codes: seq<int32>)
    | DoubleOperand(size: nat)
    | OtherOperand(size: nat)
  {
    function Size(): nat
    {
      match this
      case IntOperand(ints) => |ints|
      case LogicalOperand(codes) => |codes|
      case DoubleOperand(size) => size
      case OtherOperand(size) => size
    }
  }

  /**
   * What execute returns: a logical vector, null, or a result of the double and mixed
   * paths, whose floating-point comparison is not part of this model.
   */
  datatype CmpResult = LogicalResult(values: seq<int32>) | NullResult | NotModelled

  /**
   * The scalar attempt (Comparison.execute); None is the UnexpectedResultException
   * that makes the node specialize. Both operands must be one-element arrays.
   */
  function ScalarAttempt(c: ValueComparison, l: Operand, r: Operand): Option<CmpResult>
  {
    if l.Size() != 1 || r.Size() != 1 then None
    else match l
      case DoubleOperand(_) =>
        (match r
         case DoubleOperand(_) => Some(NotModelled)
         case IntOperand(rints) => if rints[0] == INT_NA then Some(LogicalResult([RLogical.NA])) else Some(NotModelled)
         case _ => None)
      case IntOperand(lints) =>
        if lints[0] == INT_NA then Some(LogicalResult([RLogical.NA]))
        else (match r
          case IntOperand(rints) => Some(LogicalResult([CmpScalar(c, lints[0], rints[0])]))
          case DoubleOperand(_) => Some(NotModelled)
          case _ => None)
      case _ => None
  }

  /** The int view (asInt) of an operand, where the model has one: a logical's codes are its ints. */
  function IntView(o: Operand): Option<seq<int32>>
  {
    match o
    case IntOperand(ints) => Some(ints)
    case LogicalOperand(codes) => Some(codes)
    case _ => None
  }

  /** One side one element long: compare the other side against it, element by element. */
  function VectorAgainstScalar(c: ValueComparison, a: seq<int32>, b: seq<int32>): CmpResult
  {
    if |b| == 1 then LogicalResult(VectorScalar(c, a, b[0]))
    else if |a| == 1 then LogicalResult(ScalarVector(c, a[0], b))
    else NullResult
  }

  /**
   * The int fallback of VectorScalarComparison.execute, for an int operand on either side:
   * both operands are read as ints and compared. The int view of a string or other value
   * is not part of this model.
   */
  function MixedIntFallback(c: ValueComparison, l: Operand, r: Operand): (res: CmpResult)
    requires l.IntOperand? || r.IntOperand?
    ensures IntView(l).Some? && IntView(r).Some? && |IntView(r).value| == 1 ==>
      res == LogicalResult(VectorScalar(c, IntView(l).value, IntView(r).value[0]))
  {
    match (IntView(l), IntView(r))
    case (Some(a), Some(b)) => VectorAgainstScalar(c, a, b)
    case _ => NotModelled
  }

  /**
   * The fallback as written: it is taken only for an int left operand, and reads the left
   * operand twice, so the right operand is never looked at.
   */
  function MixedIntFallbackAsWritten(c: ValueComparison, l: Operand, r: Operand): CmpResult
  {
    if l.IntOperand? then VectorAgainstScalar(c, l.ints, l.ints) else NullResult
  }

  /**
   * `5L == TRUE` reaches the fallback (the right operand is neither int nor double): as
   * written it compares 5 with itself and answers TRUE, where comparing with TRUE's code
   * 1 answers FALSE; and `TRUE == 1L` gives null instead of TRUE.
   */
  lemma MixedFallbackIgnoresRight()
    ensures ScalarAttempt(Equal, IntOperand([5]), LogicalOperand([RLogical.TRUE])).None?
    ensures MixedIntFallbackAsWritten(Equal, IntOperand([5]), LogicalOperand([RLogical.TRUE])) == LogicalResult([RLogical.TRUE])
    ensures MixedIntFallback(Equal, IntOperand([5]), LogicalOperand([RLogical.TRUE])) == LogicalResult([RLogical.FALSE])
    ensures MixedIntFallbackAsWritten(Equal, LogicalOperand([RLogical.TRUE]), IntOperand([1])) == NullResult
    ensures MixedIntFallback(Equal, LogicalOperand([RLogical.TRUE]), IntOperand([1])) == LogicalResult([RLogical.TRUE])
  {
    assert VectorScalar(Equal, [5], 5) == [RLogical.TRUE];
    assert VectorScalar(Equal, [5], RLogical.TRUE) == [RLogical.FALSE];
    assert VectorScalar(Equal, [RLogical.TRUE], 1) == [RLogical.TRUE];
  }

  /** VectorScalarComparison.execute on already evaluated operands. */
  function VectorAttempt(c: ValueComparison, l: Operand, r: Operand): CmpResult
  {
    if l.DoubleOperand? && r.DoubleOperand? then
      (if r.size == 1 then (if l.size >= 1 then NotModelled else NullResult)
       else if r.size >= 1 && l.size == 1 then NotModelled else NullResult)
    else if l.IntOperand? && r.IntOperand? then
      (if |r.ints| == 1 then
         (if |l.ints| >= 1 then LogicalResult(VectorScalar(c, l.ints, r.ints[0])) else NullResult)
       else if |r.ints| >= 1 && |l.ints| == 1 then LogicalResult(ScalarVector(c, l.ints[0], r.ints))
       else NullResult)
    else if l.DoubleOperand? || r.DoubleOperand? then NotModelled
    else if l.IntOperand? || r.IntOperand? then MixedIntFallback(c, l, r)
    else NullResult
  }

  /**
   * For two int scalars both attempts give the same answer, so specializing never changes
   * the result of a comparison the scalar version could answer.
   */
  lemma ScalarAndVectorAgreeOnIntScalars(c: ValueComparison, a: int32, b: int32)
    ensures ScalarAttempt(c, IntOperand([a]), IntOperand([b])) == Some(VectorAttempt(c, IntOperand([a]), IntOperand([b])))
  {
    assert VectorScalar(c, [a], b) == [CmpScalar(c, a, b)];
  }

  /** An NA int on the left answers NA before the type of the right operand is looked at. */
  lemma LeftIntNAShortCuts(c: ValueComparison, r: Operand)
    requires r.Size() == 1
    ensures ScalarAttempt(c, IntOperand([INT_NA]), r) == Some(LogicalResult([RLogical.NA]))
  {
  }

  /**
   * Int vector against int scalar, both ways: the result has the vector's length and is NA
   * exactly where the vector or the scalar is NA. Any other shape gives null.
   */
  lemma IntVectorShapes(c: ValueComparison, a: seq<int32>, b: seq<int32>)
    ensures var res := VectorAttempt(c, IntOperand(a), IntOperand(b));
      && (res.LogicalResult? <==> (|b| == 1 && |a| >= 1) || (|a| == 1 && |b| >= 1))
      && (res.NullResult? <==> !res.LogicalResult?)
      && (|b| == 1 && |a| >= 1 ==>
            (|res.values| == |a| &&
             forall i :: 0 <= i < |a| ==> (res.values[i] == RLogical.NA <==> a[i] == INT_NA || b[0] == INT_NA)))
      && (|b| != 1 && |a| == 1 && |b| >= 1 ==>
            (|res.values| == |b| &&
             forall i :: 0 <= i < |b| ==> (res.values[i] == RLogical.NA <==> a[0] == INT_NA || b[i] == INT_NA)))
  {
  }

  datatype NodeState = ScalarSpeculation | VectorScalarNode

  /** A Comparison call site with its current specialization. */
  class ComparisonNode {
    const cmp: ValueComparison
    var state: NodeState

    constructor (cmp: ValueComparison)
      ensures this.cmp == cmp && state == ScalarSpeculation
    {
      this.cmp := cmp;
      state := ScalarSpeculation;
    }

    /**
     * One execution on the evaluated operands. The scalar node answers if it can; otherwise
     * it becomes the vector node for good and that node answers with the same operands.
     */
    method Execute(l: Operand, r: Operand) returns (res: CmpResult)
      modifies this
      ensures old(state) == VectorScalarNode ==> state == VectorScalarNode
      ensures old(state) == ScalarSpeculation && ScalarAttempt(cmp, l, r).Some? ==>
        state == ScalarSpeculation && res == ScalarAttempt(cmp, l, r).value
      ensures old(state) == VectorScalarNode || ScalarAttempt(cmp, l, r).None? ==>
        state == VectorScalarNode && res == VectorAttempt(cmp, l, r)
    {
      if state == ScalarSpeculation {
        var attempt := ScalarAttempt(cmp, l, r);
        if attempt.Some? {
          return attempt.value;
        }
        state := VectorScalarNode;
      }
      res := ExecuteVector(l, r);
    }

    /** VectorScalarComparison.execute, running the comparison loops. */
    method ExecuteVector(l: Operand, r: Operand) returns (res: CmpResult)
      ensures res == VectorAttempt(cmp, l, r)
    {
      if l.IntOperand? && r.IntOperand? {
        if |r.ints| == 1 {
          if |l.ints| >= 1 {
            var v := CmpVectorScalar(cmp, l.ints, r.ints[0]);
            return LogicalResult(v);
          }
          return NullResult;
        } else if |r.ints| >= 1 && |l.ints| == 1 {
          var v := CmpScalarVector(cmp, l.ints[0], r.ints);
          return LogicalResult(v);
        }
        return NullResult;
      }
      res := VectorAttempt(cmp, l, r);
    }
  }
}
