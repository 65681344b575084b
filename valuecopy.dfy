/**
 * ValueCopy: the element-wise duplicates and upcasts the update nodes apply to an lhs
 * or rhs before the update loop, each filling a fresh array.
 */
module ValueCopy {
  import opened Wrappers
  import opened RTypes
  import opened JavaDouble
  import opened UpdateArray
  import Convert
  import RDouble

  /** The elements of a vector, by mode; a complex vector as (real, imaginary) pairs. */
  datatype Payload =
    | Logicals(lgl: seq<int32>)
    | Ints(ints: seq<int32>)
    | Doubles(dbls: seq<Double>)
    | Complexes(cplx: seq<(Double, Double)>)
    | Strings(strs: seq<string>)
    | Raws(raws: seq<bv8>)

  /** valueMode. */
  function ModeOf(p: Payload): Mode
  {
    match p
    case Logicals(_) => LogicalMode
    case Ints(_) => IntMode
    case Doubles(_) => DoubleMode
    case Complexes(_) => ComplexMode
    case Strings(_) => StringMode
    case Raws(_) => RawMode
  }

  /** size(): the number of elements, not of storage slots. */
  function Length(p: Payload): nat
  {
    match p
    case Logicals(s) => |s|
    case Ints(s) => |s|
    case Doubles(s) => |s|
    case Complexes(s) => |s|
    case Strings(s) => |s|
    case Raws(s) => |s|
  }

  /**
   * How a value is held: a plain *Impl array (what the direct paths need), a Scalar*Impl,
   * or some other class (a view), told apart by a class tag.
   */
  datatype Kind = ArrayKind | ScalarKind | ViewKind(cls: nat)

  /** An operand of an update: its elements, its class, whether it has dimensions, and whether it is shared. */
  datatype Value = Value(payload: Payload, kind: Kind, hasDims: bool, shared: bool)

  /**
   * The factory's rule for what it builds: a scalar exactly for one element without
   * dimensions (views are built elsewhere).
   */
  predicate FactoryMade(v: Value)
  {
    v.kind == ArrayKind || v.kind == ScalarKind ==>
      (v.kind == ScalarKind <==> Length(v.payload) == 1 && !v.hasDims)
  }

  /**
   * A ValueCopy.Impl by the modes it converts between; `direct` ones read the content
   * array of a plain *Impl and refuse anything else.
   */
  datatype CopyImpl = CopyImpl(from: Mode, to: Mode, direct: bool)

  /** Duplicate as opposed to Upcast. */
  predicate IsDuplicate(c: CopyImpl) { c.from == c.to }

  /** The modes that have a plain array the direct copies and loops can read. */
  predicate HasDirectAccess(m: Mode) { m == IntMode || m == DoubleMode || m == ComplexMode }

  /** The copies ValueCopy defines: never downwards on the ladder, raw only to raw. */
  predicate Known(c: CopyImpl)
  {
    && (c.from == RawMode || c.to == RawMode ==> c.from == c.to)
    && (OnLadder(c.from) && OnLadder(c.to) ==> Rank(c.from) <= Rank(c.to))
    && (c.direct ==> HasDirectAccess(c.from) && HasDirectAccess(c.to))
  }

  /** The conversions the copies call that are not part of this model. */
  datatype Conversions = Conversions(
    logical2int: int32 -> int32,
    logical2double: int32 -> Double,
    double2string: Double -> string,
    complex2string: (Double, Double) -> string)

  /** UnexpectedResultException: the copy was handed a value of the wrong class. */
  datatype Unexpected = Unexpected

  /** Complex value with a zero imaginary part, as the upcasts to complex build it. */
  function WithZeroImag<S>(from: seq<S>, realPart: S -> Double): (r: seq<(Double, Double)>)
    ensures |r| == |from|
    ensures forall k :: 0 <= k < |from| ==> r[k] == (realPart(from[k]), ZERO)
  {
    Map(x => (realPart(x), ZERO), from)
  }

  /** The elements a copy of kind c produces from p. */
  function Converted(c: CopyImpl, p: Payload, cv: Conversions): (q: Payload)
    requires Known(c) && ModeOf(p) == c.from
  {
    match p
    case Logicals(l) =>
      (match c.to
       case LogicalMode => p
       case IntMode => Ints(Map(cv.logical2int, l))
       case DoubleMode => Doubles(Map(cv.logical2double, l))
       case ComplexMode => Complexes(WithZeroImag(l, WideningCast))
       case StringMode => Strings(Map(Convert.Logical2String, l)))
    case Ints(i) =>
      (match c.to
       case IntMode => p
       case DoubleMode => Doubles(Map(Convert.Int2Double, i))
       case ComplexMode => Complexes(WithZeroImag(i, WideningCast))
       case StringMode => Strings(Map(Convert.Int2String, i)))
    case Doubles(d) =>
      (match c.to
       case DoubleMode => p
       case ComplexMode => Complexes(WithZeroImag(d, x => x))
       case StringMode => Strings(Map(cv.double2string, d)))
    case Complexes(z) =>
      (match c.to
       case ComplexMode => p
       case StringMode => Strings(Map((x: (Double, Double)) => cv.complex2string(x.0, x.1), z)))
    case Strings(_) => p
    case Raws(_) => p
  }

  /**
   * copy(what): refuses a value of another mode, and a direct copy refuses anything but
   * a plain array; the result is fresh, unshared, and built by the factory's getFor.
   */
  function Copied(c: CopyImpl, v: Value, cv: Conversions): (r: Result<Value, Unexpected>)
    requires Known(c)
  {
    if ModeOf(v.payload) != c.from || (c.direct && v.kind != ArrayKind) then Err(Unexpected)
    else
      var q := Converted(c, v.payload, cv);
      Ok(Value(q, if Length(q) == 1 && !v.hasDims then ScalarKind else ArrayKind, v.hasDims, false))
  }

  /**
   * A copy accepts exactly the values of its source mode (plain arrays only, when
   * direct); it lands in its target mode, keeps the length and the dimensions, and is
   * unshared and factory-made. A duplicate keeps the elements.
   */
  lemma CopyLands(c: CopyImpl, v: Value, cv: Conversions)
    requires Known(c)
    ensures Copied(c, v, cv).Ok? <==> ModeOf(v.payload) == c.from && (c.direct ==> v.kind == ArrayKind)
    ensures Copied(c, v, cv).Ok? ==>
      var w := Copied(c, v, cv).value;
      && ModeOf(w.payload) == c.to && Length(w.payload) == Length(v.payload)
      && w.hasDims == v.hasDims && !w.shared && FactoryMade(w)
      && (IsDuplicate(c) ==> w.payload == v.payload)
  {
  }

  /** The element loop of the non-complex copies. */
  method CopyElements<S, T(0)>(from: seq<S>, conv: S -> T) returns (result: array<T>)
    ensures fresh(result)
    ensures result[..] == Map(conv, from)
  {
    result := new T[|from|];
    for i := 0 to |from|
      invariant result[..i] == Map(conv, from)[..i]
    {
      result[i] := conv(from[i]);
    }
    assert result[..] == result[..|from|];
  }

  /**
   * The upcasts to complex: twice the element count of storage, element i's real part at
   * 2i, and the imaginary parts left at Java's zero.
   */
  method CopyToComplex<S>(from: seq<S>, realPart: S -> Double) returns (result: array<Double>)
    ensures fresh(result) && result.Length == 2 * |from|
    ensures Pairs(result[..]) == WithZeroImag(from, realPart)
  {
    result := new Double[2 * |from|](_ => ZERO);
    for i := 0 to |from|
      invariant forall k :: 0 <= k < i ==> result[2 * k] == realPart(from[k])
      invariant forall k :: 0 <= k < 2 * |from| && k % 2 == 1 ==> result[k] == ZERO
    {
      result[2 * i] := realPart(from[i]);
    }
    assert forall k :: 0 <= k < |from| ==> (2 * k + 1) % 2 == 1;
  }

  /** COMPLEX_TO_COMPLEX: both parts of every element, interleaved. */
  method CopyComplex(from: seq<(Double, Double)>) returns (result: array<Double>)
    ensures fresh(result) && result.Length == 2 * |from|
    ensures Pairs(result[..]) == from
  {
    result := new Double[2 * |from|];
    for i := 0 to |from|
      invariant forall k :: 0 <= k < i ==> (result[2 * k], result[2 * k + 1]) == from[k]
    {
      result[2 * i] := from[i].0;
      result[2 * i + 1] := from[i].1;
    }
  }

  /** The copies' element loops, by the modes they convert between. */
  method ConvertPayload(c: CopyImpl, p: Payload, cv: Conversions) returns (q: Payload)
    requires Known(c) && ModeOf(p) == c.from
    ensures q == Converted(c, p, cv)
  {
    match p
    case Logicals(l) =>
      if c.to == LogicalMode {
        var a := CopyElements(l, (x: int32) => x);
        q := Logicals(a[..]);
      } else if c.to == IntMode {
        var a := CopyElements(l, cv.logical2int);
        q := Ints(a[..]);
      } else if c.to == DoubleMode {
        var a := CopyElements(l, cv.logical2double);
        q := Doubles(a[..]);
      } else if c.to == ComplexMode {
        var a := CopyToComplex(l, WideningCast);
        q := Complexes(Pairs(a[..]));
      } else {
        var a := CopyElements(l, Convert.Logical2String);
        q := Strings(a[..]);
      }
    case Ints(i) =>
      if c.to == IntMode {
        var a := CopyElements(i, (x: int32) => x);
        q := Ints(a[..]);
      } else if c.to == DoubleMode {
        var a := CopyElements(i, Convert.Int2Double);
        q := Doubles(a[..]);
      } else if c.to == ComplexMode {
        var a := CopyToComplex(i, WideningCast);
        q := Complexes(Pairs(a[..]));
      } else {
        var a := CopyElements(i, Convert.Int2String);
        q := Strings(a[..]);
      }
    case Doubles(d) =>
      if c.to == DoubleMode {
        var a := CopyElements(d, (x: Double) => x);
        q := Doubles(a[..]);
      } else if c.to == ComplexMode {
        var a := CopyToComplex(d, (x: Double) => x);
        q := Complexes(Pairs(a[..]));
      } else {
        var a := CopyElements(d, cv.double2string);
        q := Strings(a[..]);
      }
    case Complexes(z) =>
      if c.to == ComplexMode {
        var a := CopyComplex(z);
        q := Complexes(Pairs(a[..]));
      } else {
        var a := CopyElements(z, (x: (Double, Double)) => cv.complex2string(x.0, x.1));
        q := Strings(a[..]);
      }
    case Strings(s) =>
      var a := CopyElements(s, (x: string) => x);
      q := Strings(a[..]);
    case Raws(r) =>
      var a := CopyElements(r, (x: bv8) => x);
      q := Raws(a[..]);
  }

  /** Impl.copy. */
  method Copy(c: CopyImpl, v: Value, cv: Conversions) returns (r: Result<Value, Unexpected>)
    requires Known(c)
    ensures r == Copied(c, v, cv)
  {
    if ModeOf(v.payload) != c.from || (c.direct && v.kind != ArrayKind) {
      return Err(Unexpected);
    }
    var q := ConvertPayload(c, v.payload, cv);
    var kind := if Length(q) == 1 && !v.hasDims then ScalarKind else ArrayKind;
    return Ok(Value(q, kind, v.hasDims, false));
  }

  /** Int NA upcast to double is the double NA, and only it is. */
  lemma IntToDoubleKeepsNA(from: seq<int32>)
    ensures forall k :: 0 <= k < |from| ==> (RDouble.IsNA(Map(Convert.Int2Double, from)[k]) <==> from[k] == INT_NA)
  {
  }

  /**
   * INT_TO_DOUBLE_DIRECT as written stores `result[i] = from[i]`, Java's widening cast,
   * where INT_TO_DOUBLE calls Convert.int2double.
   */
  function IntToDoubleDirectAsWritten(from: seq<int32>): (r: seq<Double>)
    ensures |r| == |from|
  {
    Map(WideningCast, from)
  }

  /** The raw cast and the conversion differ only on NA: without an NA they give the same doubles. */
  lemma DirectCastAgreesOffNA(from: seq<int32>)
    ensures INT_NA !in from <==> IntToDoubleDirectAsWritten(from) == Map(Convert.Int2Double, from)
  {
    if INT_NA in from {
      DirectCastLosesNA(from);
    } else {
      assert forall k :: 0 <= k < |from| ==> IntToDoubleDirectAsWritten(from)[k] == Map(Convert.Int2Double, from)[k];
    }
  }

  /**
   * The raw cast turns the int NA into -2147483648.0, not into the double NA: copying
   * c(1L, NA) to double keeps no NA as written, and keeps it with the conversion.
   */
  lemma DirectCastLosesNA(from: seq<int32>)
    ensures forall k :: 0 <= k < |from| ==> !RDouble.IsNA(IntToDoubleDirectAsWritten(from)[k])
    ensures INT_NA in from ==> IntToDoubleDirectAsWritten(from) != Map(Convert.Int2Double, from)
  {
    forall k | 0 <= k < |from|
      ensures !RDouble.IsNA(IntToDoubleDirectAsWritten(from)[k])
    {
      RDouble.WidenedIntIsNotNA(from[k]);
    }
    if INT_NA in from {
      var k :| 0 <= k < |from| && from[k] == INT_NA;
      assert RDouble.IsNA(Map(Convert.Int2Double, from)[k]);
    }
  }
}
