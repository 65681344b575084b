/** RDouble: the double NA, the double factory's one deviation, and the complex view. */
module RDouble {
  import opened Wrappers
  import opened RTypes
  import opened JavaDouble
  import opened Views

  /** R's NA is one particular NaN pattern. */
  const NA_LONGBITS: Double := 0x7ff0_0000_0000_07a2
  const NA: Double := NA_LONGBITS

  /** RDoubleUtils.isNA compares raw bits, so only this one NaN is NA. */
  predicate IsNA(d: Double)
  {
    d == NA_LONGBITS
  }

  /** NA is a NaN, but not every NaN is NA: Double.NaN is not. */
  lemma NAIsOneOfTheNaNs()
    ensures IsNaN(NA) && IsNA(NA)
    ensures IsNaN(CANONICAL_NAN) && !IsNA(CANONICAL_NAN)
  {
  }

  /** No int widens to NA: a widened int is never even a NaN. */
  lemma WidenedIntIsNotNA(i: int32)
    ensures !IsNA(WideningCast(i))
  {
    NAIsOneOfTheNaNs();
  }

  /**
   * RDoubleFactory.getArray(values, dims): it keeps dimensions, so it chooses the scalar
   * exactly as getFor does, but the array it builds holds its own copy of the elements
   * (only getFor re-uses `values`).
   */
  method GetArray(values: array<Double>, dims: Option<Dims>) returns (r: Rep<Double>)
    ensures r.Scalar? <==> values.Length == 1 && dims.None?
    ensures r.Scalar? ==> r.value == values[0]
    ensures r.Impl? ==> fresh(r.content) && r.content[..] == values[..] && r.dims == dims
  {
    r := Views.Copy(values[..], dims);
  }

  /** RDoubleFactory.getNAArray: every element satisfies isNA. */
  method GetNAArray(size: nat, dims: Option<Dims>) returns (r: Rep<Double>)
    ensures r.Scalar? <==> size == 1 && dims.None?
    ensures r.Scalar? ==> IsNA(r.value)
    ensures r.Impl? ==> fresh(r.content) && r.content.Length == size && r.dims == dims
    ensures r.Impl? ==> forall i :: 0 <= i < size ==> IsNA(r.content[i])
  {
    r := Views.GetNAArray(size, dims, NA);
  }

  /** An RDoubleSubset index past the end of the value reads as isNA. */
  lemma SubsetPastEndIsNA(value: View<Double>, index: Vector<int32>, s: seq<Double>, i: int)
    requires Reads(value, NA, s)
    requires forall k :: 0 <= k < |index.values| ==> index.values[k] >= 1
    requires 0 <= i < |index.values| && index.values[i] as int > |s|
    ensures Get(MakeSubset(value, index), i, NA).Ok?
    ensures IsNA(Get(MakeSubset(value, index), i, NA).value)
  {
    SubsetReadsGather(value, index, NA, s);
  }

  /** RDouble.RComplexView: a double vector seen as complex numbers with zero imaginary part. */
  datatype ComplexView = ComplexView(orig: View<Double>)

  function ComplexSize(c: ComplexView): int
    reads Frame(c.orig)
  {
    Size(c.orig)
  }

  function GetReal(c: ComplexView, i: int): Result<Double, ViewError>
    reads Frame(c.orig)
  {
    Get(c.orig, i, NA)
  }

  /** getImag answers 0 for every index, without a bounds check. */
  function GetImag(c: ComplexView, i: int): Double
  {
    ZERO
  }

  predicate ComplexIsShared(c: ComplexView)
    reads Frame(c.orig)
  {
    IsShared(c.orig)
  }

  /** The complex view of a vector holding s has |s| elements, the k-th being (s[k], 0). */
  lemma ComplexViewReads(c: ComplexView, s: seq<Double>)
    requires Reads(c.orig, NA, s)
    ensures ComplexSize(c) == |s|
    ensures forall k :: 0 <= k < |s| ==> GetReal(c, k) == Ok(s[k]) && GetImag(c, k) == ZERO
    ensures ComplexIsShared(c) <==>
      (exists o :: o in ValueOwners(c.orig) && o.shared) || (exists o :: o in IndexOwners(c.orig) && o.shared)
  {
    SharedIffSomeOwnerShared(c.orig);
  }

  /** ref() on the complex view refs the double vector's owners. */
  method ComplexRef(c: ComplexView)
    modifies ValueOwners(c.orig)`refs, IndexOwners(c.orig)`refs
    ensures forall o :: o in ValueOwners(c.orig) && old(allocated(o)) ==> o.refs > old(o.refs)
    ensures forall o :: o in IndexOwners(c.orig) && old(allocated(o)) ==> o.refs > old(o.refs)
  {
    Ref(c.orig);
  }
}
