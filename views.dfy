/**
 * What RLogical and RDouble share: the array-backed vectors that own elements, the lazy
 * exclusion and subset views over them, and the factory's choice between the scalar and
 * the array representation. The two Java files repeat this code for int and double
 * elements; here it is written once, generic in the element type, with the type's NA
 * passed in.
 */
module Views {
  import opened Wrappers
  import opened RTypes

  /** The dimensions attribute; `None` is Java's null. */
  type Dims = seq<int32>

  /**
   * An array-backed vector (LogicalImpl, DoubleImpl, IntImpl): its elements, whether it
   * reports itself shared, and how many times ref() was called on it.
   */
  class Vector<T> {
    var values: seq<T>
    var shared: bool
    var refs: nat

    constructor (values: seq<T>)
      ensures this.values == values && !shared && refs == 0
    {
      this.values := values;
      shared := false;
      refs := 0;
    }
  }

  /** Utils.check failing, and a Java array access out of range. */
  datatype ViewError = BoundsCheck | IndexOutOfBounds

  /**
   * A vector as the interpreter sees it: an owner, or a view over another vector.
   * The views capture the sizes their constructors compute.
   */
  datatype View<T> =
    | Base(vec: Vector<T>)
    | Exclusion(orig: View<T>, excludeIndex: int32, size: int)
    | Subset(value: View<T>, vsize: int, index: Vector<int32>, isize: int)

  /** Every owner object a view reads. */
  function Frame<T>(v: View<T>): set<object>
  {
    match v
    case Base(vec) => {vec}
    case Exclusion(orig, _, _) => Frame(orig)
    case Subset(value, _, index, _) => Frame(value) + {index}
  }

  function Size<T>(v: View<T>): int
    reads Frame(v)
  {
    match v
    case Base(vec) => |vec.values|
    case Exclusion(_, _, size) => size
    case Subset(_, _, _, isize) => isize
  }

  /** RLogicalFactory.exclude / RDoubleFactory.exclude. */
  function Exclude<T>(excludeIndex: int32, orig: View<T>): View<T>
    reads Frame(orig)
  {
    Exclusion(orig, excludeIndex, Size(orig) - 1)
  }

  /** RLogicalFactory.subset / RDoubleFactory.subset. */
  function MakeSubset<T>(value: View<T>, index: Vector<int32>): View<T>
    reads Frame(value), index
  {
    Subset(value, Size(value), index, |index.values|)
  }

  /** getLogical / getDouble. `na` is the element type's NA. */
  function Get<T>(v: View<T>, i: int, na: T): Result<T, ViewError>
    reads Frame(v)
  {
    match v
    case Base(vec) =>
      if 0 <= i < |vec.values| then Ok(vec.values[i]) else Err(IndexOutOfBounds)
    case Exclusion(orig, excludeIndex, size) =>
      if !(i < size) || !(i >= 0) then Err(BoundsCheck)
      else if i < excludeIndex as int then Get(orig, i, na)
      else Get(orig, i + 1, na)
    case Subset(value, vsize, index, _) =>
      if !(0 <= i < |index.values|) then Err(IndexOutOfBounds)
      else
        var j := index.values[i] as int;
        if j > vsize then Ok(na) else Get(value, j - 1, na)
  }

  /** `v` has size |s|, reads s[i] at every i in range, and fails everywhere else. */
  ghost predicate Reads<T>(v: View<T>, na: T, s: seq<T>)
    reads Frame(v)
  {
    && Size(v) == |s|
    && (forall i :: 0 <= i < |s| ==> Get(v, i, na) == Ok(s[i]))
    && (forall i :: (i < 0 || i >= |s|) ==> Get(v, i, na).Err?)
  }

  lemma OwnerReads<T>(vec: Vector<T>, na: T)
    ensures Reads(Base(vec), na, vec.values)
  {
  }

  /** s without its element at k. */
  function Removed<T>(s: seq<T>, k: int): (r: seq<T>)
    requires 0 <= k < |s|
    ensures |r| == |s| - 1
  {
    s[..k] + s[k + 1..]
  }

  /** The position an exclusion actually drops: an index outside the vector drops an end. */
  function Dropped(k: int, n: nat): (d: int)
    requires n > 0
    ensures 0 <= d < n
  {
    if k < 0 then 0 else if k >= n then n - 1 else k
  }

  /**
   * An exclusion of a vector holding s reads s with one element removed: the one at
   * excludeIndex, or the first (last) one when excludeIndex lies below (beyond) the vector.
   */
  lemma ExclusionReadsRemoved<T>(orig: View<T>, k: int32, na: T, s: seq<T>)
    requires Reads(orig, na, s) && |s| > 0
    ensures Reads(Exclude(k, orig), na, Removed(s, Dropped(k, |s|)))
  {
    var v := Exclude(k, orig);
    var r := Removed(s, Dropped(k, |s|));
    forall i | 0 <= i < |r|
      ensures Get(v, i, na) == Ok(r[i])
    {
      if i < k as int {
        assert Get(v, i, na) == Get(orig, i, na);
      } else {
        assert Get(v, i, na) == Get(orig, i + 1, na);
      }
    }
  }

  /** Excluding from an empty vector gives size -1, and every read fails the bounds check. */
  lemma ExclusionOfEmpty<T>(orig: View<T>, k: int32, na: T)
    requires Reads(orig, na, [])
    ensures Size(Exclude(k, orig)) == -1
    ensures forall i :: Get(Exclude(k, orig), i, na) == Err(BoundsCheck)
  {
  }

  /** R's positive-index subscript: an index past the end gives NA. */
  function Gather<T>(s: seq<T>, index: seq<int32>, na: T): (r: seq<T>)
    requires forall k :: 0 <= k < |index| ==> index[k] >= 1
    ensures |r| == |index|
  {
    seq(|index|, k requires 0 <= k < |index| =>
      if index[k] as int > |s| then na else s[index[k] - 1])
  }

  /**
   * A subset view over a vector holding s, with positive indices, reads s gathered at
   * those indices, NA where an index is beyond the vector.
   */
  lemma SubsetReadsGather<T>(value: View<T>, index: Vector<int32>, na: T, s: seq<T>)
    requires Reads(value, na, s)
    requires forall k :: 0 <= k < |index.values| ==> index.values[k] >= 1
    ensures Reads(MakeSubset(value, index), na, Gather(s, index.values, na))
  {
    var v := MakeSubset(value, index);
    var g := Gather(s, index.values, na);
    forall i | 0 <= i < |g|
      ensures Get(v, i, na) == Ok(g[i])
    {
      var j := index.values[i] as int;
      if j <= |s| {
        assert Get(v, i, na) == Get(value, j - 1, na);
      }
    }
  }

  /** Indices must be positive: a non-positive one makes the read fail instead of giving NA. */
  lemma SubsetNonPositiveIndexFails<T>(value: View<T>, index: Vector<int32>, na: T, s: seq<T>, i: int)
    requires Reads(value, na, s)
    requires 0 <= i < |index.values| && index.values[i] <= 0
    ensures Get(MakeSubset(value, index), i, na).Err?
  {
    assert Get(MakeSubset(value, index), i, na) == Get(value, index.values[i] as int - 1, na);
  }

  /** isShared of a view: its owners' flags, as isSharedReal delegates them. */
  predicate IsShared<T>(v: View<T>)
    reads Frame(v)
  {
    match v
    case Base(vec) => vec.shared
    case Exclusion(orig, _, _) => IsShared(orig)
    case Subset(value, _, index, _) => IsShared(value) || index.shared
  }

  /** The owners of elements under a view. */
  function ValueOwners<T>(v: View<T>): (o: set<Vector<T>>)
    ensures o <= Frame(v)
  {
    match v
    case Base(vec) => {vec}
    case Exclusion(orig, _, _) => ValueOwners(orig)
    case Subset(value, _, _, _) => ValueOwners(value)
  }

  /** The index vectors under a view. */
  function IndexOwners<T>(v: View<T>): (o: set<Vector<int32>>)
    ensures o <= Frame(v)
  {
    match v
    case Base(_) => {}
    case Exclusion(orig, _, _) => IndexOwners(orig)
    case Subset(value, _, index, _) => IndexOwners(value) + {index}
  }

  /** A view is shared exactly when one of its owners, element or index vector, is shared. */
  lemma {:induction false} SharedIffSomeOwnerShared<T>(v: View<T>)
    ensures IsShared(v) <==>
      (exists o :: o in ValueOwners(v) && o.shared) || (exists o :: o in IndexOwners(v) && o.shared)
  {
    match v
    case Base(vec) =>
      assert vec in ValueOwners(v);
    case Exclusion(orig, _, _) =>
      SharedIffSomeOwnerShared(orig);
    case Subset(value, _, index, _) =>
      SharedIffSomeOwnerShared(value);
      assert index in IndexOwners(v);
  }

  /** ref() on a view refs every owner under it, and nothing else. */
  method Ref<T>(v: View<T>)
    modifies ValueOwners(v)`refs, IndexOwners(v)`refs
    ensures forall o :: o in ValueOwners(v) && old(allocated(o)) ==> o.refs > old(o.refs)
    ensures forall o :: o in IndexOwners(v) && old(allocated(o)) ==> o.refs > old(o.refs)
    decreases v
  {
    match v
    case Base(vec) =>
      vec.refs := vec.refs + 1;
    case Exclusion(orig, _, _) =>
      Ref(orig);
    case Subset(value, _, index, _) =>
      Ref(value);
      index.refs := index.refs + 1;
  }

  /** The two representations the factories choose between (Scalar*Impl and *Impl). */
  datatype Rep<T> = Scalar(value: T) | Impl(content: array<T>, dims: Option<Dims>)

  /** The elements a representation holds. */
  function Elements<T>(r: Rep<T>): (s: seq<T>)
    reads if r.Impl? then {r.content} else {}
    ensures r.Scalar? ==> s == [r.value]
    ensures r.Impl? ==> s == r.content[..]
  {
    match r
    case Scalar(value) => [value]
    case Impl(content, _) => content[..]
  }

  /** getFor: re-uses `values` unless it is a one-element vector without dimensions. */
  function GetFor<T>(values: array<T>, dims: Option<Dims>): (r: Rep<T>)
    reads values
    ensures r.Scalar? <==> values.Length == 1 && dims.None?
    ensures r.Scalar? ==> r.value == values[0]
    ensures r.Impl? ==> r.content == values && r.dims == dims
  {
    if values.Length == 1 && dims.None? then Scalar(values[0]) else Impl(values, dims)
  }

  /** getScalar(value, dims): a scalar without dimensions, else a one-element array. */
  method GetScalar<T(0)>(value: T, dims: Option<Dims>) returns (r: Rep<T>)
    ensures r.Scalar? <==> dims.None?
    ensures r.Scalar? ==> r.value == value
    ensures r.Impl? ==> fresh(r.content) && r.content[..] == [value] && r.dims == dims
  {
    if dims.None? {
      r := Scalar(value);
    } else {
      var a := new T[1];
      a[0] := value;
      r := GetFor(a, dims);
    }
  }

  /** getNAArray: `na` everywhere, as the boxed NA scalar when one element has no dimensions. */
  method GetNAArray<T(0)>(size: nat, dims: Option<Dims>, na: T) returns (r: Rep<T>)
    ensures r.Scalar? <==> size == 1 && dims.None?
    ensures r.Scalar? ==> r.value == na
    ensures r.Impl? ==> fresh(r.content) && r.dims == dims
    ensures r.Impl? ==> r.content.Length == size && forall i :: 0 <= i < size ==> r.content[i] == na
  {
    if size == 1 && dims.None? {
      return Scalar(na);
    }
    var content := new T[size];
    var i := 0;
    while i < size
      invariant 0 <= i <= size
      invariant forall k :: 0 <= k < i ==> content[k] == na
    {
      content[i] := na;
      i := i + 1;
    }
    r := Impl(content, dims);
  }

  /** getUninitializedArray: Java zero-fills new arrays; `zero` is the element type's zero. */
  method GetUninitializedArray<T>(size: nat, dims: Option<Dims>, zero: T) returns (r: Rep<T>)
    ensures r.Scalar? <==> size == 1 && dims.None?
    ensures r.Scalar? ==> r.value == zero
    ensures r.Impl? ==> fresh(r.content) && r.content[..] == seq(size, _ => zero) && r.dims == dims
  {
    if size == 1 && dims.None? {
      return Scalar(zero);
    }
    var content := new T[size](_ => zero);
    r := Impl(content, dims);
  }

  /** copy: a scalar for one element without dimensions, else a fresh array with the elements. */
  method Copy<T(0)>(values: seq<T>, dims: Option<Dims>) returns (r: Rep<T>)
    ensures r.Scalar? <==> |values| == 1 && dims.None?
    ensures r.Scalar? ==> r.value == values[0]
    ensures r.Impl? ==> fresh(r.content) && r.content[..] == values && r.dims == dims
  {
    if |values| == 1 && dims.None? {
      return Scalar(values[0]);
    }
    var content := new T[|values|];
    var i := 0;
    while i < |values|
      invariant 0 <= i <= |values|
      invariant content[..i] == values[..i]
    {
      content[i] := values[i];
      i := i + 1;
    }
    r := Impl(content, dims);
  }
}
