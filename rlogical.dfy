/** RLogical: the logical codes, the counting helpers and the logical factory's deviation. */
module RLogical {
  import opened Wrappers
  import opened RTypes
  import opened Views

  const TRUE: int32 := 1
  const FALSE: int32 := 0
  const NA: int32 := INT_MIN

  /**
   * The three codes are distinct, the logical NA is the integer NA, and the counters tell
   * them apart: NA counts as not FALSE, but not as TRUE.
   */
  lemma CodesDistinct()
    ensures TRUE != FALSE && TRUE != NA && FALSE != NA && NA == INT_NA
    ensures Trues([TRUE]) == 1 && Trues([FALSE]) == 0 && Trues([NA]) == 0
    ensures NonFalses([TRUE]) == 1 && NonFalses([FALSE]) == 0 && NonFalses([NA]) == 1
  {
  }

  /** Number of elements equal to TRUE. */
  function Trues(s: seq<int32>): nat
  {
    if s == [] then 0 else Trues(s[..|s| - 1]) + (if s[|s| - 1] == TRUE then 1 else 0)
  }

  /** Number of elements different from FALSE (NA and any other non-zero code count). */
  function NonFalses(s: seq<int32>): nat
  {
    if s == [] then 0 else NonFalses(s[..|s| - 1]) + (if s[|s| - 1] != FALSE then 1 else 0)
  }

  /**
   * Every TRUE is non-false and every element is counted at most once, and the two
   * counts agree exactly when every element is TRUE or FALSE.
   */
  lemma {:induction false} TruesAtMostNonFalses(s: seq<int32>)
    ensures Trues(s) <= NonFalses(s) <= |s|
    ensures Trues(s) == NonFalses(s) <==> forall i :: 0 <= i < |s| ==> s[i] == TRUE || s[i] == FALSE
  {
    if s != [] {
      var p := s[..|s| - 1];
      TruesAtMostNonFalses(p);
      assert forall i :: 0 <= i < |p| ==> p[i] == s[i];
    }
  }

  /** RLogicalUtils.truesInRange over the elements l of a logical vector. */
  method TruesInRange(l: seq<int32>, from: int, to: int) returns (ntrue: int)
    requires from >= to || (0 <= from && to <= |l|)
    ensures ntrue == if from < to then Trues(l[from..to]) else 0
  {
    ntrue := 0;
    var i := from;
    while i < to
      invariant from < to ==> from <= i <= to && ntrue == Trues(l[from..i])
      invariant from >= to ==> ntrue == 0
    {
      assert l[from..i + 1][..i - from] == l[from..i];
      if l[i] == TRUE {
        ntrue := ntrue + 1;
      }
      i := i + 1;
    }
  }

  /** RLogicalUtils.nonFalsesInRange over the elements l of a logical vector. */
  method NonFalsesInRange(l: seq<int32>, from: int, to: int) returns (nnonfalse: int)
    requires from >= to || (0 <= from && to <= |l|)
    ensures nnonfalse == if from < to then NonFalses(l[from..to]) else 0
  {
    nnonfalse := 0;
    var i := from;
    while i < to
      invariant from < to ==> from <= i <= to && nnonfalse == NonFalses(l[from..i])
      invariant from >= to ==> nnonfalse == 0
    {
      assert l[from..i + 1][..i - from] == l[from..i];
      if l[i] != FALSE {
        nnonfalse := nnonfalse + 1;
      }
      i := i + 1;
    }
  }

  /**
   * RLogicalFactory.getArray(values, dims): one element always gives a scalar, even when
   * dimensions are given, so those dimensions are dropped (getFor keeps them); otherwise
   * the array it builds holds its own copy of the elements (only getFor re-uses `values`).
   */
  method GetArray(values: array<int32>, dims: Option<Dims>) returns (r: Rep<int32>)
    ensures r.Scalar? <==> values.Length == 1
    ensures r.Scalar? ==> r.value == values[0]
    ensures r.Impl? ==> fresh(r.content) && r.content[..] == values[..] && r.dims == dims
    ensures values.Length == 1 && dims.Some? ==> GetFor(values, dims).Impl?
  {
    if values.Length == 1 {
      r := Scalar(values[0]);
    } else {
      r := Views.Copy(values[..], dims);
    }
  }

  /** RLogicalFactory.getNAArray: every element is the NA code. */
  method GetNAArray(size: nat, dims: Option<Dims>) returns (r: Rep<int32>)
    ensures r.Scalar? <==> size == 1 && dims.None?
    ensures r.Scalar? ==> r.value == NA
    ensures r.Impl? ==> fresh(r.content) && r.content.Length == size && r.dims == dims
    ensures r.Impl? ==> forall i :: 0 <= i < size ==> r.content[i] == NA
  {
    r := Views.GetNAArray(size, dims, NA);
  }

  /** An RLogicalSubset index past the end of the value reads as the NA code. */
  lemma SubsetPastEndIsNA(value: View<int32>, index: Vector<int32>, s: seq<int32>, i: int)
    requires Reads(value, NA, s)
    requires forall k :: 0 <= k < |index.values| ==> index.values[k] >= 1
    requires 0 <= i < |index.values| && index.values[i] as int > |s|
    ensures Get(MakeSubset(value, index), i, NA) == Ok(NA)
  {
    SubsetReadsGather(value, index, NA, s);
  }
}
