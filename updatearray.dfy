/**
 * UpdateArray: the loops that carry out `x[sel] <- rhs` and `x[[sel]] <- rhs` in place.
 *
 * The selector is abstract: a call sees the sequence of linear lhs offsets it visits in
 * odometer order, each a position or NA. The loops write the rhs cyclically along it,
 * skip NA offsets, and raise the two arity errors of the source.
 */
module UpdateArray {
  import opened Wrappers
  import opened RTypes
  import opened JavaDouble

  /** One step of the selector (Selector.calculateSourceOffset): a position, or RInt.NA. */
  datatype Offset = At(pos: nat) | NAOffset

  /** Every non-NA offset names one of the n elements of the lhs. */
  predicate InBounds(sel: seq<Offset>, n: nat)
  {
    forall k :: 0 <= k < |sel| && sel[k].At? ==> sel[k].pos < n
  }

  /**
   * The two errors of the source, and the zero-length replacement error that the
   * corrected loop raises where the source's loop does not terminate.
   */
  datatype UpdateError = SelectMoreThanOne | NotMultipleReplacement | ZeroLengthReplacement

  datatype Outcome = Done | Failed(error: UpdateError)

  function Map<S, T>(f: S -> T, s: seq<S>): (r: seq<T>)
    ensures |r| == |s|
    ensures forall i :: 0 <= i < |s| ==> r[i] == f(s[i])
  {
    seq(|s|, i requires 0 <= i < |s| => f(s[i]))
  }

  /**
   * The lhs after the first n steps of the selector: step k writes rhs[k mod |rhs|]
   * at its offset, or nothing when the offset is NA.
   */
  function Applied<T>(s: seq<T>, sel: seq<Offset>, rhs: seq<T>, n: nat): (r: seq<T>)
    requires n <= |sel| && (n == 0 || |rhs| > 0) && InBounds(sel, |s|)
    ensures |r| == |s|
  {
    if n == 0 then s
    else
      var prev := Applied(s, sel, rhs, n - 1);
      match sel[n - 1]
      case NAOffset => prev
      case At(p) => prev[p := rhs[(n - 1) % |rhs|]]
  }

  /** The outcome of an update of `size` selected positions from an rhs of rhsSize elements. */
  function UpdateOutcome(size: nat, rhsSize: nat, subset: bool): Outcome
  {
    if !subset && rhsSize > 1 then Failed(SelectMoreThanOne)
    else if rhsSize == 0 then (if size == 0 then Done else Failed(ZeroLengthReplacement))
    else if size % rhsSize != 0 then Failed(NotMultipleReplacement)
    else Done
  }

  /** How many selector steps the update performs before it returns or raises. */
  function Written(size: nat, rhsSize: nat, subset: bool): (w: nat)
    ensures w <= size
  {
    if (!subset && rhsSize > 1) || rhsSize == 0 then 0 else size - size % rhsSize
  }

  /**
   * The errors come at different times: select-more-than-one before any write, the
   * not-multiple error only after floor(size/rhsSize) whole passes over the rhs, which
   * stay written.
   */
  lemma WrittenBeforeError(size: nat, rhsSize: nat, subset: bool)
    ensures UpdateOutcome(size, rhsSize, subset) == Failed(SelectMoreThanOne) ==> Written(size, rhsSize, subset) == 0
    ensures UpdateOutcome(size, rhsSize, subset) == Failed(NotMultipleReplacement) ==>
      (var w := Written(size, rhsSize, subset);
       w == (size / rhsSize) * rhsSize && w < size && size - w < rhsSize)
    ensures UpdateOutcome(size, rhsSize, subset) == Done ==> Written(size, rhsSize, subset) == size
  {
  }

  lemma {:induction false} MulAtLeast(d: nat, m: nat)
    requires d >= 1
    ensures d * m >= m
  {
    if d > 1 {
      MulAtLeast(d - 1, m);
      assert d * m == (d - 1) * m + m;
    }
  }

  /** Euclidean division is unique: x = q*m + r with 0 <= r < m fixes x / m and x % m. */
  lemma DivModUnique(x: int, m: nat, q: int, r: int)
    requires m > 0 && 0 <= r < m && x == q * m + r
    ensures x % m == r && x / m == q
  {
    var d := q - x / m;
    assert d * m == x % m - r;
    if d >= 1 {
      MulAtLeast(d, m);
    }
  }

  /**
   * The general loop (`update`, and the direct `doUpdate` clones that read the rhs
   * content through a conversion): whole passes over the rhs while at least |rhs|
   * selected positions remain, then the not-multiple check.
   */
  method Update<S, T>(lhs: array<T>, rhs: seq<S>, conv: S -> T, sel: seq<Offset>, subset: bool)
    returns (res: Outcome)
    requires InBounds(sel, lhs.Length)
    modifies lhs
    ensures res == UpdateOutcome(|sel|, |rhs|, subset)
    ensures lhs[..] == Applied(old(lhs[..]), sel, Map(conv, rhs), Written(|sel|, |rhs|, subset))
  {
    var rhsSize := |rhs|;
    var replacementSize := |sel|;
    if !subset && rhsSize > 1 {
      return Failed(SelectMoreThanOne);
    }
    if rhsSize == 0 {
      // the source has no such test and its outer loop then never ends
      return if replacementSize == 0 then Done else Failed(ZeroLengthReplacement);
    }
    ghost var s0 := lhs[..];
    ghost var values := Map(conv, rhs);
    var visited := 0;
    ghost var passes := 0;
    while replacementSize >= rhsSize
      invariant 0 <= replacementSize && visited + replacementSize == |sel|
      invariant visited == passes * rhsSize
      invariant lhs[..] == Applied(s0, sel, values, visited)
      decreases replacementSize
    {
      for rhsOffset := 0 to rhsSize
        invariant lhs[..] == Applied(s0, sel, values, visited + rhsOffset)
      {
        DivModUnique(visited + rhsOffset, rhsSize, passes, rhsOffset);
        match sel[visited + rhsOffset]
        case At(p) => lhs[p] := conv(rhs[rhsOffset]);
        case NAOffset =>
      }
      visited := visited + rhsSize;
      passes := passes + 1;
      replacementSize := replacementSize - rhsSize;
    }
    DivModUnique(|sel|, rhsSize, passes, replacementSize);
    if replacementSize != 0 {
      return Failed(NotMultipleReplacement);
    }
    return Done;
  }

  /** The scalar fast paths check the selection size, not the rhs size, for `[[`. */
  function ScalarOutcome(size: nat, subset: bool): Outcome
  {
    if !subset && size > 1 then Failed(SelectMoreThanOne) else Done
  }

  /** Scalar.Int/Double/String.update: every selected position receives the one rhs value. */
  method ScalarUpdate<T>(lhs: array<T>, v: T, sel: seq<Offset>, subset: bool) returns (res: Outcome)
    requires InBounds(sel, lhs.Length)
    modifies lhs
    ensures res == ScalarOutcome(|sel|, subset)
    ensures lhs[..] == Applied(old(lhs[..]), sel, [v], if res.Done? then |sel| else 0)
  {
    var updateSize := |sel|;
    if !subset && updateSize > 1 {
      return Failed(SelectMoreThanOne);
    }
    for i := 0 to updateSize
      invariant lhs[..] == Applied(old(lhs[..]), sel, [v], i)
    {
      match sel[i]
      case At(p) => lhs[p] := v;
      case NAOffset =>
    }
    return Done;
  }

  /** Positions no step names (NA steps name none) keep their old values. */
  lemma {:induction false} AppliedUntouched<T>(s: seq<T>, sel: seq<Offset>, rhs: seq<T>, n: nat, p: nat)
    requires n <= |sel| && (n == 0 || |rhs| > 0) && InBounds(sel, |s|) && p < |s|
    requires forall k :: 0 <= k < n ==> sel[k] != At(p)
    ensures Applied(s, sel, rhs, n)[p] == s[p]
  {
    if n > 0 {
      AppliedUntouched(s, sel, rhs, n - 1, p);
    }
  }

  /**
   * Recycling: a position holds the rhs element of the last step that named it, which
   * for step k is rhs[k mod |rhs|].
   */
  lemma {:induction false} AppliedLastWrite<T>(s: seq<T>, sel: seq<Offset>, rhs: seq<T>, n: nat, k: nat)
    requires n <= |sel| && |rhs| > 0 && InBounds(sel, |s|)
    requires k < n && sel[k].At?
    requires forall j :: k < j < n ==> sel[j] != sel[k]
    ensures Applied(s, sel, rhs, n)[sel[k].pos] == rhs[k % |rhs|]
  {
    if k < n - 1 {
      AppliedLastWrite(s, sel, rhs, n - 1, k);
    }
  }

  /** With no position selected twice, the k-th step's position receives rhs[k mod |rhs|]. */
  lemma Recycling<T>(s: seq<T>, sel: seq<Offset>, rhs: seq<T>, n: nat)
    requires n <= |sel| && |rhs| > 0 && InBounds(sel, |s|)
    requires forall i, j :: 0 <= i < j < |sel| && sel[i].At? ==> sel[i] != sel[j]
    ensures forall k :: 0 <= k < n && sel[k].At? ==> Applied(s, sel, rhs, n)[sel[k].pos] == rhs[k % |rhs|]
  {
    forall k | 0 <= k < n && sel[k].At?
      ensures Applied(s, sel, rhs, n)[sel[k].pos] == rhs[k % |rhs|]
    {
      AppliedLastWrite(s, sel, rhs, n, k);
    }
  }

  /**
   * A scalar update fills every selected position with its value and leaves the rest
   * alone.
   */
  lemma ScalarFillsSelection<T>(s: seq<T>, sel: seq<Offset>, v: T, p: nat)
    requires InBounds(sel, |s|) && p < |s|
    ensures (exists k :: 0 <= k < |sel| && sel[k] == At(p)) ==> Applied(s, sel, [v], |sel|)[p] == v
    ensures (forall k :: 0 <= k < |sel| ==> sel[k] != At(p)) ==> Applied(s, sel, [v], |sel|)[p] == s[p]
  {
    if exists k :: 0 <= k < |sel| && sel[k] == At(p) {
      var k :| 0 <= k < |sel| && sel[k] == At(p);
      while exists j :: k < j < |sel| && sel[j] == At(p)
        invariant 0 <= k < |sel| && sel[k] == At(p)
        decreases |sel| - k
      {
        var j :| k < j < |sel| && sel[j] == At(p);
        k := j;
      }
      AppliedLastWrite(s, sel, [v], |sel|, k);
    } else {
      AppliedUntouched(s, sel, [v], |sel|, p);
    }
  }

  /**
   * The scalar path and the general loop agree on an rhs of one element except in `[[`
   * mode, where only the scalar path rejects a selection of more than one position.
   */
  lemma ScalarAgreesWithGeneral(size: nat, subset: bool)
    ensures UpdateOutcome(size, 1, subset) == Done && Written(size, 1, subset) == size
    ensures ScalarOutcome(size, subset) != UpdateOutcome(size, 1, subset) <==> !subset && size > 1
  {
  }

  /** The complex elements held by interleaved storage: element k is (s[2k], s[2k+1]). */
  function Pairs(s: seq<Double>): (r: seq<(Double, Double)>)
    requires |s| % 2 == 0
    ensures |r| == |s| / 2
    ensures forall k :: 0 <= k < |r| ==> r[k] == (s[2 * k], s[2 * k + 1])
  {
    seq(|s| / 2, k requires 0 <= k < |s| / 2 => (s[2 * k], s[2 * k + 1]))
  }

  /** Writing slots 2p and 2p+1 replaces complex element p and no other. */
  lemma PairsWrite(s: seq<Double>, p: nat, re: Double, im: Double)
    requires |s| % 2 == 0 && p < |s| / 2
    ensures Pairs(s[2 * p := re][2 * p + 1 := im]) == Pairs(s)[p := (re, im)]
  {
    var t := s[2 * p := re][2 * p + 1 := im];
    assert forall k :: 0 <= k < |s| / 2 ==> Pairs(t)[k] == Pairs(s)[p := (re, im)][k];
  }

  /**
   * The complex loops (IntToComplexDirect, DoubleToComplexDirect, ComplexToComplexDirect
   * doUpdate): as Update, with each step writing a real and an imaginary slot.
   */
  method UpdateComplex<S>(lhs: array<Double>, rhs: seq<S>, conv: S -> (Double, Double), sel: seq<Offset>, subset: bool)
    returns (res: Outcome)
    requires lhs.Length % 2 == 0 && InBounds(sel, lhs.Length / 2)
    modifies lhs
    ensures res == UpdateOutcome(|sel|, |rhs|, subset)
    ensures Pairs(lhs[..]) == Applied(Pairs(old(lhs[..])), sel, Map(conv, rhs), Written(|sel|, |rhs|, subset))
  {
    var rsize := |rhs|;
    var replacementSize := |sel|;
    if !subset && rsize > 1 {
      return Failed(SelectMoreThanOne);
    }
    if rsize == 0 {
      return if replacementSize == 0 then Done else Failed(ZeroLengthReplacement);
    }
    ghost var s0 := Pairs(lhs[..]);
    ghost var values := Map(conv, rhs);
    var visited := 0;
    ghost var passes := 0;
    while replacementSize >= rsize
      invariant 0 <= replacementSize && visited + replacementSize == |sel|
      invariant visited == passes * rsize
      invariant Pairs(lhs[..]) == Applied(s0, sel, values, visited)
      decreases replacementSize
    {
      for rhsOffset := 0 to rsize
        invariant Pairs(lhs[..]) == Applied(s0, sel, values, visited + rhsOffset)
      {
        DivModUnique(visited + rhsOffset, rsize, passes, rhsOffset);
        match sel[visited + rhsOffset]
        case At(p) =>
          var (re, im) := conv(rhs[rhsOffset]);
          PairsWrite(lhs[..], p, re, im);
          lhs[2 * p] := re;
          lhs[2 * p + 1] := im;
        case NAOffset =>
      }
      visited := visited + rsize;
      passes := passes + 1;
      replacementSize := replacementSize - rsize;
    }
    DivModUnique(|sel|, rsize, passes, replacementSize);
    if replacementSize != 0 {
      return Failed(NotMultipleReplacement);
    }
    return Done;
  }

  /** Scalar.Complex.update: the one (re, im) pair goes to every selected element. */
  method ScalarUpdateComplex(lhs: array<Double>, re: Double, im: Double, sel: seq<Offset>, subset: bool)
    returns (res: Outcome)
    requires lhs.Length % 2 == 0 && InBounds(sel, lhs.Length / 2)
    modifies lhs
    ensures res == ScalarOutcome(|sel|, subset)
    ensures Pairs(lhs[..]) == Applied(Pairs(old(lhs[..])), sel, [(re, im)], if res.Done? then |sel| else 0)
  {
    var updateSize := |sel|;
    if !subset && updateSize > 1 {
      return Failed(SelectMoreThanOne);
    }
    for i := 0 to updateSize
      invariant Pairs(lhs[..]) == Applied(Pairs(old(lhs[..])), sel, [(re, im)], i)
    {
      match sel[i]
      case At(p) =>
        PairsWrite(lhs[..], p, re, im);
        lhs[2 * p] := re;
        lhs[2 * p + 1] := im;
      case NAOffset =>
    }
    return Done;
  }

  /** The value an update writes into: its storage and whether anyone else can see it. */
  class Target<T> {
    var content: array<T>
    var shared: bool

    constructor (content: array<T>, shared: bool)
      ensures this.content == content && this.shared == shared
    {
      this.content := content;
      this.shared := shared;
    }
  }

  /**
   * executeAndUpdateSelectors: a shared lhs is never written; the call gives up (None),
   * and the caller rewrites the site to Generalized, which copies first.
   */
  method ExecuteAndUpdateSelectors<S, T>(lhs: Target<T>, rhs: seq<S>, conv: S -> T, sel: seq<Offset>, subset: bool)
    returns (res: Option<Outcome>)
    requires InBounds(sel, lhs.content.Length)
    modifies lhs.content
    ensures lhs.shared ==> res == None && unchanged(lhs.content)
    ensures !lhs.shared ==> res == Some(UpdateOutcome(|sel|, |rhs|, subset))
    ensures !lhs.shared ==>
      lhs.content[..] == Applied(old(lhs.content[..]), sel, Map(conv, rhs), Written(|sel|, |rhs|, subset))
  {
    if lhs.shared {
      return None;
    }
    var outcome := Update(lhs.content, rhs, conv, sel, subset);
    return Some(outcome);
  }

  // ---------------------------------------------------------------------------------
  // The loops as written, where they differ from the corrected loops above.
  // ---------------------------------------------------------------------------------

  /**
   * The outer loop of `update` as written, `while (replacementSize >= rhsSize)`, run for
   * at most `fuel` passes: the remaining size once it exits, or None while it still runs.
   */
  function LoopExitAsWritten(replacementSize: int, rhsSize: nat, fuel: nat): Option<int>
  {
    if replacementSize < rhsSize then Some(replacementSize)
    else if fuel == 0 then None
    else LoopExitAsWritten(replacementSize - rhsSize, rhsSize, fuel - 1)
  }

  /** With an empty rhs, e.g. `x[integer(0)] <- integer(0)`, the loop never exits. */
  lemma {:induction false} ZeroLengthRhsNeverExits(replacementSize: nat, fuel: nat)
    ensures LoopExitAsWritten(replacementSize, 0, fuel) == None
  {
    if fuel > 0 {
      ZeroLengthRhsNeverExits(replacementSize, fuel - 1);
    }
  }

  /** With a non-empty rhs the loop exits after floor(size/rhsSize) passes with size mod rhsSize left. */
  lemma {:induction false} PositiveRhsExits(replacementSize: nat, rhsSize: nat)
    requires rhsSize > 0
    ensures LoopExitAsWritten(replacementSize, rhsSize, replacementSize / rhsSize) == Some(replacementSize % rhsSize)
    decreases replacementSize
  {
    if replacementSize >= rhsSize {
      var rest := replacementSize - rhsSize;
      PositiveRhsExits(rest, rhsSize);
      DivModUnique(replacementSize, rhsSize, rest / rhsSize + 1, rest % rhsSize);
    } else {
      DivModUnique(replacementSize, rhsSize, 0, replacementSize);
    }
  }

  /** Java's NullPointerException, which the as-written logical scalar path raises. */
  datatype Crash = NullPointer

  /**
   * Scalar.Logical as written: execute hands `update` a null rhs, and `update` reads
   * rhs.getLogical(0) after the `[[` check, before any write.
   */
  function ScalarLogicalAsWritten(size: nat, subset: bool): Result<Outcome, Crash>
  {
    if !subset && size > 1 then Ok(Failed(SelectMoreThanOne)) else Err(NullPointer)
  }

  /**
   * For instance `x[1] <- TRUE` on an unshared logical vector: every call the `[[` check
   * lets through crashes, where ScalarUpdate completes.
   */
  lemma ScalarLogicalCrashes(size: nat, subset: bool)
    requires subset || size <= 1
    ensures ScalarLogicalAsWritten(size, subset) == Err(NullPointer)
    ensures ScalarOutcome(size, subset) == Done
  {
  }

  /**
   * ComplexToComplexDirect.doUpdate as written tests the interleaved content length,
   * two slots per element, for the `[[` check.
   */
  predicate ComplexDirectRejectsAsWritten(contentLength: nat, subset: bool)
  {
    !subset && contentLength > 1
  }

  /**
   * A one-element complex rhs held as a ComplexImpl (one with dimensions, say) has two
   * slots, so `x[[1]] <- rhs` is rejected as written; by element count it is allowed.
   */
  lemma ComplexDirectRejectsOneElement(rhsContent: seq<Double>)
    requires |rhsContent| == 2
    ensures ComplexDirectRejectsAsWritten(|rhsContent|, false)
    ensures UpdateOutcome(1, |Pairs(rhsContent)|, false) == Done
  {
  }
}
