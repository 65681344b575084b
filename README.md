# purdue-fastr value and update core, in Dafny

This project models the value and mutation engine of the purdue-fastr R interpreter. It covers five parts:

- **Indexed assignment** (`x[sel] <- rhs`, `x[[sel]] <- rhs`, from `UpdateArray.java`):
  - the in-place update loops, with cyclic recycling of the rhs, NA offsets that are skipped, and the two arity errors;
  - the interleaved complex storage;
  - the conversion tables on the ladder logical < int < double < complex < string, with raw apart;
  - the copy-on-write rule and the `ValueCopy` duplicates and upcasts;
  - the per-call-site state machine of node rewrites, including `Generalized` and its `updateType` cache.
- **Logical vectors** (`RLogical.java`):
  - the TRUE/FALSE/NA codes and the counting helpers;
  - the factory's choice between the scalar and the array representation;
  - the exclusion and subset views, with shared-flag and `ref()` propagation to their owners.
- **Double vectors** (`RDouble.java`):
  - the NA bit pattern and `isNA`;
  - the same factory and views;
  - the complex view of a double vector.
- **Comparison** (`Comparison.java`):
  - NA-aware `==` and `<=` on int scalars and on int vectors against int scalars;
  - the node that speculates on scalars and then switches, for good, to the vector/scalar version.
- **Text conversions** (`Convert.java`): logical and int to and from text, and the NA parts of the double conversions.

Modules, one per file:

- `wrappers.dfy` (`Wrappers`): Option and Result.
- `rtypes.dfy` (`RTypes`): 32-bit ints, `RInt.NA`, the modes and the ladder.
- `javadouble.dfy` (`JavaDouble`): IEEE 754 doubles as 64-bit patterns, and Java's int-to-double widening conversion.
- `views.dfy` (`Views`): the owner vectors, the lazy views and the factory, written once for the int-coded logical and the double element types.
- `rlogical.dfy` (`RLogical`), `rdouble.dfy` (`RDouble`), `convert.dfy` (`Convert`), `comparison.dfy` (`Comparison`).
- `updatearray.dfy` (`UpdateArray`): the loops.
- `valuecopy.dfy` (`ValueCopy`): the copies.
- `dispatch.dfy` (`UpdateDispatch`): the node rewrites, the copy decisions and `Generalized`.

The selector is abstract. An update sees the sequence of linear lhs offsets the selectors visit in odometer order. Each offset is a position or NA, and every position lies inside the lhs. The interpreter's `Configuration` switches are fields of `UpdateDispatch.Config`.

## Model

| member | source | states |
|---|---|---|
| RTypes.Join | src/r/nodes/truffle/UpdateArray.java:525-585 | the join of two ladder modes is one of them, at or above both |
| RTypes.JoinIsLeastUpperBound | src/r/nodes/truffle/UpdateArray.java:525-585 | the mode CopyLhs copies to is the least mode both operands convert to, whatever their order |
| JavaDouble.WideningCast | src/r/nodes/truffle/UpdateArray.java:1872-1886 | `(double) i` is exact: zero only for 0, the exponent encodes the magnitude's top bit, the 52-bit fraction holds the rest, the sign bit is i < 0, never a NaN |
| RDouble.NAIsOneOfTheNaNs | src/r/data/RDouble.java:11-30 | R's NA 0x7ff00000000007a2 is a NaN and isNA; Java's canonical NaN is a NaN but not NA |
| RDouble.WidenedIntIsNotNA | src/r/data/RDouble.java:28-30 | no int widened by a plain cast has the NA bit pattern |
| RDouble.GetArray | src/r/data/RDouble.java:76-81 | getArray(values, dims) chooses as getFor does, a scalar exactly for one element without dims, but otherwise builds a fresh array holding the same elements and the dims |
| RDouble.GetNAArray | src/r/data/RDouble.java:97-104 | n elements that are all NA; the NA scalar for n == 1 without dims |
| RDouble.SubsetPastEndIsNA | src/r/data/RDouble.java:668-675 | a subset index past the end of the value reads NA |
| RDouble.ComplexViewReads | src/r/data/RDouble.java:131-222 | the complex view has the owner's size, real part the owner's element, imaginary part 0, and is shared iff the owner is |
| RDouble.ComplexRef | src/r/data/RDouble.java:220-222 | ref() on the complex view refs every owner under it |
| RLogical.CodesDistinct | src/r/data/RLogical.java:12-14 | TRUE, FALSE and NA are three distinct codes, NA is RInt.NA, and the counters count NA as not FALSE but not as TRUE |
| RLogical.TruesAtMostNonFalses | src/r/data/RLogical.java:27-44 | trues <= non-falses <= length, equal exactly when there is no NA or other code |
| RLogical.TruesInRange | src/r/data/RLogical.java:27-35 | the loop counts the TRUE codes in [from, to), 0 for an empty range |
| RLogical.NonFalsesInRange | src/r/data/RLogical.java:36-44 | the loop counts the codes other than FALSE in [from, to), so NA counts |
| RLogical.GetArray | src/r/data/RLogical.java:73-78 | one element gives a scalar even with dims, where getFor would keep the dims; otherwise a fresh array holding the same elements and the dims |
| RLogical.GetNAArray | src/r/data/RLogical.java:94-101 | n elements that are all NA; the NA scalar for n == 1 without dims |
| RLogical.SubsetPastEndIsNA | src/r/data/RLogical.java:664-671 | a subset index past the end of the value reads NA |
| Views.ExclusionReadsRemoved | src/r/data/RLogical.java:602-629 | an exclusion reads its original with one element removed (the first or the last when excludeIndex is outside) |
| Views.ExclusionOfEmpty | src/r/data/RLogical.java:608-622 | excluding from an empty vector gives size -1 and every read fails the bounds check |
| Views.SubsetReadsGather | src/r/data/RLogical.java:644-671 | a subset with positive indices reads the value at index-1, NA past the end, and has the index's size |
| Views.SubsetNonPositiveIndexFails | src/r/data/RLogical.java:642-671 | a non-positive index does not give NA: the read fails |
| Views.SharedIffSomeOwnerShared | src/r/data/RLogical.java:632-676 | a view reports shared iff some value or index owner under it is shared |
| Views.Ref | src/r/data/RLogical.java:637-682 | ref() on a view increments the ref count of every value and index owner under it, and of nothing else |
| Views.GetFor | src/r/data/RLogical.java:114-119 | a scalar iff one element and no dims; otherwise the same array, not a copy |
| Views.GetScalar | src/r/data/RLogical.java:60-66 | a scalar without dims, else a fresh one-element array with the dims |
| Views.GetNAArray | src/r/data/RDouble.java:97-104 | the shared code of both getNAArray: n NA elements, a scalar for one element without dims |
| Views.GetUninitializedArray | src/r/data/RLogical.java:85-90 | a fresh zero-filled array of the size, a scalar for one element without dims |
| Views.Copy | src/r/data/RLogical.java:105-110 | a fresh array with the same elements, a scalar for one element without dims |
| Convert.String2Lgl | src/r/Convert.java:24-32 | "TRUE"/"T" give TRUE, "FALSE"/"F" give FALSE, every other text NA |
| Convert.LogicalRoundTrip | src/r/Convert.java:24-43 | string2lgl(logical2string(v)) == v for TRUE, FALSE and NA |
| Convert.OtherCodesReadBackTrue | src/r/Convert.java:34-43 | any other code prints as "TRUE" and reads back as TRUE |
| Convert.LogicalTextRoundTrip | src/r/Convert.java:24-43 | text survives string2lgl then logical2string exactly when it is "TRUE", "FALSE" or "NA" |
| Convert.DigitsRoundTrip | src/r/Convert.java:45-58 | decimal digits read back as the number they print |
| Convert.DecimalTextRoundTrip | src/r/Convert.java:53-58 | parseInt reads back every int's decimal text |
| Convert.Int2StringNA | src/r/Convert.java:45-51 | int2string gives "NA" exactly for RInt.NA |
| Convert.Int2StringReadBack | src/r/Convert.java:45-58 | "NA" reads back; any other int's text ends in "L", which string2int rejects, and without the "L" reads back |
| Convert.MinValueTextIsNA | src/r/Convert.java:53-58 | the text of Integer.MIN_VALUE parses to RInt.NA, as the two are the same int |
| Convert.DoubleNARoundTrip | src/r/Convert.java:7-22 | "NA" gives the NA bit pattern, which prints as "NA"; every other double goes to Double.toString |
| Convert.Int2Double | src/r/nodes/truffle/UpdateArray.java:1856-1869 | the conversion INT_TO_DOUBLE applies: NA exactly for RInt.NA, otherwise the exact widening |
| Comparison.Comparator | src/r/nodes/truffle/Comparison.java:27-32 | only EQ and LE have a comparator; any other operator is an error |
| Comparison.CmpScalar | src/r/nodes/truffle/Comparison.java:66-76 | a logical code, NA exactly when either operand is NA |
| Comparison.ComparatorLaws | src/r/nodes/truffle/Comparison.java:265-285 | on non-NA ints == is symmetric and implies <=, and <= is total and antisymmetric |
| Comparison.CmpVectorScalar | src/r/nodes/truffle/Comparison.java:230-245 | the loop yields a.size() codes, element i being the scalar comparison of a[i] with b |
| Comparison.CmpScalarVector | src/r/nodes/truffle/Comparison.java:246-261 | the mirror: b.size() codes, element i comparing a with b[i] |
| Comparison.ScalarAndVectorAgreeOnIntScalars | src/r/nodes/truffle/Comparison.java:66-154 | for two int scalars the vector node gives what the scalar node gives |
| Comparison.LeftIntNAShortCuts | src/r/nodes/truffle/Comparison.java:66-70 | an NA int on the left gives NA whatever the right operand is |
| Comparison.IntVectorShapes | src/r/nodes/truffle/Comparison.java:136-154 | int/int gives a result iff one side has one element and the other at least one, of the vector's length and NA exactly where an operand is NA; otherwise null |
| Comparison.MixedIntFallback | src/r/nodes/truffle/Comparison.java:167-177 | with an int operand and a one-element right side, the left side's ints are compared with the right side's int |
| Comparison.MixedFallbackIgnoresRight | src/r/nodes/truffle/Comparison.java:167-169 | `5L == TRUE` as written compares 5 with itself (TRUE), corrected gives FALSE; `TRUE == 1L` gives null as written, TRUE corrected |
| Comparison.ComparisonNode.Execute | src/r/nodes/truffle/Comparison.java:36-95 | the scalar answer while it can, otherwise the node turns into the vector node for good and answers on the same operands (mixed int fallback as corrected, see Findings) |
| Comparison.ComparisonNode.ExecuteVector | src/r/nodes/truffle/Comparison.java:111-184 | the vector/scalar node's result for the operands (mixed int fallback as corrected, see Findings) |
| UpdateArray.WrittenBeforeError | src/r/nodes/truffle/UpdateArray.java:189-218 | select-more-than-one comes before any write; not-multiple comes after floor(S/R)*R writes, which stay |
| UpdateArray.Update | src/r/nodes/truffle/UpdateArray.java:189-218 | the outcome is the arity rule, and the lhs is the old lhs with the first Written steps applied, rhs recycled |
| UpdateArray.ScalarUpdate | src/r/nodes/truffle/UpdateArray.java:900-929 | a `[[` update of several positions fails before writing; otherwise the value lands at every selected offset |
| UpdateArray.AppliedLastWrite | src/r/nodes/truffle/UpdateArray.java:201-212 | the last write to a position, at step k, leaves rhs[k mod R] there |
| UpdateArray.Recycling | src/r/nodes/truffle/UpdateArray.java:201-212 | with no position selected twice, the position of step k holds rhs[k mod R] |
| UpdateArray.ScalarFillsSelection | src/r/nodes/truffle/UpdateArray.java:849-873 | a scalar update stores v at every selected position and leaves every other position alone |
| UpdateArray.ScalarAgreesWithGeneral | src/r/nodes/truffle/UpdateArray.java:849-854 | a scalar leaf and the general loop differ only on a `[[` update of more than one position |
| UpdateArray.Pairs | src/r/nodes/truffle/UpdateArray.java:1701-1709 | complex element k is stored at slots 2k and 2k+1 |
| UpdateArray.PairsWrite | src/r/nodes/truffle/UpdateArray.java:1706-1710 | writing slots 2p and 2p+1 changes complex element p and nothing else |
| UpdateArray.UpdateComplex | src/r/nodes/truffle/UpdateArray.java:1688-1720 | the complex loop on interleaved storage is the general update on the pairs, arity by element count |
| UpdateArray.ScalarUpdateComplex | src/r/nodes/truffle/UpdateArray.java:1002-1029 | the complex scalar leaf writes (re, im) at every selected element |
| UpdateArray.ExecuteAndUpdateSelectors | src/r/nodes/truffle/UpdateArray.java:149-180 | a shared lhs is left unchanged and the call gives up; otherwise the update runs |
| UpdateArray.ZeroLengthRhsNeverExits | src/r/nodes/truffle/UpdateArray.java:201-215 | with R == 0 the outer loop as written does not exit for any number of passes |
| UpdateArray.PositiveRhsExits | src/r/nodes/truffle/UpdateArray.java:201-215 | with R >= 1 it exits after floor(S/R) passes with S mod R left |
| UpdateArray.ScalarLogicalCrashes | src/r/nodes/truffle/UpdateArray.java:836-857 | every logical scalar update the `[[` check lets through dereferences a null rhs |
| UpdateArray.ComplexDirectRejectsOneElement | src/r/nodes/truffle/UpdateArray.java:1693-1695 | a one-element complex rhs of two slots is rejected by the `[[` check as written |
| ValueCopy.WithZeroImag | src/r/nodes/truffle/UpdateArray.java:1918-1968 | the upcasts to complex keep the length and give a zero imaginary part |
| ValueCopy.CopyLands | src/r/nodes/truffle/UpdateArray.java:1778-2130 | a copy accepts exactly its source mode (plain arrays for direct copies), lands in its target mode, keeps length and dims, is unshared and built by getFor; a duplicate keeps the elements |
| ValueCopy.CopyElements | src/r/nodes/truffle/UpdateArray.java:1794-1808 | the loop fills a fresh array with the converted elements |
| ValueCopy.CopyToComplex | src/r/nodes/truffle/UpdateArray.java:1935-1949 | a fresh array of twice the length whose pairs are the elements with imaginary part 0 |
| ValueCopy.CopyComplex | src/r/nodes/truffle/UpdateArray.java:2002-2017 | a fresh interleaved array holding the same pairs |
| ValueCopy.ConvertPayload | src/r/nodes/truffle/UpdateArray.java:1778-2130 | the loops compute the elements Converted specifies (INT_TO_DOUBLE_DIRECT keeps NA, as corrected, see Findings) |
| ValueCopy.Copy | src/r/nodes/truffle/UpdateArray.java:1766-1768 | copy(what) is Copied: the exception for the wrong class, else the converted value (INT_TO_DOUBLE_DIRECT as corrected) |
| ValueCopy.DirectCastAgreesOffNA | src/r/nodes/truffle/UpdateArray.java:1872-1886 | the raw-cast INT_TO_DOUBLE_DIRECT and the NA-keeping conversion give the same doubles exactly when the ints hold no NA |
| ValueCopy.IntToDoubleKeepsNA | src/r/nodes/truffle/UpdateArray.java:1856-1869 | an int-to-double copy gives NA exactly where the ints are NA |
| ValueCopy.DirectCastLosesNA | src/r/nodes/truffle/UpdateArray.java:1872-1886 | the direct copy as written never yields NA, so it differs from INT_TO_DOUBLE on any NA |
| UpdateDispatch.IsConvertibleIsLadder | src/r/nodes/truffle/UpdateArray.java:70-90 | isConvertible holds exactly for the same class, for string targets, and upwards on the ladder |
| UpdateDispatch.CopyLhsIsJoin | src/r/nodes/truffle/UpdateArray.java:525-585 | the lhs copy goes to the join, is a duplicate iff the rhs fits, is direct iff enabled for a plain array with direct access; a raw rhs is not implemented |
| UpdateDispatch.CopyRhsOnlyUpwards | src/r/nodes/truffle/UpdateArray.java:702-743 | an rhs copy exists iff the rhs is strictly below the lhs, and lifts it to the lhs mode |
| UpdateDispatch.AfterCopiesMeet | src/r/nodes/truffle/UpdateArray.java:424-449 | the copies give two operands of the join mode; the lhs is copied iff an upcast, shared, or depended on by an uncopied rhs; raw operands fail |
| UpdateDispatch.GeneralizeAsWrittenDiffersOnlyOnStaleType | src/r/nodes/truffle/UpdateArray.java:397-421 | the code as written and the corrected Generalized agree whenever the direct part is tried or the type is general; only a shared lhs with the direct part on keeps the earlier type |
| UpdateDispatch.GeneralizedDirectFits | src/r/nodes/truffle/UpdateArray.java:360-421 | the direct part runs only on an unshared, unaliased lhs whose classes fit; the cache does not change the answer; with the corrected reset, a skipped direct part leaves the general type (see Findings) |
| UpdateDispatch.GeneralizeIsSafe | src/r/nodes/truffle/UpdateArray.java:356-451 | Generalized never writes a shared lhs and runs a loop whose casts succeed |
| UpdateDispatch.GeneralizeCacheIsTransparent | src/r/nodes/truffle/UpdateArray.java:360-396 | with or without the updateType cache a call does the same |
| UpdateDispatch.StaleUpdateTypeMisfits | src/r/nodes/truffle/UpdateArray.java:397-474 | as written a stale INT_TO_INT_DIRECT runs on two doubles; corrected, the general loop runs |
| UpdateDispatch.EscalateIsSafe | src/r/nodes/truffle/UpdateArray.java:337-347 | rewriting the site to Generalized is safe and keeps an earlier lhs copy on record |
| UpdateDispatch.ExecuteAndUpdateIsSafe | src/r/nodes/truffle/UpdateArray.java:149-180 | a fitting loop either runs on the unshared lhs or the site goes Generalized |
| UpdateDispatch.LeafStepIsSafe | src/r/nodes/truffle/UpdateArray.java:268-288 | IdenticalTypes and the Scalar/NonScalar leaves run only loops that fit, on an unshared lhs |
| UpdateDispatch.RhsStepIsSafe | src/r/nodes/truffle/UpdateArray.java:230-256 | RHSCompatible and CopyRhs keep the leaves safe, lifting the rhs or going Generalized |
| UpdateDispatch.ChainStepIsSafe | src/r/nodes/truffle/UpdateArray.java:591-666 | CopyLhs upcasts always, duplicates when shared or depended on, and keeps the choice |
| UpdateDispatch.DirectStepIsSafe | src/r/nodes/truffle/UpdateArray.java:1302-1315 | a direct node checks its classes and that the lhs is unshared, copies when aliased or configured, else goes Generalized |
| UpdateDispatch.StepIsSafe | src/r/nodes/truffle/UpdateArray.java:104-139 | from any state a call never updates a shared lhs in place, runs a loop that fits, and only rewrites towards Generalized, which it never leaves (Generalized with the corrected reset of its type) |
| UpdateDispatch.LogicalScalarLeafIsReached | src/r/nodes/truffle/UpdateArray.java:129-134 | a fresh site given a logical vector and a TRUE scalar runs the Scalar.Logical leaf on the real rhs, whatever the configuration, where the leaf as written passes a null rhs and fails |
| UpdateDispatch.DirectAgreesWithGeneral | src/r/nodes/truffle/UpdateArray.java:1393-1425 | a direct loop leaves what the general loop leaves after the matching non-direct rhs copy (IntToDoubleDirect as corrected, keeping NA) |
| UpdateDispatch.ScalarLeafAgreesWithGeneral | src/r/nodes/truffle/UpdateArray.java:849-873 | a scalar leaf leaves what the general loop leaves, except on a `[[` update of several positions |
| UpdateDispatch.UpdateSite.Execute | src/r/nodes/truffle/UpdateArray.java:104-139 | one call advances the site as Step says, keeping it valid, the run safe and the level monotone (Generalized with the corrected reset of its type) |

## Left out

- Selector internals (`initializeSelectors`, `nextIndex`, `calculateSourceOffset`, `increment`) are not shown. An update takes the offsets they produce, required to be in bounds. Selector replacement on a failed selector (UpdateArray.java:159-172) is not modelled.
- Truffle's `Frame`, `replace` and `UnexpectedResultException` jumps are modelled as a state field that a call advances, and the re-execution after a rewrite as a call on the new state.
- `rhs.dependsOn(lhs)` and `lhs == rhs` are inputs of a call (`depends`, `alias`). A fresh copy is taken not to depend on the lhs.
- UpdateDispatch.StepIsSafe: holds for an lhs built by the factory (a scalar exactly for one element without dims). A direct node copies its lhs with a *_DIRECT copy, which returns getFor's result (UpdateArray.java:1836) and so a scalar for one element without dims, while the direct loop casts the lhs to the array class (UpdateArray.java:1322); the direct node's class test only matches that copy when the lhs it was given has the factory's shape.
- Attributes and names are not modelled; dims are a flag on a copied value and an opaque field in the factories.
- Floating point is out: double arithmetic and ordering, `Double.toString` and `parseDouble` (parameters of the conversions), `fitsRInt`, and double-to-int or double-to-raw conversion.
- The double paths of Comparison give `NotModelled`. Their NA tests compare a NaN with `==` and never hold.
- Convert.int2double is not part of this model. Convert.Int2Double gives the behaviour its use in INT_TO_DOUBLE needs: NA to NA, other ints widened.
- The conversions `logical2int`, `logical2double` and `complex2string` are not part of this model. They are parameters of `ValueCopy.Conversions`, as is `double2string`'s formatting.
- ValueCopy.Converted: LOGICAL_TO_COMPLEX and INT_TO_COMPLEX(_DIRECT) widen NA codes with a raw cast as written. Complex NA is not part of this model, so that is kept.
- Comparison.MixedIntFallback: the int view of a string or other value (`asInt`) is not part of this model and gives `NotModelled`.
- BOXED_NA's identity: GetNAArray returns an NA scalar, not a shared object.
- Views.Ref: the ref count of the base vector class is not shown. An owner carries its own counter and `shared` flag, and the two are independent.
- The view classes' `as*()` delegations, `logicalToRaw`, `getMatrixFor`, the string and raw views of RLogical and RDouble, and their `materialize` are not modelled.
- `Logical.java`, `TypeOf.java`, `OpAnd.java`, `Ln.java` and `REnvironment.java` are thin wrappers around code that is not shown and are not part of this model.
- A one-element raw rhs goes to NonScalar.Raw, as in the source; the NonScalar leaves for equal modes run the general loop.
- RError message texts: errors are distinct outcomes.
- RDouble.GetArray: the DoubleImpl constructors are not part of this model; the two-argument one is taken to copy `values`, which is what sets getArray apart from getFor ("re-uses values!").
- RLogical.GetArray: the LogicalImpl constructors are not part of this model; the two-argument one is taken to copy `values`, as for RDouble.GetArray.
- Convert.ParseInt: accepts ASCII decimal digits only; Java's Integer.parseInt also accepts the other Unicode decimal digits, which character classes outside this model would be needed to tell apart.
- Comparison.ComparisonNode.Execute: the mixed int fallback of the vector node is modelled as corrected (Comparison.MixedIntFallback, Findings row 6), so `5L == TRUE` gives FALSE and `TRUE == 1L` gives TRUE; as written (Comparison.MixedIntFallbackAsWritten) they give TRUE and null.
- Comparison.ComparisonNode.ExecuteVector: the same corrected mixed int fallback; the code as written is Comparison.MixedIntFallbackAsWritten.
- ValueCopy.ConvertPayload: the direct int-to-double copy keeps NA as corrected (Findings row 2); as written it is ValueCopy.IntToDoubleDirectAsWritten, which ValueCopy.DirectCastAgreesOffNA shows differs exactly on an NA element.
- ValueCopy.Copy: inherits the corrected direct int-to-double copy of ValueCopy.ConvertPayload.
- UpdateDispatch.DirectAgreesWithGeneral: the direct int-to-double loop keeps NA as corrected; as written IntToDoubleDirect.doUpdate casts NA to -2147483648.0, so the agreement holds as written only for an rhs without NA (ValueCopy.DirectCastAgreesOffNA). The direct complex loop's `[[` check counts elements, as corrected (Findings row 4); as written it counts interleaved slots, so `x[[1]] <- z` with a one-element complex array z fails the direct loop and succeeds in the general one (UpdateArray.ComplexDirectRejectsOneElement).
- UpdateDispatch.GeneralizedDirectFits: the reset of the type when the direct part is skipped is the corrected Generalized (Findings row 5); as written (UpdateDispatch.GeneralizedDirectAsWritten) a shared lhs keeps the earlier type.
- UpdateDispatch.StepIsSafe: Step runs the corrected Scalar.Logical leaf (Findings row 1): as written that leaf updates with a null rhs and fails, so `x[1] <- TRUE` on a fresh site crashes where the model runs a safe loop (UpdateDispatch.LogicalScalarLeafIsReached). Step also uses the corrected Generalized; as written a Generalized site whose lhs is shared can dispatch a stale direct type (UpdateDispatch.StaleUpdateTypeMisfits), and UpdateDispatch.GeneralizeAsWrittenDiffersOnlyOnStaleType shows that is the only case where the two differ.
- UpdateDispatch.UpdateSite.Execute: advances the site by the corrected Step, so it does not exhibit the stale-type dispatch nor the Scalar.Logical null-rhs failure of the code as written.
- UpdateDispatch.LeafStepIsSafe: the Scalar.Logical leaf is the corrected one (Findings row 1), run on the real rhs; as written it passes a null rhs and fails on the first write (UpdateArray.ScalarLogicalCrashes).
- UpdateDispatch.RhsStepIsSafe: its safety passes through the corrected Scalar.Logical leaf of UpdateDispatch.LeafStepIsSafe.
- UpdateDispatch.ChainStepIsSafe: its safety passes through the corrected Scalar.Logical leaf of UpdateDispatch.LeafStepIsSafe.
- UpdateDispatch.AfterCopiesMeet: the `UnimplementedCopy` stop models Utils.check inside a Java `assert` (UpdateArray.java:447-449), so it holds with assertions enabled; with them off the general loop runs on a raw lhs with a ladder rhs, storing through getRef (UpdateArray.java:207), which is not modelled.

## Findings

| source | as written | input that shows it | evidently intended | confidence | as-written member | corrected member |
|---|---|---|---|---|---|---|
| src/r/nodes/truffle/UpdateArray.java:842 | Scalar.Logical.execute passes `null` as the rhs, and `update` reads `rhs.getLogical(0)` (857) | `x[1] <- TRUE` with x an unshared logical vector | pass the rhs, as the other Scalar leaves do | high, not executed | UpdateArray.ScalarLogicalCrashes | UpdateArray.ScalarFillsSelection |
| src/r/nodes/truffle/UpdateArray.java:1872-1886 | INT_TO_DOUBLE_DIRECT, and IntToDoubleDirect.doUpdate at 1412, widen with a raw cast, so an NA int becomes -2147483648.0 | `x <- c(1.5, 2.5); x[1:2] <- c(NA_integer_, 1L)` | NA stays NA, as INT_TO_DOUBLE does through Convert.int2double | high, not executed | ValueCopy.DirectCastLosesNA | ValueCopy.IntToDoubleKeepsNA |
| src/r/nodes/truffle/UpdateArray.java:205-213 | `while (replacementSize >= rhsVal.length)` never ends when the rhs is empty | `x[1] <- integer(0)` | stop with an error, as R's "replacement has length zero" | high, not executed | UpdateArray.ZeroLengthRhsNeverExits | UpdateArray.Update |
| src/r/nodes/truffle/UpdateArray.java:1693-1695 | ComplexToComplexDirect tests the interleaved content length, two slots per element, in the `[[` check | `x[[1]] <- z` with z a one-element complex array that has dims | count elements, `rhsVal.length / 2` | medium, not executed | UpdateArray.ComplexDirectRejectsOneElement | UpdateArray.UpdateComplex |
| src/r/nodes/truffle/UpdateArray.java:397-421 | Generalized resets `updateType` only inside the direct branch, so a shared lhs keeps the type of an earlier call and `update` dispatches on it | an int/int update, then one with a shared double lhs and a double rhs, at the same Generalized site | reset the type whenever the direct part is skipped | high, not executed | UpdateDispatch.StaleUpdateTypeMisfits | UpdateDispatch.GeneralizeIsSafe |
| src/r/nodes/truffle/Comparison.java:167-169 | the mixed int fallback tests `lexpr` twice and converts `lexpr` for both sides | `5L == TRUE` | test and convert `rexpr` for the right side | high, not executed | Comparison.MixedFallbackIgnoresRight | Comparison.MixedIntFallback |
