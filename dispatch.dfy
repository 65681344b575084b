/**
 * UpdateDispatch: how one `x[sel] <- rhs` call site chooses what to copy and which loop
 * to run. The site starts uninitialized, specializes itself on the first operands it
 * sees, and rewrites itself to Generalized when a later call breaks its assumptions.
 */
module UpdateDispatch {
  import opened Wrappers
  import opened RTypes
  import opened JavaDouble
  import opened UpdateArray
  import opened ValueCopy
  import Convert

  /** The Configuration.ARRAY_UPDATE_*_VALUECOPY_DIRECT_ACCESS switches. */
  datatype CopyConfig = CopyConfig(
    lhsDirect: bool,               // ARRAY_UPDATE_LHS_VALUECOPY_DIRECT_ACCESS
    rhsDirect: bool)               // ARRAY_UPDATE_RHS_VALUECOPY_DIRECT_ACCESS

  /** The Configuration.ARRAY_UPDATE_* switches; their values are not part of this model. */
  datatype Config = Config(
    directSpecializations: bool,   // ARRAY_UPDATE_DIRECT_SPECIALIZATIONS
    directInGeneralized: bool,     // ARRAY_UPDATE_DIRECT_SPECIALIZATIONS_IN_GENERALIZED
    generalizedCache: bool,        // ARRAY_UPDATE_DIRECT_SPECIALIZATIONS_IN_GENERALIZED_CACHE
    copies: CopyConfig,
    noLhsCopyWithoutAlias: bool)   // ARRAY_UPDATE_DO_NOT_COPY_LHS_WHEN_NO_ALIAS_IN_DIRECT_SPECIALIZATIONS

  function M(v: Value): Mode { ModeOf(v.payload) }

  /** getClass() equality. */
  predicate SameClass(a: Value, b: Value) { M(a) == M(b) && a.kind == b.kind }

  /** isConvertible(from, to): whether `to` can take `from`'s elements without an lhs upcast. */
  predicate IsConvertible(from: Value, to: Value)
  {
    var f, t := M(from), M(to);
    if SameClass(from, to) then true
    else if t == DoubleMode && (f == IntMode || f == DoubleMode || f == LogicalMode) then true
    else if t == IntMode && (f == IntMode || f == LogicalMode) then true
    else if t == ComplexMode && (f == IntMode || f == DoubleMode || f == ComplexMode || f == LogicalMode) then true
    else if t == StringMode then true
    else if t == LogicalMode && f == LogicalMode then true
    else false
  }

  /** isConvertible is the ladder: same class, anything into string, or upwards on the ladder. */
  lemma IsConvertibleIsLadder(from: Value, to: Value)
    ensures IsConvertible(from, to) <==>
      || SameClass(from, to)
      || M(to) == StringMode
      || (OnLadder(M(from)) && OnLadder(M(to)) && Rank(M(from)) <= Rank(M(to)))
  {
  }

  /** Why a call ends without running an update loop: Utils.nyi, or Utils.check on the modes. */
  datatype Stop = NotYetImplemented | UnimplementedCopy

  /** CopyLhs.determineCopyImplementation. */
  function CopyLhsImpl(cc: CopyConfig, lhs: Value, rhs: Value): Result<CopyImpl, Stop>
  {
    var l, r := M(lhs), M(rhs);
    var direct := cc.lhsDirect && lhs.kind == ArrayKind;
    if r == RawMode then Err(NotYetImplemented)
    else if r == IntMode && l == LogicalMode then Ok(CopyImpl(LogicalMode, IntMode, false))
    else if r == DoubleMode && l == LogicalMode then Ok(CopyImpl(LogicalMode, DoubleMode, false))
    else if r == DoubleMode && l == IntMode then Ok(CopyImpl(IntMode, DoubleMode, direct))
    else if r == ComplexMode && l == LogicalMode then Ok(CopyImpl(LogicalMode, ComplexMode, false))
    else if r == ComplexMode && (l == IntMode || l == DoubleMode) then Ok(CopyImpl(l, ComplexMode, direct))
    else if r == StringMode && l != StringMode && l != RawMode then Ok(CopyImpl(l, StringMode, false))
    else Ok(CopyImpl(l, l, direct && HasDirectAccess(l)))
  }

  /**
   * The lhs copy goes to the join of the two modes on the ladder (a raw lhs is only
   * duplicated), is a duplicate exactly when the rhs already fits, and is direct exactly
   * when enabled for a plain array of an int, double or complex mode. A raw rhs is not
   * handled.
   */
  lemma CopyLhsIsJoin(cc: CopyConfig, lhs: Value, rhs: Value)
    ensures CopyLhsImpl(cc, lhs, rhs).Err? <==> M(rhs) == RawMode
    ensures CopyLhsImpl(cc, lhs, rhs).Ok? ==>
      var c := CopyLhsImpl(cc, lhs, rhs).value;
      && Known(c) && c.from == M(lhs)
      && c.to == (if OnLadder(M(lhs)) then Join(M(lhs), M(rhs)) else RawMode)
      && (IsDuplicate(c) <==> !OnLadder(M(lhs)) || Rank(M(rhs)) <= Rank(M(lhs)))
      && (c.direct <==> cc.lhsDirect && lhs.kind == ArrayKind && HasDirectAccess(c.from) && HasDirectAccess(c.to))
  {
  }

  /** CopyRhs.determineCopyImplementation: None stands for null. */
  function CopyRhsImpl(cc: CopyConfig, lhs: Value, rhs: Value): Option<CopyImpl>
  {
    var l, r := M(lhs), M(rhs);
    var direct := cc.rhsDirect && rhs.kind == ArrayKind;
    match l
    case IntMode =>
      if r == LogicalMode then Some(CopyImpl(LogicalMode, IntMode, false)) else None
    case DoubleMode =>
      if r == LogicalMode then Some(CopyImpl(LogicalMode, DoubleMode, false))
      else if r == IntMode then Some(CopyImpl(IntMode, DoubleMode, direct))
      else None
    case ComplexMode =>
      if r == LogicalMode then Some(CopyImpl(LogicalMode, ComplexMode, false))
      else if r == IntMode || r == DoubleMode then Some(CopyImpl(r, ComplexMode, direct))
      else None
    case StringMode =>
      if r != StringMode && r != RawMode then Some(CopyImpl(r, StringMode, false)) else None
    case _ => None
  }

  /** An rhs copy exists exactly when the rhs is strictly below the lhs on the ladder, and lifts it to the lhs mode. */
  lemma CopyRhsOnlyUpwards(cc: CopyConfig, lhs: Value, rhs: Value)
    ensures CopyRhsImpl(cc, lhs, rhs).Some? <==> OnLadder(M(lhs)) && OnLadder(M(rhs)) && Rank(M(rhs)) < Rank(M(lhs))
    ensures CopyRhsImpl(cc, lhs, rhs).Some? ==>
      var c := CopyRhsImpl(cc, lhs, rhs).value;
      && Known(c) && c.from == M(rhs) && c.to == M(lhs) && !IsDuplicate(c)
      && (c.direct <==> cc.rhsDirect && rhs.kind == ArrayKind && HasDirectAccess(c.from) && HasDirectAccess(c.to))
  {
  }

  /**
   * The copy part of Generalized.execute: lift the rhs if it is below the lhs, then copy
   * the lhs when that is an upcast, when the lhs is shared, or when the rhs (if not
   * itself a fresh copy) depends on it; the two must then have the same mode. The result
   * is the operands the loop gets and whether the lhs was copied.
   */
  function AfterCopies(cc: CopyConfig, lhs: Value, rhs: Value, depends: bool, cv: Conversions): Result<(Value, Value, bool), Stop>
  {
    CopyRhsOnlyUpwards(cc, lhs, rhs);
    var rhsCopy := CopyRhsImpl(cc, lhs, rhs);
    var rhs1 := if rhsCopy.Some? then (CopyLands(rhsCopy.value, rhs, cv); Copied(rhsCopy.value, rhs, cv).value) else rhs;
    var depends1 := depends && rhsCopy.None?;
    CopyLhsIsJoin(cc, lhs, rhs1);
    match CopyLhsImpl(cc, lhs, rhs1)
    case Err(stop) => Err(stop)
    case Ok(c) =>
      var copy := !IsDuplicate(c) || lhs.shared || depends1;
      var lhs1 := if copy then (CopyLands(c, lhs, cv); Copied(c, lhs, cv).value) else lhs;
      if M(lhs1) != M(rhs1) then Err(UnimplementedCopy) else Ok((lhs1, rhs1, copy))
  }

  /**
   * Generalized copies a shared lhs, hands the loop two operands of the join mode, and
   * fails only on a raw operand: a raw rhs is not yet implemented, and a raw lhs with a
   * ladder rhs trips the unimplemented-copy check.
   */
  lemma AfterCopiesMeet(cc: CopyConfig, lhs: Value, rhs: Value, depends: bool, cv: Conversions)
    ensures AfterCopies(cc, lhs, rhs, depends, cv) == Err(NotYetImplemented) <==> M(rhs) == RawMode
    ensures AfterCopies(cc, lhs, rhs, depends, cv) == Err(UnimplementedCopy) <==> M(lhs) == RawMode && M(rhs) != RawMode
    ensures AfterCopies(cc, lhs, rhs, depends, cv).Ok? ==>
      var (l, r, copied) := AfterCopies(cc, lhs, rhs, depends, cv).value;
      && OnLadder(M(lhs)) && OnLadder(M(rhs))
      && M(l) == Join(M(lhs), M(rhs)) && M(r) == M(l)
      && (copied <==> Rank(M(lhs)) < Rank(M(rhs)) || lhs.shared || (depends && Rank(M(rhs)) >= Rank(M(lhs))))
      && (copied ==> !l.shared && FactoryMade(l))
      && (!copied ==> l == lhs)
  {
    CopyRhsOnlyUpwards(cc, lhs, rhs);
    var rhsCopy := CopyRhsImpl(cc, lhs, rhs);
    if rhsCopy.Some? {
      CopyLands(rhsCopy.value, rhs, cv);
      var rhs1 := Copied(rhsCopy.value, rhs, cv).value;
      CopyLhsIsJoin(cc, lhs, rhs1);
      CopyLands(CopyLhsImpl(cc, lhs, rhs1).value, lhs, cv);
    } else {
      CopyLhsIsJoin(cc, lhs, rhs);
      if CopyLhsImpl(cc, lhs, rhs).Ok? {
        CopyLands(CopyLhsImpl(cc, lhs, rhs).value, lhs, cv);
      }
    }
  }

  /** Generalized.UpdateType: which direct loop Generalized runs, if any. */
  datatype UpdateType =
    | GeneralizedType
    | IntToIntType
    | IntToDoubleType
    | DoubleToDoubleType
    | IntToComplexType
    | DoubleToComplexType
    | ComplexToComplexType

  /** The direct specialization two operands admit: both must be plain arrays. */
  function DirectTypeOf(lhs: Value, rhs: Value): UpdateType
  {
    if lhs.kind != ArrayKind || rhs.kind != ArrayKind then GeneralizedType
    else match (M(lhs), M(rhs))
      case (IntMode, IntMode) => IntToIntType
      case (DoubleMode, IntMode) => IntToDoubleType
      case (DoubleMode, DoubleMode) => DoubleToDoubleType
      case (ComplexMode, IntMode) => IntToComplexType
      case (ComplexMode, DoubleMode) => DoubleToComplexType
      case (ComplexMode, ComplexMode) => ComplexToComplexType
      case _ => GeneralizedType
  }

  /** The loop an update runs. */
  datatype Loop = GeneralLoop | DirectLoop(updateType: UpdateType) | ScalarLoop(mode: Mode)

  /** The loop's casts succeed on these operands. */
  predicate LoopFits(loop: Loop, target: Value, source: Value)
  {
    match loop
    case GeneralLoop => M(target) == M(source)
    case DirectLoop(t) => t != GeneralizedType && DirectTypeOf(target, source) == t
    case ScalarLoop(m) => M(target) == m && M(source) == m && target.kind == ArrayKind && source.kind == ScalarKind
  }

  /** What a call does: run a loop on (possibly copied) operands, or stop. */
  datatype Exec = Run(loop: Loop, target: Value, source: Value, lhsCopied: bool) | Stopped(reason: Stop)

  /**
   * The direct part of Generalized.execute: the updateType it leaves and whether it runs
   * the direct loop at once. It is tried only for an unshared lhs that is not the rhs
   * itself; when it is skipped the type is reset, so `update` never dispatches on the
   * type of an earlier call.
   */
  function GeneralizedDirect(cfg: Config, t: UpdateType, lhs: Value, rhs: Value, alias: bool): (UpdateType, bool)
  {
    if cfg.directInGeneralized && !lhs.shared then
      if cfg.generalizedCache && t != GeneralizedType && !alias && DirectTypeOf(lhs, rhs) == t then (t, true)
      else if !alias && DirectTypeOf(lhs, rhs) != GeneralizedType then (DirectTypeOf(lhs, rhs), true)
      else (GeneralizedType, false)
    else (GeneralizedType, false)
  }

  /** Generalized.update: the direct loop of the updateType, if enabled. */
  function GeneralizedLoop(cfg: Config, t: UpdateType): Loop
  {
    if cfg.directInGeneralized && t != GeneralizedType then DirectLoop(t) else GeneralLoop
  }

  /** Generalized.execute: the new updateType and what the call does. */
  function Generalize(cfg: Config, t: UpdateType, lhs: Value, rhs: Value, alias: bool, depends: bool, cv: Conversions): (UpdateType, Exec)
  {
    var (t1, ran) := GeneralizedDirect(cfg, t, lhs, rhs, alias);
    if ran then (t1, Run(GeneralizedLoop(cfg, t1), lhs, rhs, false))
    else match AfterCopies(cfg.copies, lhs, rhs, depends, cv)
      case Err(stop) => (t1, Stopped(stop))
      case Ok((l, r, copied)) => (t1, Run(GeneralizedLoop(cfg, t1), l, r, copied))
  }

  /** The operands a run gets are safe to update: an unshared lhs, of the classes the loop casts to. */
  predicate SafeRun(e: Exec, lhs: Value)
  {
    e.Run? ==> !e.target.shared && LoopFits(e.loop, e.target, e.source) && (e.lhsCopied || e.target == lhs)
  }

  /**
   * The direct part runs a direct loop only on an unshared lhs whose classes fit it, and
   * otherwise leaves the general type; the cache never changes its answer.
   */
  lemma GeneralizedDirectFits(cfg: Config, t: UpdateType, lhs: Value, rhs: Value, alias: bool)
    ensures var (t1, ran) := GeneralizedDirect(cfg, t, lhs, rhs, alias);
      && (ran ==> cfg.directInGeneralized && !lhs.shared && !alias && t1 != GeneralizedType && DirectTypeOf(lhs, rhs) == t1)
      && (!ran ==> t1 == GeneralizedType)
    ensures GeneralizedDirect(cfg.(generalizedCache := true), t, lhs, rhs, alias)
         == GeneralizedDirect(cfg.(generalizedCache := false), t, lhs, rhs, alias)
  {
  }

  /** Generalized never writes a shared lhs in place and always runs a loop that fits its operands. */
  lemma GeneralizeIsSafe(cfg: Config, t: UpdateType, lhs: Value, rhs: Value, alias: bool, depends: bool, cv: Conversions)
    ensures SafeRun(Generalize(cfg, t, lhs, rhs, alias, depends, cv).1, lhs)
  {
    GeneralizedDirectFits(cfg, t, lhs, rhs, alias);
    var (t1, ran) := GeneralizedDirect(cfg, t, lhs, rhs, alias);
    if !ran {
      AfterCopiesMeet(cfg.copies, lhs, rhs, depends, cv);
      var r := AfterCopies(cfg.copies, lhs, rhs, depends, cv);
      assert GeneralizedLoop(cfg, t1) == GeneralLoop;
      if r.Ok? {
        var (l, r', copied) := r.value;
        assert LoopFits(GeneralLoop, l, r');
      }
    }
  }

  /** The Generalized cache only saves work: with or without it a call does the same. */
  lemma GeneralizeCacheIsTransparent(cfg: Config, t: UpdateType, lhs: Value, rhs: Value, alias: bool, depends: bool, cv: Conversions)
    ensures Generalize(cfg.(generalizedCache := true), t, lhs, rhs, alias, depends, cv)
         == Generalize(cfg.(generalizedCache := false), t, lhs, rhs, alias, depends, cv)
  {
    GeneralizedDirectFits(cfg, t, lhs, rhs, alias);
  }

  /**
   * Generalized.execute as written: when the direct part is skipped (a shared lhs, or the
   * switch off), updateType keeps the value an earlier call left in it.
   */
  function GeneralizedDirectAsWritten(cfg: Config, t: UpdateType, lhs: Value, rhs: Value, alias: bool): (UpdateType, bool)
  {
    if cfg.directInGeneralized && !lhs.shared then
      if cfg.generalizedCache && t != GeneralizedType && !alias && DirectTypeOf(lhs, rhs) == t then (t, true)
      else if !alias && DirectTypeOf(lhs, rhs) != GeneralizedType then (DirectTypeOf(lhs, rhs), true)
      else (GeneralizedType, false)
    else (t, false)
  }

  function GeneralizeAsWritten(cfg: Config, t: UpdateType, lhs: Value, rhs: Value, alias: bool, depends: bool, cv: Conversions): (UpdateType, Exec)
  {
    var (t1, ran) := GeneralizedDirectAsWritten(cfg, t, lhs, rhs, alias);
    if ran then (t1, Run(GeneralizedLoop(cfg, t1), lhs, rhs, false))
    else match AfterCopies(cfg.copies, lhs, rhs, depends, cv)
      case Err(stop) => (t1, Stopped(stop))
      case Ok((l, r, copied)) => (t1, Run(GeneralizedLoop(cfg, t1), l, r, copied))
  }

  /**
   * The corrected Generalize departs from the code as written only on a stale type: the
   * two agree whenever the direct part is tried or the type is already the general one
   * (as it is on the first call after a rewrite, see Escalate), and with the direct part
   * switched off they run the same, leaving only a different type behind.
   */
  lemma GeneralizeAsWrittenDiffersOnlyOnStaleType(cfg: Config, t: UpdateType, lhs: Value, rhs: Value, alias: bool, depends: bool, cv: Conversions)
    ensures (cfg.directInGeneralized && !lhs.shared) || t == GeneralizedType
        ==> GeneralizeAsWritten(cfg, t, lhs, rhs, alias, depends, cv) == Generalize(cfg, t, lhs, rhs, alias, depends, cv)
    ensures !cfg.directInGeneralized
        ==> GeneralizeAsWritten(cfg, t, lhs, rhs, alias, depends, cv).1 == Generalize(cfg, t, lhs, rhs, alias, depends, cv).1
    ensures cfg.directInGeneralized && lhs.shared && t != GeneralizedType
        ==> GeneralizeAsWritten(cfg, t, lhs, rhs, alias, depends, cv).0 == t
  {
  }

  /**
   * A site that went Generalized and last updated an int vector from an int vector keeps
   * INT_TO_INT_DIRECT; a later call with a shared double lhs and a double rhs then runs
   * IntToIntDirect.doUpdate on two doubles (a ClassCastException), where the corrected
   * Generalize runs the general loop.
   */
  lemma StaleUpdateTypeMisfits(cv: Conversions)
    ensures var cfg := Config(true, true, true, CopyConfig(true, true), true);
      var lhs := Value(Doubles([ZERO, ZERO]), ArrayKind, false, true);
      var rhs := Value(Doubles([ZERO, ZERO]), ArrayKind, false, false);
      var e := GeneralizeAsWritten(cfg, IntToIntType, lhs, rhs, false, false, cv).1;
      && e.Run? && e.loop == DirectLoop(IntToIntType) && !LoopFits(e.loop, e.target, e.source)
      && Generalize(cfg, IntToIntType, lhs, rhs, false, false, cv).1.loop == GeneralLoop
  {
    var cfg := Config(true, true, true, CopyConfig(true, true), true);
    var lhs := Value(Doubles([ZERO, ZERO]), ArrayKind, false, true);
    var rhs := Value(Doubles([ZERO, ZERO]), ArrayKind, false, false);
    AfterCopiesMeet(cfg.copies, lhs, rhs, false, cv);
  }

  /** The CopyLhs stage of a site: absent, not yet decided, or a chosen upcast or duplicate. */
  datatype LhsStage = NoLhsCopy | LhsPending | LhsUpcast(lc: CopyImpl) | LhsDuplicate(dc: CopyImpl)

  /** RHSCompatible not yet decided, IdenticalTypes chosen, CopyRhs not yet decided, or a chosen rhs upcast. */
  datatype RhsStage = RhsPending | NoRhsCopy | RhsCopyPending | RhsUpcast(rc: CopyImpl)

  /** IdenticalTypes or NonScalar not yet decided, or one of the Scalar.* and NonScalar.* leaves. */
  datatype LeafStage = LeafPending | NonScalarPending | ScalarLeaf(sm: Mode) | NonScalarLeaf(nm: Mode)

  /** The specialization state of a call site. */
  datatype Node =
    | Uninitialized
    | Direct(direct: UpdateType)
    | Chain(lhsStage: LhsStage, rhsStage: RhsStage, leaf: LeafStage)
    | Generalized(updateType: UpdateType)

  predicate NodeValid(n: Node)
  {
    match n
    case Direct(t) => t != GeneralizedType
    case Chain(ls, rs, _) =>
      && (ls.LhsUpcast? ==> Known(ls.lc) && !IsDuplicate(ls.lc))
      && (ls.LhsDuplicate? ==> Known(ls.dc) && IsDuplicate(ls.dc))
      && (rs.RhsUpcast? ==> Known(rs.rc))
    case _ => true
  }

  /** Generalized.replaceArrayUpdateTree(...).execute: the whole site becomes a fresh Generalized. */
  function Escalate(cfg: Config, lhs: Value, rhs: Value, alias: bool, depends: bool, copied: bool, cv: Conversions): (Node, Exec)
  {
    var (t, e) := Generalize(cfg, GeneralizedType, lhs, rhs, alias, depends, cv);
    (Generalized(t), if e.Run? then e.(lhsCopied := e.lhsCopied || copied) else e)
  }

  /**
   * executeAndUpdateSelectors: a shared lhs is never updated in place; the site goes
   * Generalized instead.
   */
  function ExecuteAndUpdate(cfg: Config, n: Node, loop: Loop, lhs: Value, rhs: Value, copied: bool, alias: bool, depends: bool, cv: Conversions): (Node, Exec)
  {
    if lhs.shared then Escalate(cfg, lhs, rhs, alias, depends, copied, cv)
    else (n, Run(loop, lhs, rhs, copied))
  }

  /** The *Direct nodes: check the classes, duplicate the lhs if configured or aliased, update. */
  function DirectStep(cfg: Config, t: UpdateType, lhs: Value, rhs: Value, alias: bool, depends: bool, cv: Conversions): (Node, Exec)
    requires t != GeneralizedType
  {
    if DirectTypeOf(lhs, rhs) != t || lhs.shared then Escalate(cfg, lhs, rhs, alias, depends, false, cv)
    else
      var sameMode := t == IntToIntType || t == DoubleToDoubleType || t == ComplexToComplexType;
      if !cfg.noLhsCopyWithoutAlias || (sameMode && alias) then
        var c := CopyImpl(M(lhs), M(lhs), true);
        CopyLands(c, lhs, cv);
        ExecuteAndUpdate(cfg, Direct(t), DirectLoop(t), Copied(c, lhs, cv).value, rhs, true, false, false, cv)
      else ExecuteAndUpdate(cfg, Direct(t), DirectLoop(t), lhs, rhs, false, alias, depends, cv)
  }

  /**
   * The leaves: IdenticalTypes picks Scalar.<mode> for a one-element rhs (NonScalar.Raw
   * for raw) and NonScalar otherwise; each leaf checks the classes it casts to.
   */
  function LeafStep(cfg: Config, ls: LhsStage, rs: RhsStage, leaf: LeafStage, lhs: Value, rhs: Value,
                    copied: bool, alias: bool, depends: bool, cv: Conversions): (Node, Exec)
  {
    var leaf1 :=
      if leaf != LeafPending then leaf
      else if Length(rhs.payload) == 1 then (if M(rhs) == RawMode then NonScalarLeaf(RawMode) else ScalarLeaf(M(rhs)))
      else NonScalarPending;
    match leaf1
    case NonScalarPending =>
      if M(lhs) == M(rhs) && M(lhs) != RawMode then
        var n := Chain(ls, rs, NonScalarLeaf(M(lhs)));
        ExecuteAndUpdate(cfg, n, GeneralLoop, lhs, rhs, copied, alias, depends, cv)
      else (Chain(ls, rs, NonScalarPending), Stopped(NotYetImplemented))
    case ScalarLeaf(m) =>
      if M(lhs) == m && M(rhs) == m && lhs.kind == ArrayKind && rhs.kind == ScalarKind then
        ExecuteAndUpdate(cfg, Chain(ls, rs, leaf1), ScalarLoop(m), lhs, rhs, copied, alias, depends, cv)
      else Escalate(cfg, lhs, rhs, alias, depends, copied, cv)
    case NonScalarLeaf(m) =>
      if M(lhs) == m && M(rhs) == m then
        ExecuteAndUpdate(cfg, Chain(ls, rs, leaf1), GeneralLoop, lhs, rhs, copied, alias, depends, cv)
      else Escalate(cfg, lhs, rhs, alias, depends, copied, cv)
    case LeafPending => (Chain(ls, rs, leaf), Stopped(NotYetImplemented))
  }

  /** RHSCompatible and CopyRhs: no copy for equal modes, else the rhs upcast or Generalized. */
  function RhsStep(cfg: Config, ls: LhsStage, rs: RhsStage, leaf: LeafStage, lhs: Value, rhs: Value,
                   copied: bool, alias: bool, depends: bool, cv: Conversions): (Node, Exec)
    requires rs.RhsUpcast? ==> Known(rs.rc)
  {
    var rs1 :=
      if rs != RhsPending then rs
      else if M(lhs) == M(rhs) then NoRhsCopy
      else RhsCopyPending;
    var rs2 :=
      if rs1 != RhsCopyPending then rs1
      else if CopyRhsImpl(cfg.copies, lhs, rhs).Some? then RhsUpcast(CopyRhsImpl(cfg.copies, lhs, rhs).value)
      else RhsCopyPending;
    CopyRhsOnlyUpwards(cfg.copies, lhs, rhs);
    match rs2
    case RhsUpcast(c) =>
      (match Copied(c, rhs, cv)
       case Ok(rhs1) => LeafStep(cfg, ls, rs2, leaf, lhs, rhs1, copied, false, false, cv)
       case Err(_) => Escalate(cfg, lhs, rhs, alias, depends, copied, cv))
    case RhsCopyPending => Escalate(cfg, lhs, rhs, alias, depends, copied, cv)
    case _ => LeafStep(cfg, ls, rs2, leaf, lhs, rhs, copied, alias, depends, cv)
  }

  /** CopyLhs: choose the copy once, then upcast always, or duplicate when shared or depended on. */
  function ChainStep(cfg: Config, ls: LhsStage, rs: RhsStage, leaf: LeafStage, lhs: Value, rhs: Value,
                     alias: bool, depends: bool, cv: Conversions): (Node, Exec)
    requires NodeValid(Chain(ls, rs, leaf))
  {
    CopyLhsIsJoin(cfg.copies, lhs, rhs);
    if ls == LhsPending && CopyLhsImpl(cfg.copies, lhs, rhs).Err? then (Chain(ls, rs, leaf), Stopped(NotYetImplemented))
    else
      var ls1 :=
        if ls != LhsPending then ls
        else
          var c := CopyLhsImpl(cfg.copies, lhs, rhs).value;
          if IsDuplicate(c) then LhsDuplicate(c) else LhsUpcast(c);
      match ls1
      case LhsUpcast(c) =>
        (match Copied(c, lhs, cv)
         case Ok(lhs1) => RhsStep(cfg, ls1, rs, leaf, lhs1, rhs, true, false, false, cv)
         case Err(_) => Escalate(cfg, lhs, rhs, alias, depends, false, cv))
      case LhsDuplicate(c) =>
        if lhs.shared || depends then
          (match Copied(c, lhs, cv)
           case Ok(lhs1) => RhsStep(cfg, ls1, rs, leaf, lhs1, rhs, true, false, false, cv)
           case Err(_) => Escalate(cfg, lhs, rhs, alias, depends, false, cv))
        else RhsStep(cfg, ls1, rs, leaf, lhs, rhs, false, alias, depends, cv)
      case _ => RhsStep(cfg, ls1, rs, leaf, lhs, rhs, false, alias, depends, cv)
  }

  /**
   * One call at a site in state n. The first call picks a direct node for two plain
   * arrays it can handle and an unshared lhs; otherwise the chain, skipping the lhs copy
   * when an unshared lhs can take a one-element rhs as it is.
   */
  function Step(cfg: Config, n: Node, lhs: Value, rhs: Value, alias: bool, depends: bool, cv: Conversions): (Node, Exec)
    requires NodeValid(n)
  {
    match n
    case Uninitialized =>
      if cfg.directSpecializations && !lhs.shared && DirectTypeOf(lhs, rhs) != GeneralizedType then
        DirectStep(cfg, DirectTypeOf(lhs, rhs), lhs, rhs, alias, depends, cv)
      else if !lhs.shared && IsConvertible(rhs, lhs) && Length(rhs.payload) == 1 then
        ChainStep(cfg, NoLhsCopy, RhsPending, LeafPending, lhs, rhs, alias, depends, cv)
      else ChainStep(cfg, LhsPending, RhsPending, LeafPending, lhs, rhs, alias, depends, cv)
    case Direct(t) => DirectStep(cfg, t, lhs, rhs, alias, depends, cv)
    case Chain(ls, rs, leaf) => ChainStep(cfg, ls, rs, leaf, lhs, rhs, alias, depends, cv)
    case Generalized(t) =>
      var (t1, e) := Generalize(cfg, t, lhs, rhs, alias, depends, cv);
      (Generalized(t1), e)
  }

  /** How far a site has specialized; rewrites only ever go up. */
  function Level(n: Node): nat
  {
    match n
    case Uninitialized => 0
    case Direct(_) => 1
    case Chain(_, _, _) => 1
    case Generalized(_) => 2
  }

  /** Going Generalized inherits Generalized's safety and keeps an earlier lhs copy on record. */
  lemma EscalateIsSafe(cfg: Config, lhs: Value, rhs: Value, alias: bool, depends: bool, copied: bool, cv: Conversions, orig: Value)
    requires copied || lhs == orig
    ensures var (n, e) := Escalate(cfg, lhs, rhs, alias, depends, copied, cv);
      n.Generalized? && SafeRun(e, orig)
  {
    GeneralizeIsSafe(cfg, GeneralizedType, lhs, rhs, alias, depends, cv);
  }

  lemma ExecuteAndUpdateIsSafe(cfg: Config, n: Node, loop: Loop, lhs: Value, rhs: Value, copied: bool,
                               alias: bool, depends: bool, cv: Conversions, orig: Value)
    requires copied || lhs == orig
    requires LoopFits(loop, lhs, rhs)
    ensures var (n1, e) := ExecuteAndUpdate(cfg, n, loop, lhs, rhs, copied, alias, depends, cv);
      (n1 == n || n1.Generalized?) && SafeRun(e, orig)
  {
    if lhs.shared {
      EscalateIsSafe(cfg, lhs, rhs, alias, depends, copied, cv, orig);
    }
  }

  lemma LeafStepIsSafe(cfg: Config, ls: LhsStage, rs: RhsStage, leaf: LeafStage, lhs: Value, rhs: Value,
                       copied: bool, alias: bool, depends: bool, cv: Conversions, orig: Value)
    requires copied || lhs == orig
    ensures var (n, e) := LeafStep(cfg, ls, rs, leaf, lhs, rhs, copied, alias, depends, cv);
      SafeRun(e, orig) && (n.Generalized? || (n.Chain? && n.lhsStage == ls && n.rhsStage == rs))
  {
    var leaf1 :=
      if leaf != LeafPending then leaf
      else if Length(rhs.payload) == 1 then (if M(rhs) == RawMode then NonScalarLeaf(RawMode) else ScalarLeaf(M(rhs)))
      else NonScalarPending;
    var r := LeafStep(cfg, ls, rs, leaf, lhs, rhs, copied, alias, depends, cv);
    var escalated := Escalate(cfg, lhs, rhs, alias, depends, copied, cv);
    EscalateIsSafe(cfg, lhs, rhs, alias, depends, copied, cv, orig);
    match leaf1
    case NonScalarPending =>
      if M(lhs) == M(rhs) && M(lhs) != RawMode {
        ExecuteAndUpdateIsSafe(cfg, Chain(ls, rs, NonScalarLeaf(M(lhs))), GeneralLoop, lhs, rhs, copied, alias, depends, cv, orig);
      }
    case ScalarLeaf(m) =>
      if M(lhs) == m && M(rhs) == m && lhs.kind == ArrayKind && rhs.kind == ScalarKind {
        ExecuteAndUpdateIsSafe(cfg, Chain(ls, rs, leaf1), ScalarLoop(m), lhs, rhs, copied, alias, depends, cv, orig);
      } else {
        assert r == escalated;
      }
    case NonScalarLeaf(m) =>
      if M(lhs) == m && M(rhs) == m {
        ExecuteAndUpdateIsSafe(cfg, Chain(ls, rs, leaf1), GeneralLoop, lhs, rhs, copied, alias, depends, cv, orig);
      } else {
        assert r == escalated;
      }
    case LeafPending =>
  }

  lemma RhsStepIsSafe(cfg: Config, ls: LhsStage, rs: RhsStage, leaf: LeafStage, lhs: Value, rhs: Value,
                      copied: bool, alias: bool, depends: bool, cv: Conversions, orig: Value)
    requires rs.RhsUpcast? ==> Known(rs.rc)
    requires copied || lhs == orig
    ensures var (n, e) := RhsStep(cfg, ls, rs, leaf, lhs, rhs, copied, alias, depends, cv);
      && SafeRun(e, orig)
      && (n.Generalized? || (n.Chain? && n.lhsStage == ls && (n.rhsStage.RhsUpcast? ==> Known(n.rhsStage.rc))))
      && (n.Chain? && rs != RhsPending && rs != RhsCopyPending ==> n.rhsStage == rs)
  {
    CopyRhsOnlyUpwards(cfg.copies, lhs, rhs);
    var rs1 := if rs != RhsPending then rs else if M(lhs) == M(rhs) then NoRhsCopy else RhsCopyPending;
    var rs2 := if rs1 != RhsCopyPending then rs1
      else if CopyRhsImpl(cfg.copies, lhs, rhs).Some? then RhsUpcast(CopyRhsImpl(cfg.copies, lhs, rhs).value)
      else RhsCopyPending;
    match rs2
    case RhsUpcast(c) =>
      if Copied(c, rhs, cv).Ok? {
        LeafStepIsSafe(cfg, ls, rs2, leaf, lhs, Copied(c, rhs, cv).value, copied, false, false, cv, orig);
      } else {
        EscalateIsSafe(cfg, lhs, rhs, alias, depends, copied, cv, orig);
      }
    case RhsCopyPending =>
      EscalateIsSafe(cfg, lhs, rhs, alias, depends, copied, cv, orig);
    case _ =>
      LeafStepIsSafe(cfg, ls, rs2, leaf, lhs, rhs, copied, alias, depends, cv, orig);
  }

  lemma ChainStepIsSafe(cfg: Config, ls: LhsStage, rs: RhsStage, leaf: LeafStage, lhs: Value, rhs: Value,
                        alias: bool, depends: bool, cv: Conversions)
    requires NodeValid(Chain(ls, rs, leaf))
    ensures var (n, e) := ChainStep(cfg, ls, rs, leaf, lhs, rhs, alias, depends, cv);
      && NodeValid(n) && SafeRun(e, lhs)
      && (n.Generalized? || (n.Chain? && (ls != LhsPending ==> n.lhsStage == ls)))
  {
    CopyLhsIsJoin(cfg.copies, lhs, rhs);
    var r := ChainStep(cfg, ls, rs, leaf, lhs, rhs, alias, depends, cv);
    var escalated := Escalate(cfg, lhs, rhs, alias, depends, false, cv);
    EscalateIsSafe(cfg, lhs, rhs, alias, depends, false, cv, lhs);
    if !(ls == LhsPending && CopyLhsImpl(cfg.copies, lhs, rhs).Err?) {
      var ls1 :=
        if ls != LhsPending then ls
        else
          var c := CopyLhsImpl(cfg.copies, lhs, rhs).value;
          if IsDuplicate(c) then LhsDuplicate(c) else LhsUpcast(c);
      match ls1
      case LhsUpcast(c) =>
        if Copied(c, lhs, cv).Ok? {
          RhsStepIsSafe(cfg, ls1, rs, leaf, Copied(c, lhs, cv).value, rhs, true, false, false, cv, lhs);
        } else {
          assert r == escalated;
        }
      case LhsDuplicate(c) =>
        if !(lhs.shared || depends) {
          RhsStepIsSafe(cfg, ls1, rs, leaf, lhs, rhs, false, alias, depends, cv, lhs);
        } else if Copied(c, lhs, cv).Ok? {
          RhsStepIsSafe(cfg, ls1, rs, leaf, Copied(c, lhs, cv).value, rhs, true, false, false, cv, lhs);
        } else {
          assert r == escalated;
        }
      case _ =>
        RhsStepIsSafe(cfg, ls1, rs, leaf, lhs, rhs, false, alias, depends, cv, lhs);
    }
  }

  lemma DirectStepIsSafe(cfg: Config, t: UpdateType, lhs: Value, rhs: Value, alias: bool, depends: bool, cv: Conversions)
    requires t != GeneralizedType && FactoryMade(lhs)
    ensures var (n, e) := DirectStep(cfg, t, lhs, rhs, alias, depends, cv);
      SafeRun(e, lhs) && (n == Direct(t) || n.Generalized?)
  {
    if DirectTypeOf(lhs, rhs) != t || lhs.shared {
      EscalateIsSafe(cfg, lhs, rhs, alias, depends, false, cv, lhs);
    } else {
      var c := CopyImpl(M(lhs), M(lhs), true);
      CopyLands(c, lhs, cv);
      var sameMode := t == IntToIntType || t == DoubleToDoubleType || t == ComplexToComplexType;
      if !cfg.noLhsCopyWithoutAlias || (sameMode && alias) {
        var l := Copied(c, lhs, cv).value;
        assert DirectTypeOf(l, rhs) == t;
        ExecuteAndUpdateIsSafe(cfg, Direct(t), DirectLoop(t), l, rhs, true, false, false, cv, lhs);
      } else {
        ExecuteAndUpdateIsSafe(cfg, Direct(t), DirectLoop(t), lhs, rhs, false, alias, depends, cv, lhs);
      }
    }
  }

  /**
   * Copy-on-write and progress: whatever state a site is in, a call never updates a
   * shared lhs in place (it works on a fresh copy instead), always runs a loop whose casts
   * succeed, and only rewrites the site towards Generalized, which it never leaves; a
   * direct node stays the same direct node or generalizes, and a chain keeps the lhs copy
   * it has chosen.
   */
  lemma StepIsSafe(cfg: Config, n: Node, lhs: Value, rhs: Value, alias: bool, depends: bool, cv: Conversions)
    requires NodeValid(n) && FactoryMade(lhs)
    ensures var (n1, e) := Step(cfg, n, lhs, rhs, alias, depends, cv);
      && NodeValid(n1) && SafeRun(e, lhs)
      && (e.Run? && lhs.shared ==> e.lhsCopied)
      && Level(n1) >= Level(n) && Level(n1) >= 1
      && (n.Generalized? ==> n1.Generalized?)
      && (n.Direct? ==> n1 == n || n1.Generalized?)
      && (n.Chain? ==> n1.Generalized? || (n1.Chain? && (n.lhsStage != LhsPending ==> n1.lhsStage == n.lhsStage)))
  {
    match n
    case Uninitialized =>
      if cfg.directSpecializations && !lhs.shared && DirectTypeOf(lhs, rhs) != GeneralizedType {
        DirectStepIsSafe(cfg, DirectTypeOf(lhs, rhs), lhs, rhs, alias, depends, cv);
      } else if !lhs.shared && IsConvertible(rhs, lhs) && Length(rhs.payload) == 1 {
        ChainStepIsSafe(cfg, NoLhsCopy, RhsPending, LeafPending, lhs, rhs, alias, depends, cv);
      } else {
        ChainStepIsSafe(cfg, LhsPending, RhsPending, LeafPending, lhs, rhs, alias, depends, cv);
      }
    case Direct(t) =>
      DirectStepIsSafe(cfg, t, lhs, rhs, alias, depends, cv);
    case Chain(ls, rs, leaf) =>
      ChainStepIsSafe(cfg, ls, rs, leaf, lhs, rhs, alias, depends, cv);
    case Generalized(t) =>
      GeneralizeIsSafe(cfg, t, lhs, rhs, alias, depends, cv);
  }

  /** What one pass of an update loop leaves: its outcome and the lhs elements after it. */
  function LoopEffect<T>(t: seq<T>, s: seq<T>, sel: seq<Offset>, subset: bool): (Outcome, seq<T>)
    requires InBounds(sel, |t|)
  {
    (UpdateOutcome(|sel|, |s|, subset), Applied(t, sel, s, Written(|sel|, |s|, subset)))
  }

  /** The same for a Scalar.* leaf, which stores its one value at every selected position. */
  function ScalarEffect<T>(t: seq<T>, v: T, sel: seq<Offset>, subset: bool): (Outcome, seq<T>)
    requires InBounds(sel, |t|)
  {
    var o := ScalarOutcome(|sel|, subset);
    (o, Applied(t, sel, [v], if o.Done? then |sel| else 0))
  }

  /** The general loop on two payloads of one mode (the NonScalar.* leaves and Generalized). */
  function GeneralEffect(t: Payload, s: Payload, sel: seq<Offset>, subset: bool): (Outcome, Payload)
    requires ModeOf(t) == ModeOf(s) && InBounds(sel, Length(t))
  {
    match t
    case Logicals(a) => var (o, r) := LoopEffect(a, s.lgl, sel, subset); (o, Logicals(r))
    case Ints(a) => var (o, r) := LoopEffect(a, s.ints, sel, subset); (o, Ints(r))
    case Doubles(a) => var (o, r) := LoopEffect(a, s.dbls, sel, subset); (o, Doubles(r))
    case Complexes(a) => var (o, r) := LoopEffect(a, s.cplx, sel, subset); (o, Complexes(r))
    case Strings(a) => var (o, r) := LoopEffect(a, s.strs, sel, subset); (o, Strings(r))
    case Raws(a) => var (o, r) := LoopEffect(a, s.raws, sel, subset); (o, Raws(r))
  }

  /** The scalar loop on a payload and a one-element payload of its mode. */
  function ScalarPayloadEffect(t: Payload, s: Payload, sel: seq<Offset>, subset: bool): (Outcome, Payload)
    requires ModeOf(t) == ModeOf(s) && Length(s) == 1 && InBounds(sel, Length(t))
  {
    match t
    case Logicals(a) => var (o, r) := ScalarEffect(a, s.lgl[0], sel, subset); (o, Logicals(r))
    case Ints(a) => var (o, r) := ScalarEffect(a, s.ints[0], sel, subset); (o, Ints(r))
    case Doubles(a) => var (o, r) := ScalarEffect(a, s.dbls[0], sel, subset); (o, Doubles(r))
    case Complexes(a) => var (o, r) := ScalarEffect(a, s.cplx[0], sel, subset); (o, Complexes(r))
    case Strings(a) => var (o, r) := ScalarEffect(a, s.strs[0], sel, subset); (o, Strings(r))
    case Raws(a) => var (o, r) := ScalarEffect(a, s.raws[0], sel, subset); (o, Raws(r))
  }

  /**
   * `x[1] <- TRUE` on an unshared logical vector (codes 0 and 1 are FALSE and TRUE): a
   * fresh site takes the chain to the
   * Scalar.Logical leaf, whatever the configuration. As written that leaf passes a null rhs
   * to its update and fails there; the model runs the corrected leaf on the real rhs.
   */
  lemma LogicalScalarLeafIsReached(cfg: Config, cv: Conversions)
    ensures var lhs := Value(Logicals([0, 0]), ArrayKind, false, false);
      var rhs := Value(Logicals([1]), ScalarKind, false, false);
      && Step(cfg, Uninitialized, lhs, rhs, false, false, cv).1 == Run(ScalarLoop(LogicalMode), lhs, rhs, false)
      && ScalarLogicalAsWritten(1, true) == Err(NullPointer)
  {
  }

  /**
   * The effect of the loop a run chose: the *Direct doUpdate loops convert each rhs
   * element as they store it (ints and doubles to complex with a zero imaginary part).
   * Int to double keeps NA here, as corrected (Findings row 2); the source casts raw.
   * The complex-to-complex `[[` check counts elements here, as corrected (Findings row 4);
   * the source counts the interleaved slots and rejects a one-element complex array.
   */
  function RunEffect(loop: Loop, target: Value, source: Value, sel: seq<Offset>, subset: bool): (Outcome, Payload)
    requires LoopFits(loop, target, source) && InBounds(sel, Length(target.payload))
    requires loop.ScalarLoop? ==> Length(source.payload) == 1
  {
    var t, s := target.payload, source.payload;
    match loop
    case GeneralLoop => GeneralEffect(t, s, sel, subset)
    case ScalarLoop(_) => ScalarPayloadEffect(t, s, sel, subset)
    case DirectLoop(ut) =>
      match ut
      case IntToIntType => var (o, r) := LoopEffect(t.ints, s.ints, sel, subset); (o, Ints(r))
      case IntToDoubleType => var (o, r) := LoopEffect(t.dbls, Map(Convert.Int2Double, s.ints), sel, subset); (o, Doubles(r))
      case DoubleToDoubleType => var (o, r) := LoopEffect(t.dbls, s.dbls, sel, subset); (o, Doubles(r))
      case IntToComplexType => var (o, r) := LoopEffect(t.cplx, WithZeroImag(s.ints, WideningCast), sel, subset); (o, Complexes(r))
      case DoubleToComplexType => var (o, r) := LoopEffect(t.cplx, WithZeroImag(s.dbls, (x: Double) => x), sel, subset); (o, Complexes(r))
      case ComplexToComplexType => var (o, r) := LoopEffect(t.cplx, s.cplx, sel, subset); (o, Complexes(r))
  }

  /**
   * A direct loop is an optimisation only: it leaves what the general loop leaves after
   * the rhs has been lifted to the lhs mode by the matching non-direct copy.
   */
  lemma DirectAgreesWithGeneral(ut: UpdateType, target: Value, source: Value, sel: seq<Offset>, subset: bool, cv: Conversions)
    requires LoopFits(DirectLoop(ut), target, source) && InBounds(sel, Length(target.payload))
    ensures var c := CopyImpl(M(source), M(target), false);
      && Known(c) && Copied(c, source, cv).Ok?
      && RunEffect(DirectLoop(ut), target, source, sel, subset)
         == RunEffect(GeneralLoop, target, Copied(c, source, cv).value, sel, subset)
  {
    var c := CopyImpl(M(source), M(target), false);
    CopyLands(c, source, cv);
    var lifted := Copied(c, source, cv).value;
    match ut
    case DoubleToComplexType =>
      assert lifted.payload.cplx == WithZeroImag(source.payload.dbls, (x: Double) => x);
    case _ =>
  }

  /**
   * A Scalar.* leaf does what the general loop does with its one-element rhs, except
   * that it refuses to store one value into several positions of a `[[` update.
   */
  lemma ScalarLeafAgreesWithGeneral(m: Mode, target: Value, source: Value, sel: seq<Offset>, subset: bool)
    requires LoopFits(ScalarLoop(m), target, source) && Length(source.payload) == 1
    requires InBounds(sel, Length(target.payload))
    ensures RunEffect(ScalarLoop(m), target, source, sel, subset).0 == Done
        ==> RunEffect(ScalarLoop(m), target, source, sel, subset) == RunEffect(GeneralLoop, target, source, sel, subset)
    ensures RunEffect(ScalarLoop(m), target, source, sel, subset).0 != RunEffect(GeneralLoop, target, source, sel, subset).0
        <==> !subset && |sel| > 1
  {
    ScalarAgreesWithGeneral(|sel|, subset);
    match source.payload
    case Logicals(a) => assert [a[0]] == a;
    case Ints(a) => assert [a[0]] == a;
    case Doubles(a) => assert [a[0]] == a;
    case Complexes(a) => assert [a[0]] == a;
    case Strings(a) => assert [a[0]] == a;
    case Raws(a) => assert [a[0]] == a;
  }

  /** One array update call site (an UpdateArray node and the rewrites of its subtree). */
  class UpdateSite {
    const cfg: Config
    var node: Node

    constructor (cfg: Config)
      ensures this.cfg == cfg && node == Uninitialized
    {
      this.cfg := cfg;
      node := Uninitialized;
    }

    /** execute: one evaluation of the site; the node advances as Step says. */
    method Execute(lhs: Value, rhs: Value, alias: bool, depends: bool, cv: Conversions) returns (e: Exec)
      requires NodeValid(node) && FactoryMade(lhs)
      modifies this
      ensures (node, e) == Step(cfg, old(node), lhs, rhs, alias, depends, cv)
      ensures NodeValid(node) && SafeRun(e, lhs) && Level(node) >= Level(old(node))
    {
      StepIsSafe(cfg, node, lhs, rhs, alias, depends, cv);
      var (n1, e1) := Step(cfg, node, lhs, rhs, alias, depends, cv);
      node := n1;
      e := e1;
    }
  }
}
