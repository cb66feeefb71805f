/** Which registers a run can change: those that a register assignment in the program, or in a
    program it calls however deep, can resolve to. */
module Frame {
  import opened Results
  import opened Words
  import opened BitFields
  import opened BitFieldLaws
  import opened Semantics
  import opened RegisterFile
  import opened Registers
  import opened Interp
  import opened InterpLaws

  /** Writing the one register can change what the other reads, in the byte order of the core. */
  predicate CanDisturb(shape: Shape, written: string, name: string) {
    written in shape.layout && name in shape.layout
    && Disturbs(shape.endianness, shape.layout[written], shape.layout[name])
  }

  /** Some value of the index makes the reference name a register that disturbs `name`. */
  ghost predicate CanTouch(isa: Isa, shape: Shape, reference: RegisterRef, name: string) {
    exists index: Option<I64> | reference.index.None? ==> index.None? ::
      var r := Resolve(isa, reference.space, reference.name, reference.subfield, index);
      r.Ok? && CanDisturb(shape, ResolvedName(r.value), name)
  }

  ghost predicate StmtAvoids(isa: Isa, shape: Shape, stmt: Stmt, name: string) {
    stmt.Assign? && stmt.target.RegisterTarget? ==> !CanTouch(isa, shape, stmt.target.reference, name)
  }

  ghost predicate Avoids(isa: Isa, shape: Shape, stmts: Program, name: string) {
    forall k | 0 <= k < |stmts| :: StmtAvoids(isa, shape, stmts[k], name)
  }

  /** A set of programs that contains what its programs call, none of which assigns to `name`. */
  ghost predicate Unassigning(isa: Isa, shape: Shape, programs: set<Program>, name: string) {
    forall p | p in programs :: ProgramCallsIn(isa, p, programs) && Avoids(isa, shape, p, name)
  }

  /** The register reads as before. */
  predicate Keeps(before: Core, after: Core, name: string) {
    ReadRegister(after, name) == ReadRegister(before, name)
  }

  lemma WriteResolvedKeeps(core: Core, r: Resolved, value: I64, name: string)
    requires WriteResolved(core, r, value).Ok? && !CanDisturb(ShapeOf(core), ResolvedName(r), name)
    ensures Keeps(core, WriteResolved(core, r, value).value, name)
  {
    if r.field.Some? {
      var raw := ReadRaw(core, r).value;
      WriteKeeps(core, ResolvedName(r), WriteBits(r.field.value.spec, raw, AsU64(value)).value, name);
    } else {
      WriteKeeps(core, ResolvedName(r), MaskToWidth(value, r.meta.bitWidth), name);
    }
  }

  lemma WriteTargetKeeps(isa: Isa, core: Core, reference: RegisterRef, index: Option<Value>, value: Value, name: string)
    requires WriteTarget(isa, core, reference, index, value).Ok?
    requires reference.index.None? ==> index.None?
    requires !CanTouch(isa, ShapeOf(core), reference, name)
    ensures Keeps(core, WriteTarget(isa, core, reference, index, value).value, name)
  {
    var i := IndexOf(index).value;
    var resolved := Resolve(isa, reference.space, reference.name, reference.subfield, i);
    assert !CanDisturb(ShapeOf(core), ResolvedName(resolved.value), name);
    WriteResolvedKeeps(core, resolved.value, AsInt(value).value, name);
  }

  /** A run leaves unchanged, also when it fails, every register that no reachable assignment can resolve to. */
  lemma {:induction false} RunKeepsUnassigned(isa: Isa, programs: set<Program>, name: string, fuel: nat,
                                              params: map<string, Value>, core: Core, program: Program)
    requires Unassigning(isa, ShapeOf(core), programs, name) && program in programs
    ensures Keeps(core, Enter(isa, fuel, params, core, program).core, name)
    decreases fuel, 0
  {
    if fuel > 0 { ExecKeeps(isa, programs, name, fuel - 1, Ctx(params, map[]), core, program); }
  }

  lemma {:induction false} ExecKeeps(isa: Isa, programs: set<Program>, name: string, fuel: nat, ctx: Ctx, core: Core, stmts: Program)
    requires Unassigning(isa, ShapeOf(core), programs, name)
    requires ProgramCallsIn(isa, stmts, programs) && Avoids(isa, ShapeOf(core), stmts, name)
    ensures Keeps(core, Exec(isa, fuel, ctx, core, stmts).core, name)
    decreases fuel, 3, |stmts|
  {
    if stmts != [] {
      ProgramCallsTail(isa, stmts, programs);
      var step := ExecStmt(isa, fuel, ctx, core, stmts[0]);
      StmtKeeps(isa, programs, name, fuel, ctx, core, stmts[0]);
      if step.result.Ok? {
        AvoidsTail(isa, ShapeOf(core), stmts, name);
        ExecKeeps(isa, programs, name, fuel, step.result.value.ctx, step.core, stmts[1..]);
      }
    }
  }

  lemma AvoidsTail(isa: Isa, shape: Shape, stmts: Program, name: string)
    requires stmts != [] && Avoids(isa, shape, stmts, name)
    ensures Avoids(isa, shape, stmts[1..], name)
  {
    forall k | 0 <= k < |stmts[1..]| ensures StmtAvoids(isa, shape, stmts[1..][k], name) {
      assert stmts[1..][k] == stmts[k + 1];
    }
  }

  lemma {:induction false} StmtKeeps(isa: Isa, programs: set<Program>, name: string, fuel: nat, ctx: Ctx, core: Core, stmt: Stmt)
    requires Unassigning(isa, ShapeOf(core), programs, name)
    requires StmtCallsIn(isa, stmt, programs) && StmtAvoids(isa, ShapeOf(core), stmt, name)
    ensures Keeps(core, ExecStmt(isa, fuel, ctx, core, stmt).core, name)
    decreases fuel, 2
  {
    var v := Eval(isa, fuel, ctx, core, stmt.expr);
    EvalKeeps(isa, programs, name, fuel, ctx, core, stmt.expr);
    if v.result.Ok? && stmt.Assign? && stmt.target.RegisterTarget? {
      RegisterAssignKeeps(isa, programs, name, fuel, ctx, v.core, stmt.target.reference, v.result.value);
    }
  }

  lemma {:induction false} RegisterAssignKeeps(isa: Isa, programs: set<Program>, name: string, fuel: nat, ctx: Ctx, core: Core,
                                               reference: RegisterRef, value: Value)
    requires Unassigning(isa, ShapeOf(core), programs, name) && !CanTouch(isa, ShapeOf(core), reference, name)
    requires reference.index.Some? ==> CallsIn(isa, reference.index.value, programs)
    ensures Keeps(core, AssignTo(isa, fuel, ctx, core, RegisterTarget(reference), value).core, name)
    decreases fuel, 1, reference
  {
    var index := EvalIndex(isa, fuel, ctx, core, reference);
    if reference.index.Some? { EvalKeeps(isa, programs, name, fuel, ctx, core, reference.index.value); }
    if index.result.Ok? && WriteTarget(isa, index.core, reference, index.result.value, value).Ok? {
      WriteTargetKeeps(isa, index.core, reference, index.result.value, value, name);
    }
  }

  lemma {:induction false} EvalKeeps(isa: Isa, programs: set<Program>, name: string, fuel: nat, ctx: Ctx, core: Core, e: Expr)
    requires Unassigning(isa, ShapeOf(core), programs, name) && CallsIn(isa, e, programs)
    ensures Keeps(core, Eval(isa, fuel, ctx, core, e).core, name)
    decreases fuel, 1, e, 1
  {
    match e
    case Call(_, _, _, _, args) =>
      var vs := EvalAll(isa, fuel, ctx, core, args);
      EvalAllKeeps(isa, programs, name, fuel, ctx, core, args);
      if vs.result.Ok? { DispatchKeeps(isa, programs, name, fuel, vs.core, e, vs.result.value); }
    case Tuple(items) =>
      EvalAllKeeps(isa, programs, name, fuel, ctx, core, items);
    case Binary(op, lhs, rhs) =>
      var l := Eval(isa, fuel, ctx, core, lhs);
      EvalKeeps(isa, programs, name, fuel, ctx, core, lhs);
      if l.result.Ok? && AfterLeft(op, l.result.value) == Ok(None) {
        EvalKeeps(isa, programs, name, fuel, ctx, l.core, rhs);
      }
    case Slice(inner, _, _) =>
      EvalKeeps(isa, programs, name, fuel, ctx, core, inner);
    case _ =>
  }

  lemma {:induction false} EvalAllKeeps(isa: Isa, programs: set<Program>, name: string, fuel: nat, ctx: Ctx, core: Core, es: seq<Expr>)
    requires Unassigning(isa, ShapeOf(core), programs, name) && CallsAllIn(isa, es, programs)
    ensures Keeps(core, EvalAll(isa, fuel, ctx, core, es).core, name)
    decreases fuel, 1, es, 1
  {
    if es != [] {
      var head := Eval(isa, fuel, ctx, core, es[0]);
      EvalKeeps(isa, programs, name, fuel, ctx, core, es[0]);
      if head.result.Ok? { EvalAllKeeps(isa, programs, name, fuel, ctx, head.core, es[1..]); }
    }
  }

  lemma {:induction false} DispatchKeeps(isa: Isa, programs: set<Program>, name: string, fuel: nat, core: Core, call: Expr, args: seq<Value>)
    requires call.Call? && Unassigning(isa, ShapeOf(core), programs, name) && CallsIn(isa, call, programs)
    ensures Keeps(core, Dispatch(isa, fuel, core, call, args).core, name)
    decreases fuel, 1, call, 0
  {
    if call.kind.MacroKind? || call.kind.InstructionKind? {
      var callee := Callee(isa, call, args);
      if callee.Ok? {
        CalleeIsCalled(isa, call, args);
        RunKeepsUnassigned(isa, programs, name, fuel, callee.value.params, core, callee.value.program);
      }
    }
  }
}
