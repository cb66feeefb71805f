/** The call-depth limit: what raising it changes, when it cannot be reached, and when it always is. */
module InterpLaws {
  import opened Words
  import opened Results
  import opened Semantics
  import opened RegisterFile
  import opened Registers
  import opened Interp

  /** The run stayed within the limit. */
  predicate Within<T>(r: Run<T>) {
    r.result.Err? ==> !r.result.error.StackExceeded?
  }

  // ---- A run that stays within the limit does not depend on it ----

  lemma {:induction false} EvalMonotone(isa: Isa, fuel: nat, more: nat, ctx: Ctx, core: Core, e: Expr)
    requires fuel <= more && Within(Eval(isa, fuel, ctx, core, e))
    ensures Eval(isa, more, ctx, core, e) == Eval(isa, fuel, ctx, core, e)
    decreases fuel, 1, e, 1
  {
    match e
    case Call(_, _, _, _, args) =>
      var vs := EvalAll(isa, fuel, ctx, core, args);
      EvalAllMonotone(isa, fuel, more, ctx, core, args);
      if vs.result.Ok? { DispatchMonotone(isa, fuel, more, vs.core, e, vs.result.value); }
    case Tuple(items) =>
      EvalAllMonotone(isa, fuel, more, ctx, core, items);
    case Binary(op, lhs, rhs) =>
      var l := Eval(isa, fuel, ctx, core, lhs);
      EvalMonotone(isa, fuel, more, ctx, core, lhs);
      if l.result.Ok? && AfterLeft(op, l.result.value) == Ok(None) {
        EvalMonotone(isa, fuel, more, ctx, l.core, rhs);
      }
    case Slice(inner, start, end) =>
      if CheckSlice(start, end).Ok? { EvalMonotone(isa, fuel, more, ctx, core, inner); }
    case _ =>
  }

  lemma {:induction false} EvalAllMonotone(isa: Isa, fuel: nat, more: nat, ctx: Ctx, core: Core, es: seq<Expr>)
    requires fuel <= more && Within(EvalAll(isa, fuel, ctx, core, es))
    ensures EvalAll(isa, more, ctx, core, es) == EvalAll(isa, fuel, ctx, core, es)
    decreases fuel, 1, es, 1
  {
    if es != [] {
      var head := Eval(isa, fuel, ctx, core, es[0]);
      EvalMonotone(isa, fuel, more, ctx, core, es[0]);
      if head.result.Ok? { EvalAllMonotone(isa, fuel, more, ctx, head.core, es[1..]); }
    }
  }

  lemma {:induction false} DispatchMonotone(isa: Isa, fuel: nat, more: nat, core: Core, call: Expr, args: seq<Value>)
    requires call.Call? && fuel <= more && Within(Dispatch(isa, fuel, core, call, args))
    ensures Dispatch(isa, more, core, call, args) == Dispatch(isa, fuel, core, call, args)
    decreases fuel, 1, call, 0
  {
    if call.kind.MacroKind? || call.kind.InstructionKind? {
      var callee := Callee(isa, call, args);
      if callee.Ok? { EnterMonotone(isa, fuel, more, callee.value.params, core, callee.value.program); }
    }
  }

  /** Raising the limit changes only the runs that exceed it. */
  lemma {:induction false} EnterMonotone(isa: Isa, fuel: nat, more: nat, params: map<string, Value>, core: Core, program: Program)
    requires fuel <= more && Within(Enter(isa, fuel, params, core, program))
    ensures Enter(isa, more, params, core, program) == Enter(isa, fuel, params, core, program)
    decreases fuel, 0
  {
    ExecMonotone(isa, fuel - 1, more - 1, Ctx(params, map[]), core, program);
  }

  lemma {:induction false} ExecMonotone(isa: Isa, fuel: nat, more: nat, ctx: Ctx, core: Core, stmts: Program)
    requires fuel <= more && Within(Exec(isa, fuel, ctx, core, stmts))
    ensures Exec(isa, more, ctx, core, stmts) == Exec(isa, fuel, ctx, core, stmts)
    decreases fuel, 3, |stmts|
  {
    if stmts != [] {
      var step := ExecStmt(isa, fuel, ctx, core, stmts[0]);
      StmtMonotone(isa, fuel, more, ctx, core, stmts[0]);
      if step.result.Ok? && step.result.value.returned.None? {
        ExecMonotone(isa, fuel, more, step.result.value.ctx, step.core, stmts[1..]);
      }
    }
  }

  lemma {:induction false} StmtMonotone(isa: Isa, fuel: nat, more: nat, ctx: Ctx, core: Core, stmt: Stmt)
    requires fuel <= more && Within(ExecStmt(isa, fuel, ctx, core, stmt))
    ensures ExecStmt(isa, more, ctx, core, stmt) == ExecStmt(isa, fuel, ctx, core, stmt)
    decreases fuel, 2
  {
    var v := Eval(isa, fuel, ctx, core, stmt.expr);
    EvalMonotone(isa, fuel, more, ctx, core, stmt.expr);
    if v.result.Ok? && stmt.Assign? {
      AssignMonotone(isa, fuel, more, ctx, v.core, stmt.target, v.result.value);
    }
  }

  lemma {:induction false} AssignMonotone(isa: Isa, fuel: nat, more: nat, ctx: Ctx, core: Core, target: Target, value: Value)
    requires fuel <= more && Within(AssignTo(isa, fuel, ctx, core, target, value))
    ensures AssignTo(isa, more, ctx, core, target, value) == AssignTo(isa, fuel, ctx, core, target, value)
    decreases fuel, 1
  {
    if target.RegisterTarget? { IndexMonotone(isa, fuel, more, ctx, core, target.reference); }
  }

  lemma {:induction false} IndexMonotone(isa: Isa, fuel: nat, more: nat, ctx: Ctx, core: Core, reference: RegisterRef)
    requires fuel <= more && Within(EvalIndex(isa, fuel, ctx, core, reference))
    ensures EvalIndex(isa, more, ctx, core, reference) == EvalIndex(isa, fuel, ctx, core, reference)
    decreases fuel, 1, reference
  {
    if reference.index.Some? { EvalMonotone(isa, fuel, more, ctx, core, reference.index.value); }
  }

  // ---- Call graphs ----

  /** The program a macro or instruction call runs, whatever its arguments. */
  function CalledProgram(isa: Isa, call: Expr): Option<Program>
    requires call.Call?
  {
    match call.kind
    case MacroKind => (var mac := FindMacro(isa.macros, call.name); if mac.Some? then Some(mac.value.program) else None)
    case InstructionKind =>
      (var instr := FindInstruction(isa, call.name); if instr.Ok? then instr.value.program else None)
    case _ => None
  }

  lemma CalleeIsCalled(isa: Isa, call: Expr, args: seq<Value>)
    requires call.Call? && (call.kind.MacroKind? || call.kind.InstructionKind?) && Callee(isa, call, args).Ok?
    ensures CalledProgram(isa, call) == Some(Callee(isa, call, args).value.program)
  {}

  /** Every program called from the expression is in the set. */
  predicate CallsIn(isa: Isa, e: Expr, called: set<Program>) {
    match e
    case Call(_, _, _, _, args) =>
      && (CalledProgram(isa, e).Some? ==> CalledProgram(isa, e).value in called)
      && CallsAllIn(isa, args, called)
    case Tuple(items) => CallsAllIn(isa, items, called)
    case Binary(_, lhs, rhs) => CallsIn(isa, lhs, called) && CallsIn(isa, rhs, called)
    case Slice(inner, _, _) => CallsIn(isa, inner, called)
    case _ => true
  }

  predicate CallsAllIn(isa: Isa, es: seq<Expr>, called: set<Program>) {
    es == [] || (CallsIn(isa, es[0], called) && CallsAllIn(isa, es[1..], called))
  }

  predicate StmtCallsIn(isa: Isa, stmt: Stmt, called: set<Program>) {
    && CallsIn(isa, stmt.expr, called)
    && (stmt.Assign? && stmt.target.RegisterTarget? && stmt.target.reference.index.Some? ==>
          CallsIn(isa, stmt.target.reference.index.value, called))
  }

  /** Every program called from the statements is in the set. */
  predicate ProgramCallsIn(isa: Isa, stmts: Program, called: set<Program>) {
    forall k | 0 <= k < |stmts| :: StmtCallsIn(isa, stmts[k], called)
  }

  lemma ProgramCallsTail(isa: Isa, stmts: Program, called: set<Program>)
    requires stmts != [] && ProgramCallsIn(isa, stmts, called)
    ensures StmtCallsIn(isa, stmts[0], called) && ProgramCallsIn(isa, stmts[1..], called)
  {
    forall k | 0 <= k < |stmts[1..]| ensures StmtCallsIn(isa, stmts[1..][k], called) {
      assert stmts[1..][k] == stmts[k + 1];
    }
  }

  // ---- Programs that cannot exceed the limit ----

  /** The programs of rank below n. */
  function Below(rank: map<Program, nat>, n: nat): set<Program> {
    set p | p in rank && rank[p] < n
  }

  /** Calls lead to programs of smaller rank: the call graph has no cycle. */
  ghost predicate Ranked(isa: Isa, rank: map<Program, nat>) {
    forall p | p in rank :: ProgramCallsIn(isa, p, Below(rank, rank[p]))
  }

  /** A program whose longest call chain fits never exceeds the limit, whatever its input. */
  lemma {:induction false} RankedStaysWithin(isa: Isa, rank: map<Program, nat>, fuel: nat,
                                             params: map<string, Value>, core: Core, program: Program)
    requires Ranked(isa, rank) && program in rank && rank[program] < fuel
    ensures Within(Enter(isa, fuel, params, core, program))
    decreases fuel, 0
  {
    ExecWithin(isa, rank, rank[program], fuel - 1, Ctx(params, map[]), core, program);
  }

  lemma {:induction false} ExecWithin(isa: Isa, rank: map<Program, nat>, n: nat, fuel: nat, ctx: Ctx, core: Core, stmts: Program)
    requires Ranked(isa, rank) && n <= fuel && ProgramCallsIn(isa, stmts, Below(rank, n))
    ensures Within(Exec(isa, fuel, ctx, core, stmts))
    decreases fuel, 3, |stmts|
  {
    if stmts != [] {
      ProgramCallsTail(isa, stmts, Below(rank, n));
      var step := ExecStmt(isa, fuel, ctx, core, stmts[0]);
      StmtWithin(isa, rank, n, fuel, ctx, core, stmts[0]);
      if step.result.Ok? { ExecWithin(isa, rank, n, fuel, step.result.value.ctx, step.core, stmts[1..]); }
    }
  }

  lemma {:induction false} StmtWithin(isa: Isa, rank: map<Program, nat>, n: nat, fuel: nat, ctx: Ctx, core: Core, stmt: Stmt)
    requires Ranked(isa, rank) && n <= fuel && StmtCallsIn(isa, stmt, Below(rank, n))
    ensures Within(ExecStmt(isa, fuel, ctx, core, stmt))
    decreases fuel, 2
  {
    var v := Eval(isa, fuel, ctx, core, stmt.expr);
    EvalWithin(isa, rank, n, fuel, ctx, core, stmt.expr);
    if v.result.Ok? && stmt.Assign? && stmt.target.RegisterTarget? {
      IndexWithin(isa, rank, n, fuel, ctx, v.core, stmt.target.reference);
    }
  }

  lemma {:induction false} IndexWithin(isa: Isa, rank: map<Program, nat>, n: nat, fuel: nat, ctx: Ctx, core: Core, reference: RegisterRef)
    requires Ranked(isa, rank) && n <= fuel
    requires reference.index.Some? ==> CallsIn(isa, reference.index.value, Below(rank, n))
    ensures Within(EvalIndex(isa, fuel, ctx, core, reference))
    decreases fuel, 1, reference
  {
    if reference.index.Some? { EvalWithin(isa, rank, n, fuel, ctx, core, reference.index.value); }
  }

  lemma {:induction false} EvalWithin(isa: Isa, rank: map<Program, nat>, n: nat, fuel: nat, ctx: Ctx, core: Core, e: Expr)
    requires Ranked(isa, rank) && n <= fuel && CallsIn(isa, e, Below(rank, n))
    ensures Within(Eval(isa, fuel, ctx, core, e))
    decreases fuel, 1, e, 1
  {
    match e
    case Call(_, _, _, _, args) =>
      var vs := EvalAll(isa, fuel, ctx, core, args);
      EvalAllWithin(isa, rank, n, fuel, ctx, core, args);
      if vs.result.Ok? { DispatchWithin(isa, rank, n, fuel, vs.core, e, vs.result.value); }
    case Tuple(items) =>
      EvalAllWithin(isa, rank, n, fuel, ctx, core, items);
    case Binary(op, lhs, rhs) =>
      var l := Eval(isa, fuel, ctx, core, lhs);
      EvalWithin(isa, rank, n, fuel, ctx, core, lhs);
      if l.result.Ok? && AfterLeft(op, l.result.value) == Ok(None) {
        EvalWithin(isa, rank, n, fuel, ctx, l.core, rhs);
      }
    case Slice(inner, _, _) =>
      EvalWithin(isa, rank, n, fuel, ctx, core, inner);
    case _ =>
  }

  lemma {:induction false} EvalAllWithin(isa: Isa, rank: map<Program, nat>, n: nat, fuel: nat, ctx: Ctx, core: Core, es: seq<Expr>)
    requires Ranked(isa, rank) && n <= fuel && CallsAllIn(isa, es, Below(rank, n))
    ensures Within(EvalAll(isa, fuel, ctx, core, es))
    decreases fuel, 1, es, 1
  {
    if es != [] {
      var head := Eval(isa, fuel, ctx, core, es[0]);
      EvalWithin(isa, rank, n, fuel, ctx, core, es[0]);
      if head.result.Ok? { EvalAllWithin(isa, rank, n, fuel, ctx, head.core, es[1..]); }
    }
  }

  lemma {:induction false} DispatchWithin(isa: Isa, rank: map<Program, nat>, n: nat, fuel: nat, core: Core, call: Expr, args: seq<Value>)
    requires call.Call? && Ranked(isa, rank) && n <= fuel && CallsIn(isa, call, Below(rank, n))
    ensures Within(Dispatch(isa, fuel, core, call, args))
    decreases fuel, 1, call, 0
  {
    if call.kind.MacroKind? || call.kind.InstructionKind? {
      var callee := Callee(isa, call, args);
      if callee.Ok? {
        CalleeIsCalled(isa, call, args);
        RankedStaysWithin(isa, rank, fuel, callee.value.params, core, callee.value.program);
      }
    }
  }

  // ---- Programs that always exceed it ----

  /** A macro that begins by calling itself exceeds every limit. */
  lemma {:induction false} SelfCallExceeds(isa: Isa, fuel: nat, params: map<string, Value>, core: Core, name: string)
    requires FindMacro(isa.macros, name).Some? && BaseParameters(isa).Ok?
    requires var mac := FindMacro(isa.macros, name).value;
      mac.parameters == [] && mac.program != [] && mac.program[0].expr == Call(MacroKind, "macro", name, [], [])
    ensures Enter(isa, fuel, params, core, FindMacro(isa.macros, name).value.program).result == Err(StackExceeded)
  {
    if fuel > 0 {
      var mac := FindMacro(isa.macros, name).value;
      var call := mac.program[0].expr;
      var ctx := Ctx(params, map[]);
      assert EvalAll(isa, fuel - 1, ctx, core, call.args) == Run(Ok([]), core);
      assert Callee(isa, call, []) == Ok(Invocation(BaseParameters(isa).value, mac.program));
      SelfCallExceeds(isa, fuel - 1, BaseParameters(isa).value, core, name);
      assert Dispatch(isa, fuel - 1, core, call, []).result == Err(StackExceeded);
      assert Eval(isa, fuel - 1, ctx, core, call).result == Err(StackExceeded);
      assert ExecStmt(isa, fuel - 1, ctx, core, mac.program[0]).result == Err(StackExceeded);
    }
  }
}
