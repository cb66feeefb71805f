/** What a semantic program does, as functions of the values and the register bits it starts from
    (`src/soc/isa/semantics/{runtime,expression,context}.rs`). `fuel` is the number of call frames
    that may still be entered. */
module Interp {
  import opened Results
  import opened Words
  import opened Semantics
  import opened RegisterFile
  import opened Registers

  /** The scratch context of one program: its parameters and its locals. */
  datatype Ctx = Ctx(params: map<string, Value>, locals: map<string, Value>)

  /** The outcome of a computation and the core it leaves, also when it fails. */
  datatype Run<+T> = Run(result: Outcome<T>, core: Core)

  /** A statement leaves a context, and a value when it returns. */
  datatype Flow = Flow(ctx: Ctx, returned: Option<Value>)

  const MAX_CALL_DEPTH: nat := 32

  // ---- Steps that call nothing ----

  /** Locals hide parameters. */
  function Lookup(ctx: Ctx, name: string): Option<Value> {
    if name in ctx.locals then Some(ctx.locals[name])
    else if name in ctx.params then Some(ctx.params[name])
    else None
  }

  function SetLocal(ctx: Ctx, name: string, value: Value): Ctx {
    ctx.(locals := ctx.locals[name := value])
  }

  function SetLocals(ctx: Ctx, names: seq<string>, values: seq<Value>): (r: Ctx)
    requires |names| == |values|
    ensures r.params == ctx.params && r.locals.Keys == ctx.locals.Keys + Names(names)
    decreases |names|
  {
    if names == [] then ctx
    else SetLocals(SetLocal(ctx, names[0], values[0]), names[1..], values[1..])
  }

  /** The expressions whose value is in the context or in the text. */
  function Leaf(ctx: Ctx, e: Expr): Outcome<Value>
    requires e.Number? || e.Variable? || e.Parameter?
  {
    match e
    case Number(value) => if value >= WORD / 2 then Err(LiteralOutOfRange) else Ok(IntValue(value))
    case Variable(name) => (var v := Lookup(ctx, name); if v.Some? then Ok(v.value) else Err(UnknownVariable(name)))
    case Parameter(name) => (var v := Lookup(ctx, name); if v.Some? then Ok(v.value) else Err(UnknownParameter(name)))
  }

  function CheckSlice(start: nat, end: nat): (r: Outcome<()>)
    ensures r.Err? ==> DynamicError(r.error)
  {
    if end < start then Err(SliceReversed)
    else if end >= 64 then Err(SliceTooWideError)
    else Ok(())
  }

  function ApplySlice(v: Value, start: nat, end: nat): (r: Outcome<Value>)
    requires start <= end < 64
    ensures r.Err? ==> DynamicError(r.error)
  {
    var i :- AsInt(v);
    Ok(IntValue(SliceValue(i, start, end)))
  }

  /** `evaluate_register_call` */
  function RegisterCall(isa: Isa, core: Core, call: Expr, args: seq<Value>): (r: Outcome<Value>)
    requires call.Call?
    ensures r.Err? ==> DynamicError(r.error)
  {
    if |args| > 1 then Err(TooManyRegisterArguments)
    else if |call.subpath| > 1 then Err(NestedSubfield)
    else
      var index :- IndexOf(if args == [] then None else Some(args[0]));
      var resolved :- Resolve(isa, call.space, call.name, First(call.subpath), index);
      ReadResolved(core, resolved)
  }

  function First<T>(s: seq<T>): Option<T> {
    if s == [] then None else Some(s[0])
  }

  function IndexOf(v: Option<Value>): (r: Outcome<Option<I64>>)
    ensures r.Err? ==> DynamicError(r.error)
  {
    if v.None? then Ok(None)
    else
      var i :- AsInt(v.value);
      Ok(Some(i))
  }

  datatype Invocation = Invocation(params: map<string, Value>, program: Program)

  /** The program behind a macro or instruction call and the parameters bound for it. */
  function Callee(isa: Isa, call: Expr, args: seq<Value>): (r: Outcome<Invocation>)
    requires call.Call?
    ensures r.Err? ==> !r.error.StackExceeded?
  {
    if call.subpath != [] then Err(SubpathNotSupported)
    else if call.kind == MacroKind then
      var mac := FindMacro(isa.macros, call.name);
      if mac.None? then Err(UnknownMacro(call.name))
      else
        var params :- BindArguments(isa, mac.value.parameters, args);
        Ok(Invocation(params, mac.value.program))
    else
      var instr :- FindInstruction(isa, call.name);
      var operands :- InstructionOperands(isa, instr);
      if instr.program.None? then Err(MissingSemantics(instr.name))
      else
        var params :- BindArguments(isa, operands, args);
        Ok(Invocation(params, instr.program.value))
  }

  /** `write_register_target` once its index is evaluated. */
  function WriteTarget(isa: Isa, core: Core, reference: RegisterRef, index: Option<Value>, value: Value): (r: Outcome<Core>)
    ensures r.Err? ==> DynamicError(r.error)
    ensures r.Ok? ==> SameShape(core, r.value)
  {
    var i :- IndexOf(index);
    var resolved :- Resolve(isa, reference.space, reference.name, reference.subfield, i);
    var v :- AsInt(value);
    WriteResolved(core, resolved, v)
  }

  function BindTuple(ctx: Ctx, names: seq<string>, value: Value): (r: Outcome<Ctx>)
    ensures r.Err? ==> DynamicError(r.error)
  {
    if !value.TupleValue? then Err(NotATuple)
    else if |value.items| != |names| then Err(TupleLengthMismatch)
    else Ok(SetLocals(ctx, names, value.items))
  }

  /** A call that returns nothing gives the empty tuple. */
  function CallValue(returned: Option<Value>): Value {
    if returned.Some? then returned.value else TupleValue([])
  }

  // ---- Expressions ----

  function Eval(isa: Isa, fuel: nat, ctx: Ctx, core: Core, e: Expr): (r: Run<Value>)
    ensures SameShape(core, r.core)
    decreases fuel, 1, e, 1
  {
    match e
    case Call(_, _, _, _, args) =>
      (var vs := EvalAll(isa, fuel, ctx, core, args);
       if vs.result.Err? then Run(Err(vs.result.error), vs.core)
       else Dispatch(isa, fuel, vs.core, e, vs.result.value))
    case Tuple(items) =>
      (var vs := EvalAll(isa, fuel, ctx, core, items);
       if vs.result.Err? then Run(Err(vs.result.error), vs.core)
       else Run(Ok(TupleValue(vs.result.value)), vs.core))
    case Binary(op, lhs, rhs) =>
      (var l := Eval(isa, fuel, ctx, core, lhs);
       if l.result.Err? then l
       else
         var decided := AfterLeft(op, l.result.value);
         if decided.Err? then Run(Err(decided.error), l.core)
         else if decided.value.Some? then Run(Ok(decided.value.value), l.core)
         else
           var r := Eval(isa, fuel, ctx, l.core, rhs);
           if r.result.Err? then r else Run(Apply(op, l.result.value, r.result.value), r.core))
    case Slice(inner, start, end) =>
      (if CheckSlice(start, end).Err? then Run(Err(CheckSlice(start, end).error), core)
       else
         var v := Eval(isa, fuel, ctx, core, inner);
         if v.result.Err? then v else Run(ApplySlice(v.result.value, start, end), v.core))
    case _ => Run(Leaf(ctx, e), core)
  }

  /** Left to right, stopping at the first failure. */
  function EvalAll(isa: Isa, fuel: nat, ctx: Ctx, core: Core, es: seq<Expr>): (r: Run<seq<Value>>)
    ensures SameShape(core, r.core)
    decreases fuel, 1, es, 1
  {
    if es == [] then Run(Ok([]), core)
    else
      var head := Eval(isa, fuel, ctx, core, es[0]);
      if head.result.Err? then Run(Err(head.result.error), head.core)
      else
        var tail := EvalAll(isa, fuel, ctx, head.core, es[1..]);
        if tail.result.Err? then tail else Run(Ok([head.result.value] + tail.result.value), tail.core)
  }

  /** `evaluate_context_call` */
  function Dispatch(isa: Isa, fuel: nat, core: Core, call: Expr, args: seq<Value>): (r: Run<Value>)
    requires call.Call?
    ensures SameShape(core, r.core)
    decreases fuel, 1, call, 0
  {
    match call.kind
    case RegisterKind => Run(RegisterCall(isa, core, call, args), core)
    case HostKind => Run(HostCall(call.name, call.subpath, args), core)
    case _ =>
      var callee := Callee(isa, call, args);
      if callee.Err? then Run(Err(callee.error), core)
      else
        var r := Enter(isa, fuel, callee.value.params, core, callee.value.program);
        if r.result.Err? then Run(Err(r.result.error), r.core)
        else Run(Ok(CallValue(r.result.value)), r.core)
  }

  // ---- Programs ----

  /** A program runs in a frame of its own, with its own context. */
  function Enter(isa: Isa, fuel: nat, params: map<string, Value>, core: Core, program: Program): (r: Run<Option<Value>>)
    ensures SameShape(core, r.core)
    decreases fuel, 0
  {
    if fuel == 0 then Run(Err(StackExceeded), core)
    else Exec(isa, fuel - 1, Ctx(params, map[]), core, program)
  }

  /** Statements in order, up to the first that returns. */
  function Exec(isa: Isa, fuel: nat, ctx: Ctx, core: Core, stmts: Program): (r: Run<Option<Value>>)
    ensures SameShape(core, r.core)
    decreases fuel, 3, |stmts|
  {
    if stmts == [] then Run(Ok(None), core)
    else
      var step := ExecStmt(isa, fuel, ctx, core, stmts[0]);
      if step.result.Err? then Run(Err(step.result.error), step.core)
      else if step.result.value.returned.Some? then Run(Ok(step.result.value.returned), step.core)
      else Exec(isa, fuel, step.result.value.ctx, step.core, stmts[1..])
  }

  function ExecStmt(isa: Isa, fuel: nat, ctx: Ctx, core: Core, stmt: Stmt): (r: Run<Flow>)
    ensures SameShape(core, r.core)
    decreases fuel, 2
  {
    var v := Eval(isa, fuel, ctx, core, stmt.expr);
    if v.result.Err? then Run(Err(v.result.error), v.core)
    else
      match stmt
      case ExprStmt(_) => Run(Ok(Flow(ctx, None)), v.core)
      case Return(_) => Run(Ok(Flow(ctx, Some(v.result.value))), v.core)
      case Assign(target, _) => AssignTo(isa, fuel, ctx, v.core, target, v.result.value)
  }

  /** `assign_target`: a register target evaluates its index after the value. */
  function AssignTo(isa: Isa, fuel: nat, ctx: Ctx, core: Core, target: Target, value: Value): (r: Run<Flow>)
    ensures SameShape(core, r.core)
    decreases fuel, 1
  {
    match target
    case VariableTarget(name) => Run(Ok(Flow(SetLocal(ctx, name, value), None)), core)
    case TupleTarget(names) =>
      (var bound := BindTuple(ctx, names, value);
       Run(if bound.Err? then Err(bound.error) else Ok(Flow(bound.value, None)), core))
    case RegisterTarget(reference) =>
      var index := EvalIndex(isa, fuel, ctx, core, reference);
      if index.result.Err? then Run(Err(index.result.error), index.core)
      else
        var written := WriteTarget(isa, index.core, reference, index.result.value, value);
        if written.Err? then Run(Err(written.error), index.core)
        else Run(Ok(Flow(ctx, None)), written.value)
  }

  function EvalIndex(isa: Isa, fuel: nat, ctx: Ctx, core: Core, reference: RegisterRef): (r: Run<Option<Value>>)
    ensures SameShape(core, r.core)
    decreases fuel, 1, reference
  {
    if reference.index.None? then Run(Ok(None), core)
    else
      var v := Eval(isa, fuel, ctx, core, reference.index.value);
      if v.result.Err? then Run(Err(v.result.error), v.core) else Run(Ok(Some(v.result.value)), v.core)
  }

  /** `execute_program` */
  function Execute(isa: Isa, params: map<string, Value>, core: Core, program: Program): (r: Run<Option<Value>>)
    ensures SameShape(core, r.core)
  {
    Enter(isa, MAX_CALL_DEPTH, params, core, program)
  }
}
