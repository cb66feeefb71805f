/** The interpreter as it runs: a core state and a call stack updated in place, proved to compute the
    functions of `Interp` (`src/soc/isa/semantics/{runtime,expression,context}.rs`). */
module Runtime {
  import opened Words
  import opened Results
  import opened Seqs
  import opened Semantics
  import opened RegisterFile
  import opened Registers
  import opened Interp
  import opened Soundness
  import opened Blocks

  // ---- State ----

  class CallStack {
    var depth: nat
    const limit: nat

    constructor (limit: nat)
      ensures depth == 0 && this.limit == limit
    {
      this.limit := limit;
      depth := 0;
    }

    ghost predicate Valid()
      reads this
    {
      depth <= limit
    }

    /** The frames that may still be entered. */
    ghost function Fuel(): nat
      requires Valid()
      reads this
    {
      limit - depth
    }

    method Enter() returns (r: Outcome<()>)
      requires Valid()
      modifies this
      ensures Valid()
      ensures r.Ok? <==> old(depth) < limit
      ensures r.Err? ==> r == Err(StackExceeded)
      ensures depth == if r.Ok? then old(depth) + 1 else old(depth)
    {
      if depth >= limit { return Err(StackExceeded); }
      depth := depth + 1;
      r := Ok(());
    }

    /** The guard of a frame is dropped. */
    method Leave()
      requires Valid()
      modifies this
      ensures Valid()
      ensures depth == if old(depth) > 0 then old(depth) - 1 else 0
    {
      if depth > 0 { depth := depth - 1; }
    }
  }

  class RegisterState {
    const layout: map<string, Layout>
    const endianness: Endianness
    var bits: seq<bool>

    constructor (core: Core)
      ensures Contents() == core
    {
      layout := core.layout;
      endianness := core.endianness;
      bits := core.bits;
    }

    function Contents(): Core
      reads this
    {
      Core(layout, endianness, bits)
    }

    method Write(resolved: Resolved, value: I64) returns (r: Outcome<()>)
      modifies this
      ensures var written := WriteResolved(old(Contents()), resolved, value);
        if written.Err? then r == Err(written.error) && Contents() == old(Contents())
        else r == Ok(()) && Contents() == written.value
    {
      var written := WriteResolved(Contents(), resolved, value);
      if written.Err? { return Err(written.error); }
      bits := written.value.bits;
      r := Ok(());
    }
  }

  class ExecutionContext {
    const params: map<string, Value>
    var locals: map<string, Value>

    constructor (params: map<string, Value>)
      ensures Contents() == Ctx(params, map[])
    {
      this.params := params;
      locals := map[];
    }

    function Contents(): Ctx
      reads this
    {
      Ctx(params, locals)
    }

    method SetLocal(name: string, value: Value)
      modifies this
      ensures Contents() == Interp.SetLocal(old(Contents()), name, value)
    {
      locals := locals[name := value];
    }

    /** The loop of a tuple assignment. */
    method SetLocals(names: seq<string>, values: seq<Value>)
      requires |names| == |values|
      modifies this
      ensures Contents() == Interp.SetLocals(old(Contents()), names, values)
    {
      var i := 0;
      while i < |names|
        invariant 0 <= i <= |names|
        invariant Interp.SetLocals(old(Contents()), names, values) == Interp.SetLocals(Contents(), names[i..], values[i..])
      {
        SetLocal(names[i], values[i]);
        assert names[i..][1..] == names[i + 1..] && values[i..][1..] == values[i + 1..];
        i := i + 1;
      }
    }
  }

  // ---- Expressions ----

  /** Evaluation computes `Eval`, leaves the caller's context alone and restores the call depth. */
  method Evaluate(isa: Isa, state: RegisterState, stack: CallStack, context: ExecutionContext, e: Expr) returns (r: Outcome<Value>)
    requires stack.Valid()
    modifies state, stack
    ensures stack.Valid() && stack.depth == old(stack.depth)
    ensures Run(r, state.Contents()) == Eval(isa, old(stack.Fuel()), old(context.Contents()), old(state.Contents()), e)
    decreases stack.limit - stack.depth, 1, e, 1
  {
    match e
    case Call(_, _, _, _, args) =>
      var values := EvaluateAll(isa, state, stack, context, args);
      if values.Err? { return Err(values.error); }
      r := EvaluateContextCall(isa, state, stack, e, values.value);
    case Tuple(items) =>
      var values := EvaluateAll(isa, state, stack, context, items);
      if values.Err? { return Err(values.error); }
      r := Ok(TupleValue(values.value));
    case Binary(op, lhs, rhs) =>
      var left := Evaluate(isa, state, stack, context, lhs);
      if left.Err? { return left; }
      var decided := AfterLeft(op, left.value);
      if decided.Err? { return Err(decided.error); }
      if decided.value.Some? { return Ok(decided.value.value); }
      var right := Evaluate(isa, state, stack, context, rhs);
      if right.Err? { return right; }
      r := Apply(op, left.value, right.value);
    case Slice(inner, start, end) =>
      var checked := CheckSlice(start, end);
      if checked.Err? { return Err(checked.error); }
      var v := Evaluate(isa, state, stack, context, inner);
      if v.Err? { return v; }
      r := ApplySlice(v.value, start, end);
    case _ =>
      r := Leaf(context.Contents(), e);
  }

  /** The values collected so far, and the outcome of the rest. */
  ghost function Collected(values: seq<Value>, rest: Run<seq<Value>>): Run<seq<Value>> {
    if rest.result.Err? then rest else Run(Ok(values + rest.result.value), rest.core)
  }

  method EvaluateAll(isa: Isa, state: RegisterState, stack: CallStack, context: ExecutionContext, es: seq<Expr>)
    returns (r: Outcome<seq<Value>>)
    requires stack.Valid()
    modifies state, stack
    ensures stack.Valid() && stack.depth == old(stack.depth)
    ensures Run(r, state.Contents()) == EvalAll(isa, old(stack.Fuel()), old(context.Contents()), old(state.Contents()), es)
    decreases stack.limit - stack.depth, 1, es, 1
  {
    ghost var fuel, ctx, core := stack.Fuel(), context.Contents(), state.Contents();
    var values: seq<Value> := [];
    var i := 0;
    DropWhole(es);
    CollectedEnds([], EvalAll(isa, fuel, ctx, core, es));
    while i < |es|
      invariant 0 <= i <= |es|
      invariant stack.Valid() && stack.Fuel() == fuel && stack.depth == old(stack.depth) && context.Contents() == ctx
      invariant EvalAll(isa, fuel, ctx, core, es) == Collected(values, EvalAll(isa, fuel, ctx, state.Contents(), es[i..]))
    {
      DropDrop(es, i, 1);
      var v := Evaluate(isa, state, stack, context, es[i]);
      if v.Err? { return Err(v.error); }
      CollectedStep(values, v.value, EvalAll(isa, fuel, ctx, state.Contents(), es[i + 1..]));
      values := values + [v.value];
      i := i + 1;
    }
    CollectedEnds(values, EvalAll(isa, fuel, ctx, state.Contents(), es[i..]));
    r := Ok(values);
  }

  lemma CollectedEnds(values: seq<Value>, rest: Run<seq<Value>>)
    ensures Collected([], rest) == rest && Collected(values, Run(Ok([]), rest.core)) == Run(Ok(values), rest.core)
  {
    if rest.result.Ok? { assert [] + rest.result.value == rest.result.value; }
    assert values + [] == values;
  }

  lemma CollectedStep(values: seq<Value>, v: Value, rest: Run<seq<Value>>)
    ensures Collected(values, if rest.result.Err? then rest else Run(Ok([v] + rest.result.value), rest.core)) == Collected(values + [v], rest)
  {
    if rest.result.Ok? { AppendAssoc(values, [v], rest.result.value); }
  }

  method EvaluateContextCall(isa: Isa, state: RegisterState, stack: CallStack, call: Expr, args: seq<Value>) returns (r: Outcome<Value>)
    requires call.Call? && stack.Valid()
    modifies state, stack
    ensures stack.Valid() && stack.depth == old(stack.depth)
    ensures Run(r, state.Contents()) == Dispatch(isa, old(stack.Fuel()), old(state.Contents()), call, args)
    decreases stack.limit - stack.depth, 1, call, 0
  {
    match call.kind
    case RegisterKind => r := RegisterCall(isa, state.Contents(), call, args);
    case HostKind => r := HostCall(call.name, call.subpath, args);
    case _ =>
      var callee := Callee(isa, call, args);
      if callee.Err? { return Err(callee.error); }
      var context := new ExecutionContext(callee.value.params);
      var returned := ExecuteWithContext(isa, state, stack, context, callee.value.program);
      if returned.Err? { return Err(returned.error); }
      r := Ok(CallValue(returned.value));
  }

  // ---- Programs ----

  /** One frame is entered, the statements run until one returns, and the frame is left on every way out. */
  method ExecuteWithContext(isa: Isa, state: RegisterState, stack: CallStack, context: ExecutionContext, program: Program)
    returns (r: Outcome<Option<Value>>)
    requires stack.Valid() && context.locals == map[]
    modifies state, stack, context
    ensures stack.Valid() && stack.depth == old(stack.depth)
    ensures Run(r, state.Contents()) == Enter(isa, old(stack.Fuel()), context.params, old(state.Contents()), program)
    decreases stack.limit - stack.depth, 0
  {
    var entered := stack.Enter();
    if entered.Err? { return Err(entered.error); }
    ghost var fuel, ctx, core := stack.Fuel(), context.Contents(), state.Contents();
    var i := 0;
    while i < |program|
      invariant 0 <= i <= |program|
      invariant stack.Valid() && stack.Fuel() == fuel && stack.depth == old(stack.depth) + 1
      invariant Exec(isa, fuel, ctx, core, program) == Exec(isa, fuel, context.Contents(), state.Contents(), program[i..])
    {
      DropDrop(program, i, 1);
      var returned := ExecuteStatement(isa, state, stack, context, program[i]);
      if returned.Err? || returned.value.Some? {
        stack.Leave();
        return returned;
      }
      i := i + 1;
    }
    stack.Leave();
    r := Ok(None);
  }

  method ExecuteStatement(isa: Isa, state: RegisterState, stack: CallStack, context: ExecutionContext, stmt: Stmt)
    returns (r: Outcome<Option<Value>>)
    requires stack.Valid()
    modifies state, stack, context
    ensures stack.Valid() && stack.depth == old(stack.depth)
    ensures Flows(r, context.Contents(), state.Contents(),
                  ExecStmt(isa, old(stack.Fuel()), old(context.Contents()), old(state.Contents()), stmt))
    decreases stack.limit - stack.depth, 2
  {
    var v := Evaluate(isa, state, stack, context, stmt.expr);
    if v.Err? { return Err(v.error); }
    match stmt
    case ExprStmt(_) => r := Ok(None);
    case Return(_) => r := Ok(Some(v.value));
    case Assign(target, _) => r := AssignTarget(isa, state, stack, context, target, v.value);
  }

  /** What a statement returns and leaves is what the flow says. */
  ghost predicate Flows(r: Outcome<Option<Value>>, ctx: Ctx, core: Core, step: Run<Flow>) {
    && core == step.core
    && (step.result.Err? ==> r == Err(step.result.error))
    && (step.result.Ok? ==> r == Ok(step.result.value.returned) && ctx == step.result.value.ctx)
  }

  method AssignTarget(isa: Isa, state: RegisterState, stack: CallStack, context: ExecutionContext, target: Target, value: Value)
    returns (r: Outcome<Option<Value>>)
    requires stack.Valid()
    modifies state, stack, context
    ensures stack.Valid() && stack.depth == old(stack.depth)
    ensures Flows(r, context.Contents(), state.Contents(),
                  AssignTo(isa, old(stack.Fuel()), old(context.Contents()), old(state.Contents()), target, value))
    decreases stack.limit - stack.depth, 1
  {
    match target
    case VariableTarget(name) =>
      context.SetLocal(name, value);
      r := Ok(None);
    case TupleTarget(names) =>
      if !value.TupleValue? { return Err(NotATuple); }
      if |value.items| != |names| { return Err(TupleLengthMismatch); }
      context.SetLocals(names, value.items);
      r := Ok(None);
    case RegisterTarget(reference) =>
      var index: Option<Value> := None;
      if reference.index.Some? {
        var v := Evaluate(isa, state, stack, context, reference.index.value);
        if v.Err? { return Err(v.error); }
        index := Some(v.value);
      }
      r := WriteRegisterTarget(isa, state, reference, index, value);
  }

  method WriteRegisterTarget(isa: Isa, state: RegisterState, reference: RegisterRef, index: Option<Value>, value: Value)
    returns (r: Outcome<Option<Value>>)
    modifies state
    ensures var written := WriteTarget(isa, old(state.Contents()), reference, index, value);
      if written.Err? then r == Err(written.error) && state.Contents() == old(state.Contents())
      else r == Ok(None) && state.Contents() == written.value
  {
    var i := IndexOf(index);
    if i.Err? { return Err(i.error); }
    var resolved := Resolve(isa, reference.space, reference.name, reference.subfield, i.value);
    if resolved.Err? { return Err(resolved.error); }
    var v := AsInt(value);
    if v.Err? { return Err(v.error); }
    var written := state.Write(resolved.value, v.value);
    if written.Err? { return Err(written.error); }
    r := Ok(None);
  }

  /** `execute_program`: 32 frames at most. */
  method ExecuteProgram(isa: Isa, state: RegisterState, params: map<string, Value>, program: Program) returns (r: Outcome<Option<Value>>)
    modifies state
    ensures Run(r, state.Contents()) == Execute(isa, params, old(state.Contents()), program)
  {
    var context := new ExecutionContext(params);
    var stack := new CallStack(MAX_CALL_DEPTH);
    r := ExecuteWithContext(isa, state, stack, context, program);
  }

  // ---- Blocks ----

  ghost function Executed(done: seq<Option<Value>>, rest: Run<seq<Option<Value>>>): Run<seq<Option<Value>>> {
    if rest.result.Err? then rest else Run(Ok(done + rest.result.value), rest.core)
  }

  lemma ExecutedEnds(done: seq<Option<Value>>, rest: Run<seq<Option<Value>>>)
    ensures Executed([], rest) == rest && Executed(done, Run(Ok([]), rest.core)) == Run(Ok(done), rest.core)
  {
    if rest.result.Ok? { assert [] + rest.result.value == rest.result.value; }
    assert done + [] == done;
  }

  lemma ExecutedStep(done: seq<Option<Value>>, v: Option<Value>, rest: Run<seq<Option<Value>>>)
    ensures Executed(done, if rest.result.Err? then rest else Run(Ok([v] + rest.result.value), rest.core)) == Executed(done + [v], rest)
  {
    if rest.result.Ok? { AppendAssoc(done, [v], rest.result.value); }
  }

  method ExecuteBlock(isa: Isa, state: RegisterState, block: seq<Fetched>) returns (r: Outcome<seq<Option<Value>>>)
    requires ProperForms(isa)
    modifies state
    ensures Run(r, state.Contents()) == RunBlock(isa, block, old(state.Contents()))
  {
    ghost var core := state.Contents();
    var executions: seq<Option<Value>> := [];
    var i := 0;
    DropWhole(block);
    ExecutedEnds([], RunBlock(isa, block, core));
    while i < |block|
      invariant 0 <= i <= |block|
      invariant RunBlock(isa, block, core) == Executed(executions, RunBlock(isa, block[i..], state.Contents()))
    {
      DropDrop(block, i, 1);
      ghost var before := state.Contents();
      var returned: Option<Value> := None;
      if block[i].instr.program.Some? {
        var params := BindDecoded(isa, block[i].instr, block[i].bits);
        if params.Err? { return Err(params.error); }
        var run := ExecuteProgram(isa, state, params.value, block[i].instr.program.value);
        if run.Err? { return Err(run.error); }
        returned := run.value;
      }
      assert ExecuteDecoded(isa, block[i].instr, block[i].bits, before) == Run(Ok(returned), state.Contents());
      ExecutedStep(executions, returned, RunBlock(isa, block[i + 1..], state.Contents()));
      executions := executions + [returned];
      i := i + 1;
    }
    ExecutedEnds(executions, RunBlock(isa, block[i..], state.Contents()));
    r := Ok(executions);
  }
}
