/** Programs of a machine that the analyzer accepts never meet an unknown name, an ambiguous call
    or a wrong number of arguments, at any call depth. */
module Soundness {
  import opened Results
  import opened Words
  import opened BitFields
  import Machine
  import opened Semantics
  import opened RegisterFile
  import opened Registers
  import opened Interp
  import opened Analyzer

  /** The run did not fail in a way the analyzer is there to rule out. */
  predicate Clean<T>(r: Run<T>) {
    r.result.Err? ==> !StaticError(r.result.error)
  }

  /** The context has a value for every name in scope. */
  predicate Covers(ctx: Ctx, scope: Scope) {
    scope.parameters <= ctx.params.Keys && scope.locals <= ctx.locals.Keys
  }

  /** The index of a register assignment, which the analyzer does not visit, is proper too. */
  predicate IndexScoped(isa: Isa, scope: Scope, stmt: Stmt) {
    stmt.Assign? && stmt.target.RegisterTarget? && stmt.target.reference.index.Some? ==>
      ScopedExpr(isa, scope, stmt.target.reference.index.value)
  }

  predicate IndexesScoped(isa: Isa, scope: Scope, stmts: Program)
    decreases |stmts|
  {
    stmts == [] || (IndexScoped(isa, scope, stmts[0]) && IndexesScoped(isa, Define(scope, stmts[0]), stmts[1..]))
  }

  /** The indexes of every register assignment in the machine are proper. */
  ghost predicate IndexesInScope(isa: Isa) {
    && (forall mac | mac in isa.macros :: IndexesScoped(isa, Scope(MacroParameters(isa, mac), {}), mac.program))
    && (forall instr | instr in isa.instructions && instr.program.Some? && InstructionOperands(isa, instr).Ok? ::
          IndexesScoped(isa, InstructionScope(isa, instr), instr.program.value))
  }

  function InstructionScope(isa: Isa, instr: InstructionInfo): Scope
    requires InstructionOperands(isa, instr).Ok?
  {
    Scope(isa.parameters.Keys + Names(InstructionOperands(isa, instr).value), {})
  }

  ghost predicate SoundMachine(isa: Isa) {
    ScopedMachine(isa) && IndexesInScope(isa)
  }

  ghost predicate SoundProgram(isa: Isa, scope: Scope, stmts: Program) {
    ScopedProgram(isa, scope, stmts) && IndexesScoped(isa, scope, stmts)
  }

  // ---- Calls ----

  /** The bound parameters cover a scope in which the program is proper. */
  ghost predicate Prepared(isa: Isa, call: Invocation) {
    exists parameters: set<string> :: parameters <= call.params.Keys && SoundProgram(isa, Scope(parameters, {}), call.program)
  }

  /** What a proper call binds: a program that is proper in the scope of the bound parameters. */
  lemma CalleeSound(isa: Isa, call: Expr, args: seq<Value>)
    requires SoundMachine(isa) && call.Call? && (call.kind.MacroKind? || call.kind.InstructionKind?)
    requires ScopedCall(isa, call) && |args| == |call.args|
    ensures var r := Callee(isa, call, args);
      && (r.Err? ==> !StaticError(r.error))
      && (r.Ok? ==> Prepared(isa, r.value))
  {
    if call.subpath == [] {
      if call.kind == MacroKind {
        var mac := FindMacro(isa.macros, call.name).value;
        assert SoundProgram(isa, Scope(MacroParameters(isa, mac), {}), mac.program);
        BindCovers(isa, mac.parameters, args);
      } else {
        var instr := FindInstruction(isa, call.name).value;
        assert instr in isa.instructions;
        var operands := InstructionOperands(isa, instr).value;
        BindCovers(isa, operands, args);
        if instr.program.Some? {
          assert ScopedInstruction(isa, instr);
          assert SoundProgram(isa, InstructionScope(isa, instr), instr.program.value);
        }
      }
    }
  }

  lemma BindCovers(isa: Isa, names: seq<string>, args: seq<Value>)
    requires |names| == |args|
    ensures var r := BindArguments(isa, names, args);
      (r.Err? ==> !StaticError(r.error)) && (r.Ok? ==> r.value.Keys == isa.parameters.Keys + Names(names))
  {
    assert BaseParameters(isa).Ok? ==> BaseParameters(isa).value.Keys == isa.parameters.Keys;
  }

  lemma HostSound(call: Expr, args: seq<Value>)
    requires call.Call? && HostArity(call.name) == Some(|args|)
    ensures var r := HostCall(call.name, call.subpath, args); r.Err? ==> !StaticError(r.error)
  {}

  // ---- Runs ----

  lemma {:induction false} EvalSound(isa: Isa, scope: Scope, fuel: nat, ctx: Ctx, core: Core, e: Expr)
    requires SoundMachine(isa) && Covers(ctx, scope) && ScopedExpr(isa, scope, e)
    ensures Clean(Eval(isa, fuel, ctx, core, e))
    decreases fuel, 1, e, 1
  {
    match e
    case Call(_, _, _, _, args) =>
      var vs := EvalAll(isa, fuel, ctx, core, args);
      EvalAllSound(isa, scope, fuel, ctx, core, args);
      if vs.result.Ok? { DispatchSound(isa, fuel, vs.core, e, vs.result.value); }
    case Tuple(items) =>
      EvalAllSound(isa, scope, fuel, ctx, core, items);
    case Binary(op, lhs, rhs) =>
      var l := Eval(isa, fuel, ctx, core, lhs);
      EvalSound(isa, scope, fuel, ctx, core, lhs);
      if l.result.Ok? && AfterLeft(op, l.result.value) == Ok(None) {
        EvalSound(isa, scope, fuel, ctx, l.core, rhs);
      }
    case Slice(inner, _, _) =>
      EvalSound(isa, scope, fuel, ctx, core, inner);
    case _ =>
  }

  lemma {:induction false} EvalAllSound(isa: Isa, scope: Scope, fuel: nat, ctx: Ctx, core: Core, es: seq<Expr>)
    requires SoundMachine(isa) && Covers(ctx, scope) && ScopedAll(isa, scope, es)
    ensures var r := EvalAll(isa, fuel, ctx, core, es); Clean(r) && (r.result.Ok? ==> |r.result.value| == |es|)
    decreases fuel, 1, es, 1
  {
    if es != [] {
      var head := Eval(isa, fuel, ctx, core, es[0]);
      EvalSound(isa, scope, fuel, ctx, core, es[0]);
      if head.result.Ok? { EvalAllSound(isa, scope, fuel, ctx, head.core, es[1..]); }
    }
  }

  lemma {:induction false} DispatchSound(isa: Isa, fuel: nat, core: Core, call: Expr, args: seq<Value>)
    requires SoundMachine(isa) && call.Call? && ScopedCall(isa, call) && |args| == |call.args|
    ensures Clean(Dispatch(isa, fuel, core, call, args))
    decreases fuel, 1, call, 0
  {
    match call.kind
    case RegisterKind =>
    case HostKind => HostSound(call, args);
    case _ =>
      CalleeSound(isa, call, args);
      var callee := Callee(isa, call, args);
      if callee.Ok? {
        var parameters: set<string> :| parameters <= callee.value.params.Keys && SoundProgram(isa, Scope(parameters, {}), callee.value.program);
        EnterSound(isa, parameters, fuel, callee.value.params, core, callee.value.program);
      }
  }

  /** A proper program run from bindings that cover its parameters fails only for what the values are. */
  lemma {:induction false} EnterSound(isa: Isa, parameters: set<string>, fuel: nat, params: map<string, Value>, core: Core, program: Program)
    requires SoundMachine(isa) && SoundProgram(isa, Scope(parameters, {}), program) && parameters <= params.Keys
    ensures Clean(Enter(isa, fuel, params, core, program))
    decreases fuel, 0
  {
    if fuel > 0 { ExecSound(isa, Scope(parameters, {}), fuel - 1, Ctx(params, map[]), core, program); }
  }

  lemma {:induction false} ExecSound(isa: Isa, scope: Scope, fuel: nat, ctx: Ctx, core: Core, stmts: Program)
    requires SoundMachine(isa) && Covers(ctx, scope) && SoundProgram(isa, scope, stmts)
    ensures Clean(Exec(isa, fuel, ctx, core, stmts))
    decreases fuel, 3, |stmts|
  {
    if stmts != [] {
      ScopedProgramCons(isa, scope, stmts);
      var step := ExecStmt(isa, fuel, ctx, core, stmts[0]);
      StmtSound(isa, scope, fuel, ctx, core, stmts[0]);
      if step.result.Ok? && step.result.value.returned.None? {
        ExecSound(isa, Define(scope, stmts[0]), fuel, step.result.value.ctx, step.core, stmts[1..]);
      }
    }
  }

  lemma {:induction false} StmtSound(isa: Isa, scope: Scope, fuel: nat, ctx: Ctx, core: Core, stmt: Stmt)
    requires SoundMachine(isa) && Covers(ctx, scope) && ScopedStmt(isa, scope, stmt) && IndexScoped(isa, scope, stmt)
    ensures var r := ExecStmt(isa, fuel, ctx, core, stmt);
      Clean(r) && (r.result.Ok? && r.result.value.returned.None? ==> Covers(r.result.value.ctx, Define(scope, stmt)))
    decreases fuel, 2
  {
    var v := Eval(isa, fuel, ctx, core, stmt.expr);
    EvalSound(isa, scope, fuel, ctx, core, stmt.expr);
    if v.result.Ok? && stmt.Assign? { AssignSound(isa, scope, fuel, ctx, v.core, stmt, v.result.value); }
  }

  lemma {:induction false} AssignSound(isa: Isa, scope: Scope, fuel: nat, ctx: Ctx, core: Core, stmt: Stmt, value: Value)
    requires SoundMachine(isa) && Covers(ctx, scope) && stmt.Assign? && IndexScoped(isa, scope, stmt)
    ensures var r := AssignTo(isa, fuel, ctx, core, stmt.target, value);
      Clean(r) && (r.result.Ok? ==> Covers(r.result.value.ctx, Define(scope, stmt)))
    decreases fuel, 1, stmt
  {
    if stmt.target.RegisterTarget? {
      var reference := stmt.target.reference;
      if reference.index.Some? { EvalSound(isa, scope, fuel, ctx, core, reference.index.value); }
      assert Clean(EvalIndex(isa, fuel, ctx, core, reference));
    }
  }

  // ---- Accepted machines ----

  /** In an accepted machine whose indexes are in scope, an instruction run from bindings for the
      global parameters and its operands never fails statically, whatever the call-depth limit. */
  lemma AcceptedInstructionSound(isa: Isa, instr: InstructionInfo, fuel: nat, params: map<string, Value>, core: Core)
    requires CompileSemantics(isa).Ok? && IndexesInScope(isa)
    requires instr in isa.instructions && instr.program.Some?
    requires InstructionOperands(isa, instr).Ok? ==> InstructionScope(isa, instr).parameters <= params.Keys
    ensures Clean(Enter(isa, fuel, params, core, instr.program.value))
  {
    CompileSemanticsIff(isa);
    assert ScopedInstruction(isa, instr);
    assert SoundProgram(isa, InstructionScope(isa, instr), instr.program.value);
    EnterSound(isa, InstructionScope(isa, instr).parameters, fuel, params, core, instr.program.value);
  }

  lemma AcceptedMacroSound(isa: Isa, mac: MacroInfo, fuel: nat, params: map<string, Value>, core: Core)
    requires CompileSemantics(isa).Ok? && IndexesInScope(isa)
    requires mac in isa.macros && MacroParameters(isa, mac) <= params.Keys
    ensures Clean(Enter(isa, fuel, params, core, mac.program))
  {
    CompileSemanticsIff(isa);
    assert SoundProgram(isa, Scope(MacroParameters(isa, mac), {}), mac.program);
    EnterSound(isa, MacroParameters(isa, mac), fuel, params, core, mac.program);
  }

  /** `$space::name(variable) = 0` */
  function IndexedClear(space: string, name: string, variable: string): Program {
    [Assign(RegisterTarget(RegisterRef(space, name, None, Some(Variable(variable)))), Number(0))]
  }

  /** Why the indexes have to be in scope: for every register of every machine the analyzer accepts an
      index it never looked at, and the run fails on it exactly when no parameter happens to have that name. */
  lemma UncheckedIndexFails(isa: Isa, space: string, name: string, variable: string, parameters: set<string>,
                            fuel: nat, params: map<string, Value>, core: Core)
    requires RegisterKnown(isa, space, name, None) && fuel > 0
    ensures Validate(isa, parameters, IndexedClear(space, name, variable)).Ok?
    ensures Enter(isa, fuel, params, core, IndexedClear(space, name, variable)).result == Err(UnknownVariable(variable))
            <==> variable !in params
  {
    var program := IndexedClear(space, name, variable);
    var scope := Scope(parameters, {});
    NoStmtDiagsIff(isa, scope, program[0]);
    assert ProgramDiags(isa, Define(scope, program[0]), program[1..]) == Ok([]);
    assert ProgramDiags(isa, scope, program) == Ok([]);
    var ctx := Ctx(params, map[]);
    var index := EvalIndex(isa, fuel - 1, ctx, core, program[0].target.reference);
    assert Eval(isa, fuel - 1, ctx, core, Variable(variable)) == Run(Leaf(ctx, Variable(variable)), core);
    assert index.result == if variable in params then Ok(Some(params[variable])) else Err(UnknownVariable(variable));
    assert Eval(isa, fuel - 1, ctx, core, program[0].expr) == Run(Ok(IntValue(0)), core);
    var step := ExecStmt(isa, fuel - 1, ctx, core, program[0]);
    assert step == AssignTo(isa, fuel - 1, ctx, core, program[0].target, IntValue(0));
    assert step.result == Err(UnknownVariable(variable)) <==> variable !in params;
    assert Enter(isa, fuel, params, core, program) == Exec(isa, fuel - 1, ctx, core, program);
  }

  // ---- Decoded instructions ----

  /** Building a form keeps every operand a subfield, and every subfield a valid bit field. */
  predicate ProperForms(isa: Isa) {
    forall space, form | space in isa.spaces && form in isa.spaces[space].forms :: ProperForm(isa.spaces[space].forms[form])
  }

  predicate ProperForm(form: Machine.Form) {
    && (forall name | name in form.fields :: ValidSpec(form.fields[name]))
    && (forall name | name in form.operandOrder :: name in form.fields)
  }

  function DecodedFields(form: Machine.Form, bits: nat): map<string, Value>
    requires ProperForm(form)
  {
    map name | name in form.fields :: IntValue(ReadField(form.fields[name], bits))
  }

  /** `bind_parameters`: the global parameters, then every subfield of the form. */
  function BindDecoded(isa: Isa, instr: InstructionInfo, bits: nat): Outcome<map<string, Value>>
    requires ProperForms(isa)
  {
    var base :- BaseParameters(isa);
    if instr.form.None? then Ok(base)
    else if instr.space !in isa.spaces then Err(UnknownInstructionSpace(instr.space))
    else if instr.form.value !in isa.spaces[instr.space].forms then Err(UnknownInstructionForm(instr.form.value))
    else Ok(base + DecodedFields(isa.spaces[instr.space].forms[instr.form.value], bits))
  }

  /** The name gets a value when the instruction is decoded. */
  predicate DecodedName(isa: Isa, instr: InstructionInfo, name: string) {
    name in isa.parameters ||
    (instr.form.Some? && instr.space in isa.spaces && instr.form.value in isa.spaces[instr.space].forms &&
     name in isa.spaces[instr.space].forms[instr.form.value].fields)
  }

  lemma DecodedNamesAreBound(isa: Isa, instr: InstructionInfo, bits: nat, name: string)
    requires ProperForms(isa) && BindDecoded(isa, instr, bits).Ok?
    ensures name in BindDecoded(isa, instr, bits).value <==> DecodedName(isa, instr, name)
  {}

  /** Decoding covers the scope the analyzer assumed exactly when every declared operand is a subfield
      of the form or a global parameter; operands taken from the form always are. */
  lemma DecodingCoversIff(isa: Isa, instr: InstructionInfo, bits: nat)
    requires ProperForms(isa) && BindDecoded(isa, instr, bits).Ok? && InstructionOperands(isa, instr).Ok?
    ensures InstructionScope(isa, instr).parameters <= BindDecoded(isa, instr, bits).value.Keys
            <==> forall name | name in instr.operands :: DecodedName(isa, instr, name)
  {
    var bound := BindDecoded(isa, instr, bits).value;
    var operands := InstructionOperands(isa, instr).value;
    forall name | name in operands || name in isa.parameters || name in instr.operands
      ensures name in bound <==> DecodedName(isa, instr, name)
    {
      DecodedNamesAreBound(isa, instr, bits, name);
    }
    assert forall name | name in operands :: name in instr.operands || (instr.operands == [] && DecodedName(isa, instr, name));
    if InstructionScope(isa, instr).parameters <= bound.Keys {
      forall name | name in instr.operands ensures DecodedName(isa, instr, name) {
        assert name in InstructionScope(isa, instr).parameters;
      }
    }
  }

  /** `execute_block` on one decoded instruction */
  function ExecuteDecoded(isa: Isa, instr: InstructionInfo, bits: nat, core: Core): Run<Option<Value>>
    requires ProperForms(isa)
  {
    if instr.program.None? then Run(Ok(None), core)
    else
      var params := BindDecoded(isa, instr, bits);
      if params.Err? then Run(Err(params.error), core)
      else Execute(isa, params.value, core, instr.program.value)
  }

  lemma DecodedInstructionSound(isa: Isa, instr: InstructionInfo, bits: nat, core: Core)
    requires ProperForms(isa) && CompileSemantics(isa).Ok? && IndexesInScope(isa) && instr in isa.instructions
    requires instr.form.Some? ==> instr.space in isa.spaces && instr.form.value in isa.spaces[instr.space].forms
    requires forall name | name in instr.operands :: DecodedName(isa, instr, name)
    ensures Clean(ExecuteDecoded(isa, instr, bits, core))
  {
    var params := BindDecoded(isa, instr, bits);
    if instr.program.Some? && params.Ok? {
      if InstructionOperands(isa, instr).Ok? { DecodingCoversIff(isa, instr, bits); }
      AcceptedInstructionSound(isa, instr, MAX_CALL_DEPTH, params.value, core);
    }
  }

  /** Why the operands have to be subfields: an accepted instruction that only returns its operand
      fails when decoded, unless the operand is a subfield or a global parameter. */
  lemma UndeclaredOperandFails(isa: Isa, instr: InstructionInfo, operand: string, bits: nat, core: Core)
    requires ProperForms(isa) && BindDecoded(isa, instr, bits).Ok?
    requires instr.operands == [operand] && instr.program == Some([Return(Parameter(operand))])
    ensures AnalyzeInstruction(isa, instr, instr.program.value).Ok?
    ensures ExecuteDecoded(isa, instr, bits, core).result == Err(UnknownParameter(operand)) <==> !DecodedName(isa, instr, operand)
  {
    var program := instr.program.value;
    var scope := InstructionScope(isa, instr);
    assert operand in scope.parameters;
    assert StmtDiags(isa, scope, program[0]) == Ok([]);
    assert ProgramDiags(isa, Define(scope, program[0]), program[1..]) == Ok([]);
    assert ProgramDiags(isa, scope, program) == Ok([]);
    DecodedNamesAreBound(isa, instr, bits, operand);
    var params := BindDecoded(isa, instr, bits).value;
    var ctx := Ctx(params, map[]);
    assert ExecStmt(isa, MAX_CALL_DEPTH - 1, ctx, core, program[0]).result ==
           if operand in params then Ok(Flow(ctx, Some(params[operand]))) else Err(UnknownParameter(operand));
    assert ExecuteDecoded(isa, instr, bits, core) == Exec(isa, MAX_CALL_DEPTH - 1, ctx, core, program);
  }
}
