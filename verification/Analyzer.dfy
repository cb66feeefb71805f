/** The static check of macros and instructions (`src/soc/isa/semantics/analyzer.rs`) and what it
    amounts to. */
module Analyzer {
  import opened Results
  import opened Semantics
  import opened RegisterFile
  import opened Registers

  /** The parameters a program may name and the locals defined so far. */
  datatype Scope = Scope(parameters: set<string>, locals: set<string>)

  datatype Diag =
    | UndefinedVariable(name: string)
    | UndefinedParameter(name: string)
    | UndefinedMacro(name: string)
    | UndefinedInstruction(name: string)
    | AmbiguousCall(name: string)
    | UnsupportedHost(name: string)
    | WrongArity(name: string, expected: nat, actual: nat)
    | UnknownRegisterSpace(space: string)
    | InvalidRegisterSpace(space: string)
    | UndefinedRegister(space: string, name: string)
    | UndefinedSubfield(name: string, subfield: string)

  /** Diagnostics in the order they are reported. */
  function Join(a: seq<Diag>, b: seq<Diag>): (r: seq<Diag>)
    ensures r == [] <==> a == [] && b == []
  {
    assert |a + b| == |a| + |b|;
    a + b
  }

  function ArityDiags(name: string, expected: nat, actual: nat): seq<Diag> {
    if expected == actual then [] else [WrongArity(name, expected, actual)]
  }

  /** `validate_register_components` */
  function RegisterDiags(isa: Isa, space: string, name: string, subfield: Option<string>): seq<Diag> {
    if space !in isa.spaces then [UnknownRegisterSpace(space)]
    else if !isa.spaces[space].isRegister then [InvalidRegisterSpace(space)]
    else
      var register := DeclaredRegister(isa, space, name);
      if register.None? then [UndefinedRegister(space, name)]
      else if subfield.Some? && subfield.value !in register.value.subfields then [UndefinedSubfield(name, subfield.value)]
      else []
  }

  /** The declaration of that name, or the one with an element of that label. */
  function DeclaredRegister(isa: Isa, space: string, name: string): Option<RegisterDecl>
    requires space in isa.spaces
  {
    var registers := isa.spaces[space].registers;
    if name in registers then Some(registers[name])
    else
      var labelled := FindByLabel(isa.schema, space, name);
      if labelled.Some? && labelled.value.0.name in registers then Some(registers[labelled.value.0.name]) else None
  }

  /** `validate_context_call` */
  function CallDiags(isa: Isa, call: Expr): Outcome<seq<Diag>>
    requires call.Call?
  {
    match call.kind
    case RegisterKind => Ok(RegisterDiags(isa, call.space, call.name, if call.subpath == [] then None else Some(call.subpath[0])))
    case MacroKind =>
      (var mac := FindMacro(isa.macros, call.name);
       Ok(if mac.None? then [UndefinedMacro(call.name)]
          else ArityDiags(call.name, |mac.value.parameters|, |call.args|)))
    case InstructionKind =>
      (var named := InstructionsNamed(isa.instructions, call.name);
       if named == [] then Ok([UndefinedInstruction(call.name)])
       else if |named| > 1 then Ok([AmbiguousCall(call.name)])
       else
         var operands :- InstructionOperands(isa, named[0]);
         Ok(ArityDiags(call.name, |operands|, |call.args|)))
    case HostKind =>
      Ok(if HostArity(call.name).None? then [UnsupportedHost(call.name)]
         else ArityDiags(call.name, HostArity(call.name).value, |call.args|))
  }

  /** `validate_expr` */
  function ExprDiags(isa: Isa, scope: Scope, e: Expr): Outcome<seq<Diag>> {
    match e
    case Number(_) => Ok([])
    case Variable(name) => Ok(if name in scope.locals then [] else [UndefinedVariable(name)])
    case Parameter(name) => Ok(if name in scope.parameters then [] else [UndefinedParameter(name)])
    case Call(_, _, _, _, args) =>
      (var inner :- AllDiags(isa, scope, args);
       var own :- CallDiags(isa, e);
       Ok(Join(inner, own)))
    case Tuple(items) => AllDiags(isa, scope, items)
    case Binary(_, lhs, rhs) =>
      (var left :- ExprDiags(isa, scope, lhs);
       var right :- ExprDiags(isa, scope, rhs);
       Ok(Join(left, right)))
    case Slice(inner, _, _) => ExprDiags(isa, scope, inner)
  }

  function AllDiags(isa: Isa, scope: Scope, es: seq<Expr>): Outcome<seq<Diag>> {
    if es == [] then Ok([])
    else
      var head :- ExprDiags(isa, scope, es[0]);
      var tail :- AllDiags(isa, scope, es[1..]);
      Ok(Join(head, tail))
  }

  /** `bind_target`: variables are defined, registers are looked up, an index is not visited. */
  function TargetDiags(isa: Isa, target: Target): seq<Diag> {
    if target.RegisterTarget? then
      RegisterDiags(isa, target.reference.space, target.reference.name, target.reference.subfield)
    else []
  }

  function Defined(stmt: Stmt): set<string> {
    if !stmt.Assign? then {}
    else
      match stmt.target
      case VariableTarget(name) => {name}
      case TupleTarget(names) => Names(names)
      case RegisterTarget(_) => {}
  }

  function Define(scope: Scope, stmt: Stmt): Scope {
    scope.(locals := scope.locals + Defined(stmt))
  }

  function StmtDiags(isa: Isa, scope: Scope, stmt: Stmt): Outcome<seq<Diag>> {
    var inner :- ExprDiags(isa, scope, stmt.expr);
    Ok(Join(inner, if stmt.Assign? then TargetDiags(isa, stmt.target) else []))
  }

  function ProgramDiags(isa: Isa, scope: Scope, stmts: Program): Outcome<seq<Diag>>
    decreases |stmts|
  {
    if stmts == [] then Ok([])
    else
      var head :- StmtDiags(isa, scope, stmts[0]);
      var tail :- ProgramDiags(isa, Define(scope, stmts[0]), stmts[1..]);
      Ok(Join(head, tail))
  }

  // ---- Acceptance ----

  datatype Rejection = Machine(error: SemError) | Diagnostics(diags: seq<Diag>)

  /** `validate_program` */
  function Validate(isa: Isa, parameters: set<string>, program: Program): Result<(), Rejection> {
    var diags := ProgramDiags(isa, Scope(parameters, {}), program);
    if diags.Err? then Err(Machine(diags.error))
    else if diags.value != [] then Err(Diagnostics(diags.value))
    else Ok(())
  }

  function MacroParameters(isa: Isa, mac: MacroInfo): set<string> {
    isa.parameters.Keys + Names(mac.parameters)
  }

  /** `analyze_instruction` */
  function AnalyzeInstruction(isa: Isa, instr: InstructionInfo, program: Program): Result<(), Rejection> {
    var operands := InstructionOperands(isa, instr);
    if operands.Err? then Err(Machine(operands.error))
    else Validate(isa, isa.parameters.Keys + Names(operands.value), program)
  }

  function CompileMacros(isa: Isa, macros: seq<MacroInfo>): Result<(), Rejection> {
    if macros == [] then Ok(())
    else
      var _ :- Validate(isa, MacroParameters(isa, macros[0]), macros[0].program);
      CompileMacros(isa, macros[1..])
  }

  function CompileInstructions(isa: Isa, instructions: seq<InstructionInfo>): Result<(), Rejection> {
    if instructions == [] then Ok(())
    else if instructions[0].program.None? then CompileInstructions(isa, instructions[1..])
    else
      var _ :- AnalyzeInstruction(isa, instructions[0], instructions[0].program.value);
      CompileInstructions(isa, instructions[1..])
  }

  /** `compile_semantics` */
  function CompileSemantics(isa: Isa): Result<(), Rejection> {
    var _ :- CompileMacros(isa, isa.macros);
    CompileInstructions(isa, isa.instructions)
  }

  // ---- What acceptance means ----

  /** The call names one thing that exists, with as many arguments as it takes. */
  predicate ScopedCall(isa: Isa, call: Expr)
    requires call.Call?
  {
    match call.kind
    case RegisterKind => RegisterKnown(isa, call.space, call.name, if call.subpath == [] then None else Some(call.subpath[0]))
    case MacroKind =>
      (var mac := FindMacro(isa.macros, call.name);
       mac.Some? && |mac.value.parameters| == |call.args|)
    case InstructionKind =>
      (var instr := FindInstruction(isa, call.name);
       instr.Ok? && InstructionOperands(isa, instr.value).Ok? &&
       |InstructionOperands(isa, instr.value).value| == |call.args|)
    case HostKind => HostArity(call.name) == Some(|call.args|)
  }

  predicate RegisterKnown(isa: Isa, space: string, name: string, subfield: Option<string>) {
    && space in isa.spaces && isa.spaces[space].isRegister
    && DeclaredRegister(isa, space, name).Some?
    && (subfield.Some? ==> subfield.value in DeclaredRegister(isa, space, name).value.subfields)
  }

  /** Every name in the expression is in scope and every call in it is proper. */
  predicate ScopedExpr(isa: Isa, scope: Scope, e: Expr) {
    match e
    case Number(_) => true
    case Variable(name) => name in scope.locals
    case Parameter(name) => name in scope.parameters
    case Call(_, _, _, _, args) => ScopedAll(isa, scope, args) && ScopedCall(isa, e)
    case Tuple(items) => ScopedAll(isa, scope, items)
    case Binary(_, lhs, rhs) => ScopedExpr(isa, scope, lhs) && ScopedExpr(isa, scope, rhs)
    case Slice(inner, _, _) => ScopedExpr(isa, scope, inner)
  }

  predicate ScopedAll(isa: Isa, scope: Scope, es: seq<Expr>) {
    es == [] || (ScopedExpr(isa, scope, es[0]) && ScopedAll(isa, scope, es[1..]))
  }

  predicate ScopedStmt(isa: Isa, scope: Scope, stmt: Stmt) {
    && ScopedExpr(isa, scope, stmt.expr)
    && (stmt.Assign? && stmt.target.RegisterTarget? ==>
          var reference := stmt.target.reference;
          RegisterKnown(isa, reference.space, reference.name, reference.subfield))
  }

  /** The names that the first n statements assign. */
  function AssignedBefore(stmts: Program, n: nat): set<string>
    requires n <= |stmts|
  {
    set k, name | 0 <= k < n && name in Defined(stmts[k]) :: name
  }

  /** Every statement is proper in the scope of the parameters and of what is assigned before it. */
  ghost predicate ScopedProgram(isa: Isa, scope: Scope, stmts: Program) {
    forall k | 0 <= k < |stmts| ::
      ScopedStmt(isa, scope.(locals := scope.locals + AssignedBefore(stmts, k)), stmts[k])
  }

  lemma {:induction false} NoExprDiagsIff(isa: Isa, scope: Scope, e: Expr)
    ensures ExprDiags(isa, scope, e) == Ok([]) <==> ScopedExpr(isa, scope, e)
    decreases e, 1
  {
    match e
    case Call(_, _, _, _, args) =>
      NoAllDiagsIff(isa, scope, args);
      NoCallDiagsIff(isa, e);
    case Tuple(items) => NoAllDiagsIff(isa, scope, items);
    case Binary(_, lhs, rhs) =>
      NoExprDiagsIff(isa, scope, lhs);
      NoExprDiagsIff(isa, scope, rhs);
    case Slice(inner, _, _) => NoExprDiagsIff(isa, scope, inner);
    case _ =>
  }

  lemma {:induction false} NoAllDiagsIff(isa: Isa, scope: Scope, es: seq<Expr>)
    ensures AllDiags(isa, scope, es) == Ok([]) <==> ScopedAll(isa, scope, es)
    decreases es, 0
  {
    if es != [] {
      NoExprDiagsIff(isa, scope, es[0]);
      NoAllDiagsIff(isa, scope, es[1..]);
    }
  }

  lemma NoCallDiagsIff(isa: Isa, call: Expr)
    requires call.Call?
    ensures CallDiags(isa, call) == Ok([]) <==> ScopedCall(isa, call)
  {}

  lemma NoStmtDiagsIff(isa: Isa, scope: Scope, stmt: Stmt)
    ensures StmtDiags(isa, scope, stmt) == Ok([]) <==> ScopedStmt(isa, scope, stmt)
  {
    NoExprDiagsIff(isa, scope, stmt.expr);
  }

  lemma AssignedTail(stmts: Program, n: nat)
    requires 0 < n <= |stmts|
    ensures AssignedBefore(stmts, n) == Defined(stmts[0]) + AssignedBefore(stmts[1..], n - 1)
  {
    var rest := stmts[1..];
    forall name | name in AssignedBefore(stmts, n)
      ensures name in Defined(stmts[0]) + AssignedBefore(rest, n - 1)
    {
      var k :| 0 <= k < n && name in Defined(stmts[k]);
      if k > 0 { assert stmts[k] == rest[k - 1]; }
    }
    forall name | name in AssignedBefore(rest, n - 1)
      ensures name in AssignedBefore(stmts, n)
    {
      var k :| 0 <= k < n - 1 && name in Defined(rest[k]);
      assert rest[k] == stmts[k + 1];
    }
  }

  /** The analyzer reports nothing exactly when every statement is proper where it stands. */
  lemma {:induction false} NoProgramDiagsIff(isa: Isa, scope: Scope, stmts: Program)
    ensures ProgramDiags(isa, scope, stmts) == Ok([]) <==> ScopedProgram(isa, scope, stmts)
    decreases |stmts|
  {
    if stmts != [] {
      NoStmtDiagsIff(isa, scope, stmts[0]);
      NoProgramDiagsIff(isa, Define(scope, stmts[0]), stmts[1..]);
      ScopedProgramCons(isa, scope, stmts);
    }
  }

  lemma ScopedProgramCons(isa: Isa, scope: Scope, stmts: Program)
    requires stmts != []
    ensures ScopedProgram(isa, scope, stmts) <==>
            ScopedStmt(isa, scope, stmts[0]) && ScopedProgram(isa, Define(scope, stmts[0]), stmts[1..])
  {
    assert scope.(locals := scope.locals + AssignedBefore(stmts, 0)) == scope;
    var rest, next := stmts[1..], Define(scope, stmts[0]);
    forall k | 0 < k < |stmts|
      ensures ScopedStmt(isa, scope.(locals := scope.locals + AssignedBefore(stmts, k)), stmts[k]) <==>
              ScopedStmt(isa, next.(locals := next.locals + AssignedBefore(rest, k - 1)), rest[k - 1])
    {
      AssignedTail(stmts, k);
      assert scope.locals + AssignedBefore(stmts, k) == next.locals + AssignedBefore(rest, k - 1);
    }
    if ScopedProgram(isa, scope, stmts) {
      assert ScopedStmt(isa, scope.(locals := scope.locals + AssignedBefore(stmts, 0)), stmts[0]);
      forall j | 0 <= j < |rest|
        ensures ScopedStmt(isa, next.(locals := next.locals + AssignedBefore(rest, j)), rest[j])
      {
        assert ScopedStmt(isa, scope.(locals := scope.locals + AssignedBefore(stmts, j + 1)), stmts[j + 1]);
      }
    }
    if ScopedStmt(isa, scope, stmts[0]) && ScopedProgram(isa, next, rest) {
      forall k | 0 <= k < |stmts|
        ensures ScopedStmt(isa, scope.(locals := scope.locals + AssignedBefore(stmts, k)), stmts[k])
      {
        if k > 0 { assert ScopedStmt(isa, next.(locals := next.locals + AssignedBefore(rest, k - 1)), rest[k - 1]); }
      }
    }
  }

  /** Every program of the machine is proper in the scope of the global parameters and its own. */
  ghost predicate ScopedMachine(isa: Isa) {
    && (forall mac | mac in isa.macros :: ScopedProgram(isa, Scope(MacroParameters(isa, mac), {}), mac.program))
    && (forall instr | instr in isa.instructions :: instr.program.Some? ==> ScopedInstruction(isa, instr))
  }

  ghost predicate ScopedInstruction(isa: Isa, instr: InstructionInfo)
    requires instr.program.Some?
  {
    && InstructionOperands(isa, instr).Ok?
    && ScopedProgram(isa, Scope(isa.parameters.Keys + Names(InstructionOperands(isa, instr).value), {}), instr.program.value)
  }

  lemma {:induction false} CompileMacrosIff(isa: Isa, macros: seq<MacroInfo>)
    ensures CompileMacros(isa, macros).Ok? <==>
            forall mac | mac in macros :: ScopedProgram(isa, Scope(MacroParameters(isa, mac), {}), mac.program)
  {
    if macros != [] {
      NoProgramDiagsIff(isa, Scope(MacroParameters(isa, macros[0]), {}), macros[0].program);
      CompileMacrosIff(isa, macros[1..]);
      assert macros == [macros[0]] + macros[1..];
    }
  }

  lemma {:induction false} CompileInstructionsIff(isa: Isa, instructions: seq<InstructionInfo>)
    ensures CompileInstructions(isa, instructions).Ok? <==>
            forall instr | instr in instructions :: instr.program.Some? ==> ScopedInstruction(isa, instr)
  {
    if instructions != [] {
      var first := instructions[0];
      if first.program.Some? && InstructionOperands(isa, first).Ok? {
        NoProgramDiagsIff(isa, Scope(isa.parameters.Keys + Names(InstructionOperands(isa, first).value), {}), first.program.value);
      }
      CompileInstructionsIff(isa, instructions[1..]);
      assert instructions == [first] + instructions[1..];
    }
  }

  /** A machine is built exactly when all its programs are proper. */
  lemma CompileSemanticsIff(isa: Isa)
    ensures CompileSemantics(isa).Ok? <==> ScopedMachine(isa)
  {
    CompileMacrosIff(isa, isa.macros);
    CompileInstructionsIff(isa, isa.instructions);
  }
}
