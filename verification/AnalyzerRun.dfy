/** The analyzer as it runs: a scope that grows and a list of diagnostics that is appended to, proved to
    report what `Analyzer` says (`src/soc/isa/semantics/analyzer.rs`). */
module AnalyzerRun {
  import opened Results
  import opened Seqs
  import opened Semantics
  import opened Analyzer

  class AnalyzerScope {
    const parameters: set<string>
    var locals: set<string>

    constructor (parameters: set<string>)
      ensures Contents() == Scope(parameters, {})
    {
      this.parameters := parameters;
      locals := {};
    }

    function Contents(): Scope
      reads this
    {
      Scope(parameters, locals)
    }

    method Define(name: string)
      modifies this
      ensures Contents() == Scope(parameters, old(locals) + {name})
    {
      locals := locals + {name};
    }
  }

  class DiagnosticList {
    var items: seq<Diag>

    constructor ()
      ensures items == []
    {
      items := [];
    }

    method Push(d: Diag)
      modifies this
      ensures items == old(items) + [d]
    {
      items := items + [d];
    }
  }

  /** The list has grown by the diagnostics, or the check was abandoned with the same error. */
  ghost predicate Reports(r: Outcome<()>, before: seq<Diag>, after: seq<Diag>, expected: Outcome<seq<Diag>>) {
    match expected
    case Ok(diags) => r == Ok(()) && after == before + diags
    case Err(error) => r == Err(error)
  }

  method ValidateExpr(isa: Isa, scope: AnalyzerScope, diags: DiagnosticList, e: Expr) returns (r: Outcome<()>)
    modifies diags
    ensures Reports(r, old(diags.items), diags.items, ExprDiags(isa, old(scope.Contents()), e))
    decreases e, 1
  {
    ghost var before := diags.items;
    r := Ok(());
    match e
    case Number(_) => assert before + [] == before;
    case Variable(name) =>
      if name !in scope.locals { diags.Push(UndefinedVariable(name)); }
    case Parameter(name) =>
      if name !in scope.parameters { diags.Push(UndefinedParameter(name)); }
    case Call(_, _, _, _, args) =>
      r := ValidateAll(isa, scope, diags, args);
      if r.Err? { return; }
      r := ValidateContextCall(isa, diags, e);
      ReportsJoined(before, AllDiags(isa, scope.Contents(), args), CallDiags(isa, e));
    case Tuple(items) =>
      r := ValidateAll(isa, scope, diags, items);
    case Binary(_, lhs, rhs) =>
      r := ValidateExpr(isa, scope, diags, lhs);
      if r.Err? { return; }
      r := ValidateExpr(isa, scope, diags, rhs);
      ReportsJoined(before, ExprDiags(isa, scope.Contents(), lhs), ExprDiags(isa, scope.Contents(), rhs));
    case Slice(inner, _, _) =>
      r := ValidateExpr(isa, scope, diags, inner);
  }

  lemma ReportsJoined(before: seq<Diag>, first: Outcome<seq<Diag>>, second: Outcome<seq<Diag>>)
    ensures first.Ok? && second.Ok? ==> before + Join(first.value, second.value) == before + first.value + second.value
    ensures before + [] == before
  {
    if first.Ok? && second.Ok? { AppendAssoc(before, first.value, second.value); }
  }

  /** What is still to be reported after part of the list was visited. */
  ghost function Pending(reported: seq<Diag>, rest: Outcome<seq<Diag>>): Outcome<seq<Diag>> {
    if rest.Ok? then Ok(reported + rest.value) else rest
  }

  lemma PendingStep(reported: seq<Diag>, head: seq<Diag>, rest: Outcome<seq<Diag>>)
    ensures Pending(reported, if rest.Ok? then Ok(Join(head, rest.value)) else rest) == Pending(reported + head, rest)
  {
    if rest.Ok? { AppendAssoc(reported, head, rest.value); }
  }

  method ValidateAll(isa: Isa, scope: AnalyzerScope, diags: DiagnosticList, es: seq<Expr>) returns (r: Outcome<()>)
    modifies diags
    ensures Reports(r, old(diags.items), diags.items, AllDiags(isa, old(scope.Contents()), es))
    decreases es, 0
  {
    ghost var before, known := diags.items, scope.Contents();
    ghost var total := Pending(before, AllDiags(isa, known, es));
    DropWhole(es);
    var i := 0;
    while i < |es|
      invariant 0 <= i <= |es|
      invariant scope.Contents() == known
      invariant Pending(diags.items, AllDiags(isa, known, es[i..])) == total
    {
      DropDrop(es, i, 1);
      ghost var reported := diags.items;
      r := ValidateExpr(isa, scope, diags, es[i]);
      if r.Err? { return; }
      PendingStep(reported, ExprDiags(isa, known, es[i]).value, AllDiags(isa, known, es[i + 1..]));
      i := i + 1;
    }
    assert diags.items + [] == diags.items;
    r := Ok(());
  }

  method ValidateRegister(isa: Isa, diags: DiagnosticList, space: string, name: string, subfield: Option<string>)
    modifies diags
    ensures diags.items == old(diags.items) + RegisterDiags(isa, space, name, subfield)
  {
    if space !in isa.spaces {
      diags.Push(UnknownRegisterSpace(space));
      return;
    }
    if !isa.spaces[space].isRegister {
      diags.Push(InvalidRegisterSpace(space));
      return;
    }
    var register := DeclaredRegister(isa, space, name);
    if register.None? {
      diags.Push(UndefinedRegister(space, name));
      return;
    }
    if subfield.Some? && subfield.value !in register.value.subfields {
      diags.Push(UndefinedSubfield(name, subfield.value));
    }
  }

  method PushArity(diags: DiagnosticList, name: string, expected: nat, actual: nat)
    modifies diags
    ensures diags.items == old(diags.items) + ArityDiags(name, expected, actual)
  {
    if expected != actual { diags.Push(WrongArity(name, expected, actual)); }
  }

  method ValidateContextCall(isa: Isa, diags: DiagnosticList, call: Expr) returns (r: Outcome<()>)
    requires call.Call?
    modifies diags
    ensures Reports(r, old(diags.items), diags.items, CallDiags(isa, call))
  {
    r := Ok(());
    match call.kind
    case RegisterKind =>
      ValidateRegister(isa, diags, call.space, call.name, if call.subpath == [] then None else Some(call.subpath[0]));
    case MacroKind =>
      var mac := FindMacro(isa.macros, call.name);
      if mac.None? {
        diags.Push(UndefinedMacro(call.name));
      } else {
        PushArity(diags, call.name, |mac.value.parameters|, |call.args|);
      }
    case InstructionKind =>
      var named := InstructionsNamed(isa.instructions, call.name);
      if named == [] {
        diags.Push(UndefinedInstruction(call.name));
      } else if |named| > 1 {
        diags.Push(AmbiguousCall(call.name));
      } else {
        var operands := InstructionOperands(isa, named[0]);
        if operands.Err? { return Err(operands.error); }
        PushArity(diags, call.name, |operands.value|, |call.args|);
      }
    case HostKind =>
      var arity := HostArity(call.name);
      if arity.None? {
        diags.Push(UnsupportedHost(call.name));
      } else {
        PushArity(diags, call.name, arity.value, |call.args|);
      }
  }

  method BindTarget(isa: Isa, scope: AnalyzerScope, diags: DiagnosticList, stmt: Stmt)
    requires stmt.Assign?
    modifies scope, diags
    ensures scope.Contents() == Analyzer.Define(old(scope.Contents()), stmt)
    ensures diags.items == old(diags.items) + TargetDiags(isa, stmt.target)
  {
    match stmt.target
    case VariableTarget(name) =>
      scope.Define(name);
    case TupleTarget(names) =>
      var i := 0;
      while i < |names|
        invariant 0 <= i <= |names|
        invariant scope.Contents() == Scope(scope.parameters, old(scope.locals) + Names(names[..i]))
        invariant diags.items == old(diags.items)
      {
        assert names[..i + 1] == names[..i] + [names[i]];
        scope.Define(names[i]);
        i := i + 1;
      }
      assert names[..i] == names;
    case RegisterTarget(reference) =>
      ValidateRegister(isa, diags, reference.space, reference.name, reference.subfield);
  }

  method ValidateStatement(isa: Isa, scope: AnalyzerScope, diags: DiagnosticList, stmt: Stmt) returns (r: Outcome<()>)
    modifies scope, diags
    ensures r.Ok? ==> scope.Contents() == Analyzer.Define(old(scope.Contents()), stmt)
    ensures Reports(r, old(diags.items), diags.items, StmtDiags(isa, old(scope.Contents()), stmt))
  {
    ghost var before, inner := diags.items, ExprDiags(isa, scope.Contents(), stmt.expr);
    r := ValidateExpr(isa, scope, diags, stmt.expr);
    if r.Err? { return; }
    if stmt.Assign? {
      BindTarget(isa, scope, diags, stmt);
    }
    ReportsJoined(before, inner, Ok(if stmt.Assign? then TargetDiags(isa, stmt.target) else []));
    ReportsJoined(diags.items, inner, inner);
  }

  /** `validate_program` */
  method ValidateProgram(isa: Isa, parameters: set<string>, program: Program) returns (r: Result<(), Rejection>)
    ensures r == Validate(isa, parameters, program)
  {
    var scope := new AnalyzerScope(parameters);
    var diags := new DiagnosticList();
    ghost var total := ProgramDiags(isa, scope.Contents(), program);
    DropWhole(program);
    assert Pending([], total) == total by { if total.Ok? { assert [] + total.value == total.value; } }
    var i := 0;
    while i < |program|
      invariant 0 <= i <= |program|
      invariant Pending(diags.items, ProgramDiags(isa, scope.Contents(), program[i..])) == total
    {
      DropDrop(program, i, 1);
      ghost var reported, known := diags.items, scope.Contents();
      var checked := ValidateStatement(isa, scope, diags, program[i]);
      if checked.Err? { return Err(Machine(checked.error)); }
      PendingStep(reported, StmtDiags(isa, known, program[i]).value, ProgramDiags(isa, scope.Contents(), program[i + 1..]));
      i := i + 1;
    }
    assert diags.items + [] == diags.items;
    if diags.items != [] { return Err(Diagnostics(diags.items)); }
    r := Ok(());
  }

  /** `compile_semantics`: macros first, then the instructions that have semantics. */
  method Compile(isa: Isa) returns (r: Result<(), Rejection>)
    ensures r == CompileSemantics(isa)
  {
    DropWhole(isa.macros);
    DropWhole(isa.instructions);
    var i := 0;
    while i < |isa.macros|
      invariant 0 <= i <= |isa.macros|
      invariant CompileMacros(isa, isa.macros[i..]) == CompileMacros(isa, isa.macros)
    {
      DropDrop(isa.macros, i, 1);
      r := ValidateProgram(isa, MacroParameters(isa, isa.macros[i]), isa.macros[i].program);
      if r.Err? { return; }
      i := i + 1;
    }
    var j := 0;
    while j < |isa.instructions|
      invariant 0 <= j <= |isa.instructions|
      invariant CompileMacros(isa, isa.macros) == Ok(())
      invariant CompileInstructions(isa, isa.instructions[j..]) == CompileInstructions(isa, isa.instructions)
    {
      DropDrop(isa.instructions, j, 1);
      var instr := isa.instructions[j];
      if instr.program.Some? {
        var operands := InstructionOperands(isa, instr);
        if operands.Err? { return Err(Machine(operands.error)); }
        r := ValidateProgram(isa, isa.parameters.Keys + Names(operands.value), instr.program.value);
        if r.Err? { return; }
      }
      j := j + 1;
    }
    r := Ok(());
  }
}
