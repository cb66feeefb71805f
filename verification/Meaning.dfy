/** What expressions, calls and statements mean: the value of every operator as integers, flags and bits, what is run
    and what is not, and which parameter or local holds which value (`src/soc/isa/semantics/{expression,runtime}.rs`). */
module Meaning {
  import opened Words
  import opened Results
  import BitFields
  import opened BitFieldLaws
  import opened Semantics
  import opened RegisterFile
  import opened Registers
  import opened Interp
  import HostArith

  // ---- Numbers and flags ----

  /** Integers and flags are numbers, words and tuples are not. */
  predicate IsNumber(v: Value) {
    v.IntValue? || v.BoolValue?
  }

  /** A flag counts as zero or one. */
  function NumberOf(v: Value): int
    requires IsNumber(v)
  {
    if v.BoolValue? then (if v.b then 1 else 0) else v.i
  }

  /** Two integers are the same number on 64 bits. */
  predicate SameWord(a: int, b: int) {
    (a - b) % WORD == 0
  }

  /** Bit j of the 64-bit pattern of a signed number. */
  predicate PatternBit(i: I64, j: nat) {
    Bit(if i < 0 then i + WORD else i, j)
  }

  lemma PatternOf(x: nat, j: nat)
    requires IsU64(x)
    ensures PatternBit(ToI64(x), j) == Bit(x, j)
  {}

  lemma WrapIsSame(x: int)
    ensures SameWord(WrapI64(x), x)
  {
    DivisionOf(x);
  }

  lemma DivisionOf(x: int)
    ensures (x % WORD - x) % WORD == 0 && (x % WORD - WORD - x) % WORD == 0
  {
    var q := x / WORD;
    assert x == q * WORD + x % WORD;
    MultipleOf(-q);
    MultipleOf(-q - 1);
  }

  lemma MultipleOf(q: int)
    ensures (q * WORD) % WORD == 0
  {}

  // ---- Binary operators ----

  /** The operands run one after the other and give these values. */
  predicate Operands(isa: Isa, fuel: nat, ctx: Ctx, core: Core, e: Expr, l: Value, r: Value, after: Core) {
    && e.Binary?
    && var left := Eval(isa, fuel, ctx, core, e.lhs);
       left.result == Ok(l) && Eval(isa, fuel, ctx, left.core, e.rhs) == Run(Ok(r), after)
  }

  lemma Computed(isa: Isa, fuel: nat, ctx: Ctx, core: Core, e: Expr, l: Value, r: Value, after: Core)
    requires Operands(isa, fuel, ctx, core, e, l, r, after) && IsNumber(l) && IsNumber(r)
    requires !e.op.LogicalOr? && !e.op.LogicalAnd?
    ensures Eval(isa, fuel, ctx, core, e) == Run(Apply(e.op, l, r), after)
  {
    assert AfterLeft(e.op, l) == Ok(None);
  }

  lemma SumApplied(op: BinaryOp, l: Value, r: Value, sum: int)
    requires IsNumber(l) && IsNumber(r) && (op.AddOp? || op.SubOp?)
    requires sum == if op.AddOp? then NumberOf(l) + NumberOf(r) else NumberOf(l) - NumberOf(r)
    ensures Apply(op, l, r) == Ok(IntValue(WrapI64(sum)))
  {}

  /** `+` and `-` are the sum and the difference, left minus right, modulo 2^64 in the signed range. */
  lemma SumMeans(isa: Isa, fuel: nat, ctx: Ctx, core: Core, e: Expr, l: Value, r: Value, after: Core)
    requires Operands(isa, fuel, ctx, core, e, l, r, after) && IsNumber(l) && IsNumber(r)
    requires e.op.AddOp? || e.op.SubOp?
    ensures var v := Eval(isa, fuel, ctx, core, e);
      && v.core == after && v.result.Ok? && v.result.value.IntValue?
      && SameWord(v.result.value.i, if e.op.AddOp? then NumberOf(l) + NumberOf(r) else NumberOf(l) - NumberOf(r))
  {
    Computed(isa, fuel, ctx, core, e, l, r, after);
    var sum := if e.op.AddOp? then NumberOf(l) + NumberOf(r) else NumberOf(l) - NumberOf(r);
    SumApplied(e.op, l, r, sum);
    WrapIsSame(sum);
  }

  /** `<` and `>` are the order of the integers, left against right. */
  lemma OrderMeans(isa: Isa, fuel: nat, ctx: Ctx, core: Core, e: Expr, l: Value, r: Value, after: Core)
    requires Operands(isa, fuel, ctx, core, e, l, r, after) && IsNumber(l) && IsNumber(r)
    requires e.op.LtOp? || e.op.GtOp?
    ensures Eval(isa, fuel, ctx, core, e)
      == Run(Ok(BoolValue(if e.op.LtOp? then NumberOf(l) < NumberOf(r) else NumberOf(l) > NumberOf(r))), after)
  {}

  /** `==` and `!=` compare the numbers, flags among them. */
  lemma EqualityMeans(isa: Isa, fuel: nat, ctx: Ctx, core: Core, e: Expr, l: Value, r: Value, after: Core)
    requires Operands(isa, fuel, ctx, core, e, l, r, after) && IsNumber(l) && IsNumber(r)
    requires e.op.EqOp? || e.op.NeOp?
    ensures Eval(isa, fuel, ctx, core, e)
      == Run(Ok(BoolValue(if e.op.EqOp? then NumberOf(l) == NumberOf(r) else NumberOf(l) != NumberOf(r))), after)
  {}

  /** `|`, `^` and `&` work on each bit of the 64-bit patterns. */
  lemma BitwiseMeans(isa: Isa, fuel: nat, ctx: Ctx, core: Core, e: Expr, l: Value, r: Value, after: Core, j: nat)
    requires Operands(isa, fuel, ctx, core, e, l, r, after) && IsNumber(l) && IsNumber(r)
    requires e.op.BitOrOp? || e.op.BitXorOp? || e.op.BitAndOp?
    ensures var v := Eval(isa, fuel, ctx, core, e);
      var x, y := PatternBit(NumberOf(l), j), PatternBit(NumberOf(r), j);
      && v.core == after && v.result.Ok? && v.result.value.IntValue?
      && (e.op.BitOrOp? ==> PatternBit(v.result.value.i, j) == (x || y))
      && (e.op.BitXorOp? ==> PatternBit(v.result.value.i, j) == (x != y))
      && (e.op.BitAndOp? ==> PatternBit(v.result.value.i, j) == (x && y))
  {
    var a, b := AsU64(NumberOf(l)), AsU64(NumberOf(r));
    OrIsU64(a, b);
    XorIsU64(a, b);
    AndIsU64(a, b);
    BitOr(a, b, j);
    BitXor(a, b, j);
    BitAnd(a, b, j);
    PatternOf(Or(a, b), j);
    PatternOf(Xor(a, b), j);
    PatternOf(And(a, b), j);
  }

  /** `||` and `&&` decide on the left operand where they can, and then the right one is not run. */
  lemma DecidedMeans(isa: Isa, fuel: nat, ctx: Ctx, core: Core, e: Expr, l: Value, middle: Core)
    requires e.Binary? && (e.op.LogicalOr? || e.op.LogicalAnd?)
    requires Eval(isa, fuel, ctx, core, e.lhs) == Run(Ok(l), middle) && IsNumber(l)
    requires (NumberOf(l) != 0) == e.op.LogicalOr?
    ensures Eval(isa, fuel, ctx, core, e) == Run(Ok(BoolValue(e.op.LogicalOr?)), middle)
  {}

  /** Otherwise they are the truth of the right operand. */
  lemma UndecidedMeans(isa: Isa, fuel: nat, ctx: Ctx, core: Core, e: Expr, l: Value, r: Value, after: Core)
    requires Operands(isa, fuel, ctx, core, e, l, r, after) && IsNumber(l) && IsNumber(r)
    requires e.op.LogicalOr? || e.op.LogicalAnd?
    requires (NumberOf(l) != 0) == e.op.LogicalAnd?
    ensures Eval(isa, fuel, ctx, core, e) == Run(Ok(BoolValue(NumberOf(r) != 0)), after)
  {}

  /** A left operand that is no number stops arithmetic and logic before the right one is run, with the core it left;
      `==` and `!=` run both first. */
  lemma LeftIsNoNumber(isa: Isa, fuel: nat, ctx: Ctx, core: Core, e: Expr, l: Value, middle: Core)
    requires e.Binary? && Eval(isa, fuel, ctx, core, e.lhs) == Run(Ok(l), middle) && !IsNumber(l)
    ensures !e.op.EqOp? && !e.op.NeOp? ==>
      Eval(isa, fuel, ctx, core, e) == Run(Err(if e.op.LogicalOr? || e.op.LogicalAnd? then NotABoolean else NotAnInteger), middle)
    ensures e.op.EqOp? || e.op.NeOp? ==>
      var r := Eval(isa, fuel, ctx, middle, e.rhs);
      Eval(isa, fuel, ctx, core, e) == Run(Err(if r.result.Ok? then NotAnInteger else r.result.error), r.core)
  {}

  /** A right operand that is no number is an error after both have run, unless the left one decided. */
  lemma RightIsNoNumber(isa: Isa, fuel: nat, ctx: Ctx, core: Core, e: Expr, l: Value, r: Value, after: Core)
    requires Operands(isa, fuel, ctx, core, e, l, r, after) && IsNumber(l) && !IsNumber(r)
    requires e.op.LogicalOr? || e.op.LogicalAnd? ==> (NumberOf(l) != 0) == e.op.LogicalAnd?
    ensures Eval(isa, fuel, ctx, core, e)
      == Run(Err(if e.op.LogicalOr? || e.op.LogicalAnd? then NotABoolean else NotAnInteger), after)
  {}

  /** A failing operand fails the whole, with the core it left; the right one is only reached through the left one. */
  lemma OperandFails(isa: Isa, fuel: nat, ctx: Ctx, core: Core, e: Expr)
    requires e.Binary?
    ensures var left := Eval(isa, fuel, ctx, core, e.lhs);
      && (left.result.Err? ==> Eval(isa, fuel, ctx, core, e) == left)
      && (left.result.Ok? && IsNumber(left.result.value) && !e.op.LogicalOr? && !e.op.LogicalAnd?
          && Eval(isa, fuel, ctx, left.core, e.rhs).result.Err? ==>
            Eval(isa, fuel, ctx, core, e) == Eval(isa, fuel, ctx, left.core, e.rhs))
  {}

  // ---- Slices, leaves, tuples ----

  /** A slice shows bits `start` to `end` of the pattern, counted from the low end, as the low bits of its value. */
  lemma SliceMeans(isa: Isa, fuel: nat, ctx: Ctx, core: Core, e: Expr, v: Value, after: Core, j: nat)
    requires e.Slice? && e.start <= e.end < 64
    requires Eval(isa, fuel, ctx, core, e.inner) == Run(Ok(v), after) && IsNumber(v)
    ensures var s := Eval(isa, fuel, ctx, core, e);
      && s.core == after && s.result.Ok? && s.result.value.IntValue?
      && PatternBit(s.result.value.i, j) == (j <= e.end - e.start && PatternBit(NumberOf(v), e.start + j))
  {
    var width := e.end - e.start + 1;
    var pattern := AsU64(NumberOf(v));
    BitFields.CutBit(pattern, e.start, width, j);
    MaskFits(width);
    AndIsU64(Shr(pattern, e.start), BitFields.MaskForWidth(width));
    PatternOf(And(Shr(pattern, e.start), BitFields.MaskForWidth(width)), j);
  }

  /** The bounds of a slice are checked before anything is run. */
  lemma BadSliceMeans(isa: Isa, fuel: nat, ctx: Ctx, core: Core, e: Expr)
    requires e.Slice? && !(e.start <= e.end < 64)
    ensures Eval(isa, fuel, ctx, core, e) == Run(Err(if e.end < e.start then SliceReversed else SliceTooWideError), core)
  {}

  /** A literal is its number, up to 2^63; a name is the local of that name, or else the parameter. */
  lemma LeafMeans(isa: Isa, fuel: nat, ctx: Ctx, core: Core, value: U64, name: string)
    ensures Eval(isa, fuel, ctx, core, Number(value))
      == Run(if value <= 0x7fff_ffff_ffff_ffff then Ok(IntValue(value)) else Err(LiteralOutOfRange), core)
    ensures name in ctx.locals ==>
      Eval(isa, fuel, ctx, core, Variable(name)) == Eval(isa, fuel, ctx, core, Parameter(name)) == Run(Ok(ctx.locals[name]), core)
    ensures name !in ctx.locals && name in ctx.params ==>
      Eval(isa, fuel, ctx, core, Variable(name)) == Eval(isa, fuel, ctx, core, Parameter(name)) == Run(Ok(ctx.params[name]), core)
    ensures name !in ctx.locals && name !in ctx.params ==>
      && Eval(isa, fuel, ctx, core, Variable(name)) == Run(Err(UnknownVariable(name)), core)
      && Eval(isa, fuel, ctx, core, Parameter(name)) == Run(Err(UnknownParameter(name)), core)
  {}

  /** The expressions run in order, each from the core the one before left, and give the values. */
  predicate RunsTo(isa: Isa, fuel: nat, ctx: Ctx, core: Core, es: seq<Expr>, values: seq<Value>, after: Core)
    decreases |es|
  {
    |values| == |es| &&
    if es == [] then after == core
    else
      var head := Eval(isa, fuel, ctx, core, es[0]);
      head.result == Ok(values[0]) && RunsTo(isa, fuel, ctx, head.core, es[1..], values[1..], after)
  }

  lemma {:induction false} AllMeans(isa: Isa, fuel: nat, ctx: Ctx, core: Core, es: seq<Expr>, values: seq<Value>, after: Core)
    requires RunsTo(isa, fuel, ctx, core, es, values, after)
    ensures EvalAll(isa, fuel, ctx, core, es) == Run(Ok(values), after)
    decreases |es|
  {
    if es != [] {
      AllMeans(isa, fuel, ctx, Eval(isa, fuel, ctx, core, es[0]).core, es[1..], values[1..], after);
      assert [values[0]] + values[1..] == values;
    } else {
      assert values == [];
    }
  }

  /** A tuple holds the values of its members, which run from left to right. */
  lemma TupleMeans(isa: Isa, fuel: nat, ctx: Ctx, core: Core, items: seq<Expr>, values: seq<Value>, after: Core)
    requires RunsTo(isa, fuel, ctx, core, items, values, after)
    ensures Eval(isa, fuel, ctx, core, Tuple(items)) == Run(Ok(TupleValue(values)), after)
  {
    AllMeans(isa, fuel, ctx, core, items, values, after);
  }

  // ---- Parameters and locals ----

  predicate Distinct(names: seq<string>) {
    forall i, j | 0 <= i < j < |names| :: names[i] != names[j]
  }

  lemma DistinctTail(names: seq<string>)
    requires names != [] && Distinct(names)
    ensures Distinct(names[1..]) && names[0] !in names[1..]
  {
    forall i, j | 0 <= i < j < |names[1..]| ensures names[1..][i] != names[1..][j] {
      assert names[1..][i] == names[i + 1] && names[1..][j] == names[j + 1];
    }
    forall k | 0 <= k < |names[1..]| ensures names[1..][k] != names[0] {
      assert names[1..][k] == names[k + 1];
    }
  }

  /** The k-th name holds the k-th value, and the other names what they held. */
  ghost predicate Bound(before: map<string, Value>, names: seq<string>, values: seq<Value>, after: map<string, Value>) {
    && |names| == |values|
    && (forall k | 0 <= k < |names| :: names[k] in after && after[names[k]] == values[k])
    && (forall name | name !in names :: (name in after <==> name in before) && (name in before ==> after[name] == before[name]))
  }

  lemma BoundCons(before: map<string, Value>, names: seq<string>, values: seq<Value>, after: map<string, Value>)
    requires names != [] && |names| == |values| && Distinct(names)
    requires Bound(before[names[0] := values[0]], names[1..], values[1..], after)
    ensures Bound(before, names, values, after)
  {
    DistinctTail(names);
    assert names == [names[0]] + names[1..];
    forall k | 0 <= k < |names| ensures names[k] in after && after[names[k]] == values[k] {
      if k > 0 { assert names[k] == names[1..][k - 1] && values[k] == values[1..][k - 1]; }
    }
  }

  lemma {:induction false} ArgumentsMean(params: map<string, Value>, names: seq<string>, values: seq<Value>)
    requires |names| == |values| && Distinct(names)
    ensures Bound(params, names, values, InsertAll(params, names, values))
    decreases |names|
  {
    if names != [] {
      DistinctTail(names);
      ArgumentsMean(params[names[0] := values[0]], names[1..], values[1..]);
      BoundCons(params, names, values, InsertAll(params, names, values));
    }
  }

  lemma {:induction false} LocalsMean(ctx: Ctx, names: seq<string>, values: seq<Value>)
    requires |names| == |values| && Distinct(names)
    ensures Bound(ctx.locals, names, values, SetLocals(ctx, names, values).locals)
    decreases |names|
  {
    if names != [] {
      DistinctTail(names);
      LocalsMean(SetLocal(ctx, names[0], values[0]), names[1..], values[1..]);
      BoundCons(ctx.locals, names, values, SetLocals(ctx, names, values).locals);
    }
  }

  /** The global parameters are their numbers, when those fit the signed range, and their words. */
  lemma GlobalsMean(isa: Isa)
    ensures BaseParameters(isa).Ok? <==> forall name | name in isa.parameters && isa.parameters[name].NumberParam? ::
      isa.parameters[name].number <= 0x7fff_ffff_ffff_ffff
    ensures BaseParameters(isa).Ok? ==>
      var base := BaseParameters(isa).value;
      base.Keys == isa.parameters.Keys && forall name | name in base ::
        match isa.parameters[name]
        case NumberParam(number) => base[name] == IntValue(number)
        case WordParam(word) => base[name] == WordValue(word)
  {}

  /** A call with the right number of arguments binds the k-th parameter to the k-th argument over the globals. */
  lemma BindMeans(isa: Isa, names: seq<string>, args: seq<Value>)
    requires Distinct(names)
    ensures |names| != |args| ==> BindArguments(isa, names, args) == Err(CallArity(|names|, |args|))
    ensures |names| == |args| && BaseParameters(isa).Ok? ==>
      BindArguments(isa, names, args).Ok? && Bound(BaseParameters(isa).value, names, args, BindArguments(isa, names, args).value)
  {
    if |names| == |args| && BaseParameters(isa).Ok? { ArgumentsMean(BaseParameters(isa).value, names, args); }
  }

  // ---- Calls ----

  /** The macro found under a name is the first that has it. */
  lemma {:induction false} MacroFound(macros: seq<MacroInfo>, name: string)
    ensures var r := FindMacro(macros, name);
      && (r.None? <==> forall m | m in macros :: m.name != name)
      && (r.Some? ==> exists k | 0 <= k < |macros| ::
            macros[k] == r.value && r.value.name == name && forall j | 0 <= j < k :: macros[j].name != name)
  {
    if macros != [] {
      assert macros == [macros[0]] + macros[1..];
      MacroFound(macros[1..], name);
      if macros[0].name != name && FindMacro(macros, name).Some? {
        var r := FindMacro(macros, name).value;
        var k :| 0 <= k < |macros[1..]| && macros[1..][k] == r && r.name == name && forall j | 0 <= j < k :: macros[1..][j].name != name;
        forall j | 0 <= j < k + 1 ensures macros[j].name != name { if j > 0 { assert macros[j] == macros[1..][j - 1]; } }
        assert macros[k + 1] == r;
      }
    }
  }

  lemma {:induction false} NamedAre(instructions: seq<InstructionInfo>, name: string)
    ensures forall i :: i in InstructionsNamed(instructions, name) <==> i in instructions && i.name == name
  {
    if instructions != [] {
      assert instructions == [instructions[0]] + instructions[1..];
      NamedAre(instructions[1..], name);
    }
  }

  /** The instruction found under a name has that name and is the only one. */
  lemma InstructionFound(isa: Isa, name: string)
    ensures FindInstruction(isa, name) == Err(UnknownInstruction(name)) <==> forall i | i in isa.instructions :: i.name != name
    ensures FindInstruction(isa, name).Ok? ==>
      var found := FindInstruction(isa, name).value;
      found in isa.instructions && found.name == name && forall i | i in isa.instructions && i.name == name :: i == found
  {
    NamedAre(isa.instructions, name);
    var named := InstructionsNamed(isa.instructions, name);
    if named == [] {
      forall i | i in isa.instructions ensures i.name != name { assert i in named <==> i.name == name; }
    } else {
      assert named[0] in named;
    }
  }

  /** The operands of an instruction are those it declares, or else those of its form. */
  lemma OperandsMean(isa: Isa, instr: InstructionInfo)
    ensures instr.operands != [] ==> InstructionOperands(isa, instr) == Ok(instr.operands)
    ensures instr.operands == [] && instr.form.None? ==> InstructionOperands(isa, instr) == Ok([])
    ensures instr.operands == [] && instr.form.Some? && instr.space in isa.spaces && instr.form.value in isa.spaces[instr.space].forms ==>
      InstructionOperands(isa, instr) == Ok(isa.spaces[instr.space].forms[instr.form.value].operandOrder)
  {}

  /** The program runs in a frame of its own with the k-th parameter bound to the k-th argument over the globals; the call
      has the value it returns, or the empty tuple when it returns none. */
  ghost predicate RunsProgram(isa: Isa, fuel: nat, core: Core, names: seq<string>, args: seq<Value>, program: Program,
                              params: map<string, Value>, call: Run<Value>)
    requires BaseParameters(isa).Ok?
  {
    var r := Enter(isa, fuel, params, core, program);
    && Bound(BaseParameters(isa).value, names, args, params)
    && call.core == r.core
    && (r.result.Err? ==> call.result == Err(r.result.error))
    && (r.result.Ok? ==> call.result == Ok(if r.result.value.Some? then r.result.value.value else TupleValue([])))
  }

  /** What a macro or instruction call runs: the program of the macro or instruction of that name, on its
      arguments. */
  lemma CallMeans(isa: Isa, fuel: nat, ctx: Ctx, core: Core, call: Expr, args: seq<Value>, after: Core,
                  names: seq<string>, program: Program)
    requires call.Call? && call.subpath == [] && RunsTo(isa, fuel, ctx, core, call.args, args, after)
    requires BaseParameters(isa).Ok? && Distinct(names) && |names| == |args|
    requires call.kind.MacroKind? || call.kind.InstructionKind?
    requires call.kind.MacroKind? ==>
      var m := FindMacro(isa.macros, call.name); m.Some? && m.value.parameters == names && m.value.program == program
    requires call.kind.InstructionKind? ==>
      var i := FindInstruction(isa, call.name);
      i.Ok? && InstructionOperands(isa, i.value) == Ok(names) && i.value.program == Some(program)
    ensures exists params :: RunsProgram(isa, fuel, after, names, args, program, params, Eval(isa, fuel, ctx, core, call))
  {
    AllMeans(isa, fuel, ctx, core, call.args, args, after);
    BindMeans(isa, names, args);
    var params := BindArguments(isa, names, args).value;
    assert Callee(isa, call, args) == Ok(Invocation(params, program));
    assert Eval(isa, fuel, ctx, core, call) == Dispatch(isa, fuel, after, call, args);
    assert RunsProgram(isa, fuel, after, names, args, program, params, Eval(isa, fuel, ctx, core, call));
  }

  /** A macro that returns one of its parameters gives the argument passed for it. */
  lemma PassedArgumentReturns(isa: Isa, fuel: nat, ctx: Ctx, core: Core, call: Expr, args: seq<Value>, after: Core, names: seq<string>, k: nat)
    requires call.Call? && call.kind.MacroKind? && call.subpath == [] && RunsTo(isa, fuel, ctx, core, call.args, args, after)
    requires BaseParameters(isa).Ok? && Distinct(names) && |names| == |args| && k < |names| && fuel > 0
    requires var m := FindMacro(isa.macros, call.name);
      m.Some? && m.value.parameters == names && m.value.program == [Return(Parameter(names[k]))]
    ensures Eval(isa, fuel, ctx, core, call) == Run(Ok(args[k]), after)
  {
    var program := [Return(Parameter(names[k]))];
    CallMeans(isa, fuel, ctx, core, call, args, after, names, program);
    var params :| RunsProgram(isa, fuel, after, names, args, program, params, Eval(isa, fuel, ctx, core, call));
    var inner := Ctx(params, map[]);
    assert ExecStmt(isa, fuel - 1, inner, after, program[0]) == Run(Ok(Flow(inner, Some(args[k]))), after);
    assert Enter(isa, fuel, params, after, program) == Run(Ok(Some(args[k])), after);
  }

  // ---- Statements ----

  /** The program without a returning statement leaves this context and core. */
  predicate Falls(isa: Isa, fuel: nat, ctx: Ctx, core: Core, stmts: Program, last: Ctx, after: Core)
    decreases |stmts|
  {
    if stmts == [] then last == ctx && after == core
    else
      var step := ExecStmt(isa, fuel, ctx, core, stmts[0]);
      step.result.Ok? && step.result.value.returned.None? && Falls(isa, fuel, step.result.value.ctx, step.core, stmts[1..], last, after)
  }

  /** Statements after a part that falls through run from the locals and registers it left. */
  lemma {:induction false} SequenceMeans(isa: Isa, fuel: nat, ctx: Ctx, core: Core, a: Program, b: Program, last: Ctx, after: Core)
    requires Falls(isa, fuel, ctx, core, a, last, after)
    ensures Exec(isa, fuel, ctx, core, a + b) == Exec(isa, fuel, last, after, b)
    decreases |a|
  {
    if a == [] {
      assert a + b == b;
    } else {
      assert (a + b)[0] == a[0] && (a + b)[1..] == a[1..] + b;
      var step := ExecStmt(isa, fuel, ctx, core, a[0]);
      SequenceMeans(isa, fuel, step.result.value.ctx, step.core, a[1..], b, last, after);
    }
  }

  /** A returning statement ends the program with its value; nothing after it runs. */
  lemma ReturnMeans(isa: Isa, fuel: nat, ctx: Ctx, core: Core, e: Expr, rest: Program, v: Value, after: Core)
    requires Eval(isa, fuel, ctx, core, e) == Run(Ok(v), after)
    ensures Exec(isa, fuel, ctx, core, [Return(e)] + rest) == Run(Ok(Some(v)), after)
  {
    assert ([Return(e)] + rest)[0] == Return(e);
  }

  /** An assignment to a variable gives it the value, and an expression statement changes no local. */
  lemma AssignMeans(isa: Isa, fuel: nat, ctx: Ctx, core: Core, name: string, e: Expr, v: Value, after: Core)
    requires Eval(isa, fuel, ctx, core, e) == Run(Ok(v), after)
    ensures ExecStmt(isa, fuel, ctx, core, Assign(VariableTarget(name), e)).core == after
    ensures var step := ExecStmt(isa, fuel, ctx, core, Assign(VariableTarget(name), e)).result;
      && step.Ok? && step.value.returned.None? && step.value.ctx.params == ctx.params
      && Bound(ctx.locals, [name], [v], step.value.ctx.locals)
    ensures ExecStmt(isa, fuel, ctx, core, ExprStmt(e)) == Run(Ok(Flow(ctx, None)), after)
  {}

  /** A tuple assignment gives the k-th name the k-th member; it fails on values that are no tuples of that length. */
  lemma TupleAssignMeans(isa: Isa, fuel: nat, ctx: Ctx, core: Core, names: seq<string>, e: Expr, v: Value, after: Core)
    requires Eval(isa, fuel, ctx, core, e) == Run(Ok(v), after) && Distinct(names)
    ensures var step := ExecStmt(isa, fuel, ctx, core, Assign(TupleTarget(names), e));
      && step.core == after
      && (step.result.Ok? <==> v.TupleValue? && |v.items| == |names|)
      && (step.result.Ok? ==> step.result.value.returned.None? && Bound(ctx.locals, names, v.items, step.result.value.ctx.locals))
      && (step.result.Err? ==> step.result.error == if v.TupleValue? then TupleLengthMismatch else NotATuple)
  {
    if v.TupleValue? && |v.items| == |names| { LocalsMean(ctx, names, v.items); }
  }

  // ---- Host helpers ----

  predicate IsWidth(v: Value) {
    IsNumber(v) && 0 <= NumberOf(v) <= 64
  }

  /** The w low bits of the pattern of a value, as a number. */
  function LowPart(v: Value, w: nat): nat
    requires IsNumber(v)
  {
    Low(AsU64(NumberOf(v)), w)
  }

  function Truth(v: Value): nat
    requires IsNumber(v)
  {
    if NumberOf(v) != 0 then 1 else 0
  }

  /** The pair of a number and a flag that `add` and `sub` return: a number of so many bits and a flag. */
  predicate IsPair(r: Outcome<Value>) {
    r.Ok? && r.value.TupleValue? && |r.value.items| == 2 && r.value.items[0].IntValue? && r.value.items[1].BoolValue?
  }

  lemma UnsignedBack(x: nat)
    requires IsU64(x)
    ensures AsU64(ToI64(x)) == x
  {}

  lemma NumbersRead(v: Value)
    requires IsNumber(v)
    ensures AsInt(v) == Ok(NumberOf(v)) && AsFlag(v) == Ok(NumberOf(v) != 0)
    ensures IsWidth(v) ==> ParseWidth(v) == Ok(NumberOf(v))
  {}

  lemma HostAddCall(l: Value, r: Value, carry: Value, width: Value)
    requires IsNumber(l) && IsNumber(r) && IsNumber(carry) && IsWidth(width)
    ensures var sum := HostArith.Add(AsU64(NumberOf(l)), AsU64(NumberOf(r)), NumberOf(carry) != 0, NumberOf(width));
      IsU64(sum.value) && HostCall("add", [], [l, r, carry, width]) == Ok(TupleValue([IntValue(ToI64(sum.value)), BoolValue(sum.carry)]))
  {
    HostAddFits(NumberOf(l), NumberOf(r), NumberOf(carry) != 0, NumberOf(width));
    NumbersRead(l);
    NumbersRead(r);
    NumbersRead(carry);
    NumbersRead(width);
  }

  lemma HostSubCall(l: Value, r: Value, borrow: Value, width: Value)
    requires IsNumber(l) && IsNumber(r) && IsNumber(borrow) && IsWidth(width)
    ensures var difference := HostArith.Sub(AsU64(NumberOf(l)), AsU64(NumberOf(r)), NumberOf(borrow) != 0, NumberOf(width));
      IsU64(difference.value)
      && HostCall("sub", [], [l, r, borrow, width]) == Ok(TupleValue([IntValue(ToI64(difference.value)), BoolValue(difference.carry)]))
  {
    HostAddFits(NumberOf(l), NumberOf(r), NumberOf(borrow) != 0, NumberOf(width));
    NumbersRead(l);
    NumbersRead(r);
    NumbersRead(borrow);
    NumbersRead(width);
  }

  lemma HostMulCall(l: Value, r: Value, width: Value)
    requires IsNumber(l) && IsNumber(r) && IsWidth(width)
    ensures var product := HostArith.Mul(AsU64(NumberOf(l)), AsU64(NumberOf(r)), NumberOf(width));
      && IsU64(product.low) && IsU64(product.high)
      && HostCall("mul", [], [l, r, width]) == Ok(TupleValue([IntValue(ToI64(product.low)), IntValue(ToI64(product.high))]))
  {
    HostMulFits(NumberOf(l), NumberOf(r), NumberOf(width));
  }

  /** The unsigned number in the first place of a returned pair. */
  function FirstOf(r: Outcome<Value>): nat
    requires r.Ok? && r.value.TupleValue? && |r.value.items| == 2 && r.value.items[0].IntValue?
  {
    AsU64(r.value.items[0].i)
  }

  function SecondOf(r: Outcome<Value>): nat
    requires r.Ok? && r.value.TupleValue? && |r.value.items| == 2 && r.value.items[1].IntValue?
  {
    AsU64(r.value.items[1].i)
  }

  /** What a raised flag in the second place is worth. */
  function FlagWorth(r: Outcome<Value>, w: nat): nat
    requires IsPair(r)
  {
    if r.value.items[1].b then Pow2(w) else 0
  }

  /** `add` returns the sum below 2^w and the carry: together they are the sum of the low parts and the carry in. */
  lemma HostAddMeans(l: Value, r: Value, carry: Value, width: Value)
    requires IsNumber(l) && IsNumber(r) && IsNumber(carry) && IsWidth(width)
    ensures var result, w := HostCall("add", [], [l, r, carry, width]), NumberOf(width);
      IsPair(result) && FirstOf(result) < Pow2(w)
      && FirstOf(result) + FlagWorth(result, w) == LowPart(l, w) + LowPart(r, w) + Truth(carry)
  {
    HostAddCall(l, r, carry, width);
    HostArith.AddExact(AsU64(NumberOf(l)), AsU64(NumberOf(r)), NumberOf(carry) != 0, NumberOf(width));
    UnsignedBack(HostArith.Add(AsU64(NumberOf(l)), AsU64(NumberOf(r)), NumberOf(carry) != 0, NumberOf(width)).value);
  }

  /** `sub` returns the difference, left minus right, below 2^w, and the borrow. */
  lemma HostSubMeans(l: Value, r: Value, borrow: Value, width: Value)
    requires IsNumber(l) && IsNumber(r) && IsNumber(borrow) && IsWidth(width)
    ensures var result, w := HostCall("sub", [], [l, r, borrow, width]), NumberOf(width);
      IsPair(result) && FirstOf(result) < Pow2(w)
      && FirstOf(result) == LowPart(l, w) - LowPart(r, w) - Truth(borrow) + FlagWorth(result, w)
  {
    HostSubCall(l, r, borrow, width);
    HostArith.SubExact(AsU64(NumberOf(l)), AsU64(NumberOf(r)), NumberOf(borrow) != 0, NumberOf(width));
    UnsignedBack(HostArith.Sub(AsU64(NumberOf(l)), AsU64(NumberOf(r)), NumberOf(borrow) != 0, NumberOf(width)).value);
  }

  predicate IsNumberPair(r: Outcome<Value>) {
    r.Ok? && r.value.TupleValue? && |r.value.items| == 2 && r.value.items[0].IntValue? && r.value.items[1].IntValue?
  }

  /** `mul` returns the low half first and the high half second: together they are the product of the patterns exactly
      when it is below 2^(64 + w). */
  lemma HostMulMeans(l: Value, r: Value, width: Value, product: nat)
    requires IsNumber(l) && IsNumber(r) && IsWidth(width)
    requires product == AsU64(NumberOf(l)) * AsU64(NumberOf(r))
    ensures var result, w := HostCall("mul", [], [l, r, width]), NumberOf(width);
      && IsNumberPair(result) && FirstOf(result) < Pow2(w)
      && (FirstOf(result) + SecondOf(result) * Pow2(w) == product <==> product < WORD * Pow2(w))
  {
    HostMulCall(l, r, width);
    HostArith.MulExactIff(AsU64(NumberOf(l)), AsU64(NumberOf(r)), product, NumberOf(width));
    var halves := HostArith.Mul(AsU64(NumberOf(l)), AsU64(NumberOf(r)), NumberOf(width));
    UnsignedBack(halves.low);
    UnsignedBack(halves.high);
  }

  /** There are no other helpers, they take four, four and three arguments, and widths beyond 64 are refused. */
  lemma HostRefuses(name: string, args: seq<Value>)
    ensures name !in {"add", "sub", "mul"} ==> HostCall(name, [], args) == Err(UnknownHostHelper(name))
    ensures name in {"add", "sub"} && |args| != 4 ==> HostCall(name, [], args) == Err(CallArity(4, |args|))
    ensures name == "mul" && |args| != 3 ==> HostCall(name, [], args) == Err(CallArity(3, |args|))
    ensures name in {"add", "sub"} && |args| == 4 && (forall a | a in args :: IsNumber(a)) && !IsWidth(args[3]) ==>
      HostCall(name, [], args) == Err(WidthOutOfRange)
    ensures name == "mul" && |args| == 3 && (forall a | a in args :: IsNumber(a)) && !IsWidth(args[2]) ==>
      HostCall(name, [], args) == Err(WidthOutOfRange)
  {
    forall k | 0 <= k < |args| ensures args[k] in args {}
  }

  /** A host call runs its arguments and leaves the core as they left it. */
  lemma HostCallMeans(isa: Isa, fuel: nat, ctx: Ctx, core: Core, call: Expr, args: seq<Value>, after: Core)
    requires call.Call? && call.kind.HostKind? && RunsTo(isa, fuel, ctx, core, call.args, args, after)
    ensures Eval(isa, fuel, ctx, core, call) == Run(HostCall(call.name, call.subpath, args), after)
  {
    AllMeans(isa, fuel, ctx, core, call.args, args, after);
  }
}
