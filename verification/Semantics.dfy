/** Programs, values and machine tables of the semantics interpreter
    (`src/soc/isa/semantics/{program,value,context,bindings}.rs`). */
module Semantics {
  import opened Words
  import opened Results
  import opened BitFields
  import opened BitFieldLaws
  import HostArith
  import Machine

  // ---- Programs ----

  datatype Kind = RegisterKind | MacroKind | InstructionKind | HostKind

  datatype BinaryOp =
    | LogicalOr | LogicalAnd | BitOrOp | BitXorOp | BitAndOp | EqOp | NeOp | LtOp | GtOp | AddOp | SubOp

  datatype Expr =
    | Number(value: U64)
    | Variable(name: string)
    | Parameter(name: string)
    | Call(kind: Kind, space: string, name: string, subpath: seq<string>, args: seq<Expr>)
    | Tuple(items: seq<Expr>)
    | Binary(op: BinaryOp, lhs: Expr, rhs: Expr)
    | Slice(inner: Expr, start: nat, end: nat)

  datatype RegisterRef = RegisterRef(space: string, name: string, subfield: Option<string>, index: Option<Expr>)

  datatype Target =
    | VariableTarget(name: string)
    | TupleTarget(names: seq<string>)
    | RegisterTarget(reference: RegisterRef)

  datatype Stmt =
    | Assign(target: Target, expr: Expr)
    | ExprStmt(expr: Expr)
    | Return(expr: Expr)

  type Program = seq<Stmt>

  // ---- Values ----

  datatype Value = IntValue(i: I64) | BoolValue(b: bool) | WordValue(w: string) | TupleValue(items: seq<Value>)

  datatype SemError =
    // what the analyzer is there to rule out
    | UnknownVariable(name: string)
    | UnknownParameter(name: string)
    | UnknownMacro(name: string)
    | UnknownInstruction(name: string)
    | AmbiguousInstruction(name: string)
    | UnknownHostHelper(name: string)
    | CallArity(expected: nat, actual: nat)
    | UnknownInstructionSpace(name: string)
    | UnknownInstructionForm(name: string)
    // what only a run can show
    | StackExceeded
    | MissingSemantics(name: string)
    | SubpathNotSupported
    | TooManyRegisterArguments
    | NestedSubfield
    | LiteralOutOfRange
    | ParameterOutOfRange
    | NotAnInteger
    | NotABoolean
    | NotATuple
    | TupleLengthMismatch
    | SliceReversed
    | SliceTooWideError
    | WidthOutOfRange
    | UnknownRegister(space: string, name: string)
    | BadIndex(name: string)
    | MissingIndex(name: string)
    | MissingElement(name: string)
    | UnknownSubfield(name: string)
    | BadRedirect
    | RedirectTooDeep
    | RegisterTooWide
    | UnknownStateRegister(name: string)
    | StateWidthOverflow
    | BusFault
    | FieldRejected(fit: FieldError)

  /** The failures that an accepted machine never shows. */
  predicate StaticError(e: SemError) {
    e.UnknownVariable? || e.UnknownParameter? || e.UnknownMacro? || e.UnknownInstruction? ||
    e.AmbiguousInstruction? || e.UnknownHostHelper? || e.CallArity? ||
    e.UnknownInstructionSpace? || e.UnknownInstructionForm?
  }

  /** The failures of single steps, which depend on the values met. */
  predicate DynamicError(e: SemError) {
    !StaticError(e) && !e.StackExceeded?
  }

  type Outcome<+T> = Result<T, SemError>

  function AsInt(v: Value): (r: Outcome<I64>)
    ensures r.Err? ==> DynamicError(r.error)
  {
    match v
    case IntValue(i) => Ok(i)
    case BoolValue(b) => Ok(if b then 1 else 0)
    case _ => Err(NotAnInteger)
  }

  function AsFlag(v: Value): (r: Outcome<bool>)
    ensures r.Err? ==> DynamicError(r.error)
  {
    match v
    case BoolValue(b) => Ok(b)
    case IntValue(i) => Ok(i != 0)
    case _ => Err(NotABoolean)
  }

  function IntOp(op: BinaryOp, l: I64, r: I64): Value {
    match op
    case BitOrOp => (OrIsU64(AsU64(l), AsU64(r)); IntValue(ToI64(Or(AsU64(l), AsU64(r)))))
    case BitXorOp => (XorIsU64(AsU64(l), AsU64(r)); IntValue(ToI64(Xor(AsU64(l), AsU64(r)))))
    case BitAndOp => (AndIsU64(AsU64(l), AsU64(r)); IntValue(ToI64(And(AsU64(l), AsU64(r)))))
    case AddOp => IntValue(WrapI64(l + r))
    case SubOp => IntValue(WrapI64(l - r))
    case LtOp => BoolValue(l < r)
    case GtOp => BoolValue(l > r)
    case _ => BoolValue(l == r)
  }

  /** What the left operand decides: an error, the whole result, or that the right one is needed. */
  function AfterLeft(op: BinaryOp, l: Value): (r: Outcome<Option<Value>>)
    ensures r.Err? ==> DynamicError(r.error)
  {
    match op
    case LogicalOr => (var flag :- AsFlag(l); Ok(if flag then Some(BoolValue(true)) else None))
    case LogicalAnd => (var flag :- AsFlag(l); Ok(if flag then None else Some(BoolValue(false))))
    case EqOp => Ok(None)
    case NeOp => Ok(None)
    case _ => (var i :- AsInt(l); Ok(None))
  }

  /** The operator on two evaluated operands. */
  function Apply(op: BinaryOp, l: Value, r: Value): (v: Outcome<Value>)
    ensures v.Err? ==> DynamicError(v.error)
  {
    if op.LogicalOr? || op.LogicalAnd? then
      var flag :- AsFlag(r);
      Ok(BoolValue(flag))
    else if op.EqOp? || op.NeOp? then
      if l.BoolValue? && r.BoolValue? then Ok(BoolValue((l.b == r.b) == op.EqOp?))
      else
        var a :- AsInt(l);
        var b :- AsInt(r);
        Ok(BoolValue((a == b) == op.EqOp?))
    else
      var a :- AsInt(l);
      var b :- AsInt(r);
      Ok(IntOp(op, a, b))
  }

  /** `(value >> start) & mask` on the 64-bit pattern. */
  function SliceValue(v: I64, start: nat, end: nat): I64
    requires start <= end < 64
  {
    var mask := MaskForWidth(end - start + 1);
    MaskFits(end - start + 1);
    AndIsU64(Shr(AsU64(v), start), mask);
    ToI64(And(Shr(AsU64(v), start), mask))
  }

  lemma MaskFits(w: nat)
    ensures IsU64(MaskForWidth(w))
  {
    if w < 64 { Pow2Within(w); }
  }

  /** ASCII letters compare without case. */
  function LowerChar(c: char): char {
    if 'A' <= c <= 'Z' then c - 'A' + 'a' else c
  }

  predicate EqIgnoreCase(a: string, b: string) {
    |a| == |b| && forall k | 0 <= k < |a| :: LowerChar(a[k]) == LowerChar(b[k])
  }

  // ---- Machine tables ----

  datatype ParamValue = NumberParam(number: U64) | WordParam(word: string)

  datatype MacroInfo = MacroInfo(name: string, parameters: seq<string>, program: Program)

  datatype InstructionInfo = InstructionInfo(
    space: string, name: string, form: Option<string>, operands: seq<string>, program: Option<Program>)

  datatype Element = Element(index: nat, text: string)

  /** A bit field as its constructors leave it. */
  type FieldSpec = s: Spec | ValidSpec(s) witness Spec([Literal(0, 1)], None, false)

  datatype FieldMeta = FieldMeta(name: string, spec: FieldSpec)

  datatype RegisterMeta = RegisterMeta(
    space: string, name: string, bitWidth: nat, count: nat, elements: seq<Element>, fields: seq<FieldMeta>)

  /** A declared register: the segments of its redirect, and the names of its subfields. */
  datatype RegisterDecl = RegisterDecl(redirect: Option<seq<string>>, subfields: seq<string>)

  datatype SpaceInfo = SpaceInfo(isRegister: bool, forms: map<string, Machine.Form>, registers: map<string, RegisterDecl>)

  /** The machine as the runtime sees it; `schema` lists the register metadata in key order. */
  datatype Isa = Isa(
    macros: seq<MacroInfo>, instructions: seq<InstructionInfo>, spaces: map<string, SpaceInfo>,
    parameters: map<string, ParamValue>, schema: seq<RegisterMeta>,
    aliasFields: map<(string, string), seq<FieldMeta>>)

  function FindMacro(macros: seq<MacroInfo>, name: string): (r: Option<MacroInfo>)
    ensures r.Some? ==> r.value in macros
  {
    if macros == [] then None
    else if macros[0].name == name then Some(macros[0])
    else FindMacro(macros[1..], name)
  }

  function InstructionsNamed(instructions: seq<InstructionInfo>, name: string): (r: seq<InstructionInfo>)
    ensures forall i | i in r :: i in instructions
  {
    if instructions == [] then []
    else if instructions[0].name == name then [instructions[0]] + InstructionsNamed(instructions[1..], name)
    else InstructionsNamed(instructions[1..], name)
  }

  /** `find_instruction`: the one instruction of that name, in any space. */
  function FindInstruction(isa: Isa, name: string): Outcome<InstructionInfo> {
    var named := InstructionsNamed(isa.instructions, name);
    if named == [] then Err(UnknownInstruction(name))
    else if |named| > 1 then Err(AmbiguousInstruction(name))
    else Ok(named[0])
  }

  /** `instruction_operands` */
  function InstructionOperands(isa: Isa, instr: InstructionInfo): Outcome<seq<string>> {
    if instr.operands != [] then Ok(instr.operands)
    else if instr.form.None? then Ok([])
    else if instr.space !in isa.spaces then Err(UnknownInstructionSpace(instr.space))
    else if instr.form.value !in isa.spaces[instr.space].forms then Err(UnknownInstructionForm(instr.form.value))
    else Ok(isa.spaces[instr.space].forms[instr.form.value].operandOrder)
  }

  /** `base_parameters`: the global parameters as values. */
  function BaseParameters(isa: Isa): Outcome<map<string, Value>> {
    if exists name | name in isa.parameters :: isa.parameters[name].NumberParam? && isa.parameters[name].number >= WORD / 2
    then Err(ParameterOutOfRange)
    else Ok(map name | name in isa.parameters ::
              if isa.parameters[name].NumberParam? then IntValue(ToI64(isa.parameters[name].number))
              else WordValue(isa.parameters[name].word))
  }

  function Names(names: seq<string>): set<string> {
    set n | n in names
  }

  function InsertAll(params: map<string, Value>, names: seq<string>, values: seq<Value>): (r: map<string, Value>)
    requires |names| == |values|
    ensures r.Keys == params.Keys + Names(names)
    decreases |names|
  {
    if names == [] then params
    else InsertAll(params[names[0] := values[0]], names[1..], values[1..])
  }

  /** `bind_arguments` */
  function BindArguments(isa: Isa, names: seq<string>, args: seq<Value>): Outcome<map<string, Value>> {
    if |names| != |args| then Err(CallArity(|names|, |args|))
    else
      var base :- BaseParameters(isa);
      Ok(InsertAll(base, names, args))
  }

  // ---- Host helpers ----

  function ParseWidth(v: Value): (r: Outcome<nat>)
    ensures r.Err? ==> DynamicError(r.error)
  {
    var width :- AsInt(v);
    if width < 0 || width > 64 then Err(WidthOutOfRange) else Ok(width)
  }

  function HostArity(name: string): Option<nat> {
    if name == "add" || name == "sub" then Some(4)
    else if name == "mul" then Some(3)
    else None
  }

  /** `evaluate_host_call`, answered by the software host. */
  function HostCall(name: string, subpath: seq<string>, args: seq<Value>): (r: Outcome<Value>)
    ensures r.Err? ==> !r.error.StackExceeded?
  {
    if subpath != [] then Err(SubpathNotSupported)
    else if HostArity(name).None? then Err(UnknownHostHelper(name))
    else if |args| != HostArity(name).value then Err(CallArity(HostArity(name).value, |args|))
    else
      var lhs :- AsInt(args[0]);
      var rhs :- AsInt(args[1]);
      if name == "mul" then
        var width :- ParseWidth(args[2]);
        HostMulFits(lhs, rhs, width);
        var r := HostArith.Mul(AsU64(lhs), AsU64(rhs), width);
        Ok(TupleValue([IntValue(ToI64(r.low)), IntValue(ToI64(r.high))]))
      else
        var carry :- AsFlag(args[2]);
        var width :- ParseWidth(args[3]);
        HostAddFits(lhs, rhs, carry, width);
        var r := if name == "add" then HostArith.Add(AsU64(lhs), AsU64(rhs), carry, width)
                 else HostArith.Sub(AsU64(lhs), AsU64(rhs), carry, width);
        Ok(TupleValue([IntValue(ToI64(r.value)), BoolValue(r.carry)]))
  }

  lemma HostAddFits(lhs: I64, rhs: I64, carry: bool, width: nat)
    requires width <= 64
    ensures IsU64(HostArith.Add(AsU64(lhs), AsU64(rhs), carry, width).value)
    ensures IsU64(HostArith.Sub(AsU64(lhs), AsU64(rhs), carry, width).value)
  {
    HostArith.AddExact(AsU64(lhs), AsU64(rhs), carry, width);
    HostArith.SubExact(AsU64(lhs), AsU64(rhs), carry, width);
    Pow2Within(width);
  }

  lemma HostMulFits(lhs: I64, rhs: I64, width: nat)
    requires width <= 64
    ensures IsU64(HostArith.Mul(AsU64(lhs), AsU64(rhs), width).low)
    ensures IsU64(HostArith.Mul(AsU64(lhs), AsU64(rhs), width).high)
  {
    HostArith.MulExactIff(AsU64(lhs), AsU64(rhs), AsU64(lhs) * AsU64(rhs), width);
    Pow2Within(width);
  }
}
