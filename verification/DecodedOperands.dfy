/** The operands that the semantics of a decoded instruction runs with (`src/soc/core/harness.rs`), down to the values
    that the line was assembled from (`src/soc/isa/machine/{assembly,disassembly}.rs`). */
module DecodedOperands {
  import opened Words
  import opened Results
  import opened BitFields
  import opened BitFieldLaws
  import opened Semantics
  import opened RegisterFile
  import opened Interp
  import opened Soundness
  import opened Blocks
  import CodecRoundTrip
  import Decoding
  import Registers
  import Machine

  // ---- A field as a number ----

  /** The value has the bits of the field, and above them copies of its top bit if the field is signed, else zeros. */
  ghost predicate HoldsField(v: Value, spec: FieldSpec, bits: nat) {
    v.IntValue? && forall q: nat | q < 64 :: Bit(AsU64(v.i), q) == ExtendedBit(spec, bits, q)
  }

  predicate ExtendedBit(spec: FieldSpec, bits: nat, q: nat) {
    var width := TotalWidth(spec);
    if q < width then FieldBit(spec, bits, q) else IsSigned(spec) && 0 < width && FieldBit(spec, bits, width - 1)
  }

  /** The pattern of a negative number of w bits: its bits, and ones above them. */
  lemma NegativeBits(x: nat, w: nat, q: nat)
    requires w <= 64 && x < Pow2(w) && q < 64
    ensures x - Pow2(w) + WORD >= 0 && Bit(x - Pow2(w) + WORD, q) == if q < w then Bit(x, q) else true
  {
    WordIsPow2();
    Pow2Add(64 - w, w);
    assert LowMask(64 - w) * Pow2(w) + x == x - Pow2(w) + WORD by { MulLess(Pow2(64 - w), Pow2(w)); }
    BitJoin(LowMask(64 - w), w, x, q);
    if q >= w { BitMask(64 - w, q - w); }
  }

  lemma MulLess(a: int, b: int)
    ensures (a - 1) * b == a * b - b
  {}

  lemma TopBitMeans(x: nat, w: nat)
    requires 0 < w && x < Pow2(w)
    ensures Bit(x, w - 1) <==> x >= Pow2(w - 1)
  {
    var p := Pow2(w - 1);
    BitShr(x, w - 1, 0);
    if x >= p { QuotientUnique(x, p, 1, x - p); } else { ModSmall(x, p); }
  }

  lemma FieldValueMeans(spec: FieldSpec, bits: nat)
    ensures HoldsField(IntValue(Registers.ReadField(spec, bits)), spec, bits)
  {
    var (x, w) := ReadBits(spec, bits);
    ReadBitsBits(spec, bits);
    ReadIsU64(spec, bits);
    ReadSignedMeaning(spec, bits);
    TopBitMeans(x, w);
    var v := Registers.ReadField(spec, bits);
    Pow2Monotone(w - 1, w);
    HighBitsClear(x, w);
    forall q: nat | q < 64 ensures Bit(AsU64(v), q) == ExtendedBit(spec, bits, q) {
      assert Bit(x, q) == FieldBit(spec, bits, q) && Bit(x, w - 1) == FieldBit(spec, bits, w - 1);
      NegativeBits(x, w, q);
    }
  }

  // ---- What decoding binds ----

  /** Each subfield of the form holds its bits of the word, also where a global parameter has its name; the other names
      hold the global parameters. */
  ghost predicate BoundFrom(isa: Isa, form: Machine.Form, bits: nat, params: map<string, Value>) {
    && params.Keys == isa.parameters.Keys + form.fields.Keys
    && (forall name | name in form.fields :: ValidSpec(form.fields[name]) && HoldsField(params[name], form.fields[name], bits))
    && (forall name | name in isa.parameters && name !in form.fields :: HoldsGlobal(isa.parameters[name], params[name]))
  }

  predicate HoldsGlobal(global: ParamValue, v: Value) {
    match global
    case NumberParam(number) => v.IntValue? && v.i == number
    case WordParam(word) => v == WordValue(word)
  }

  const NO_FIELDS := Machine.Form(map[], [])

  lemma BindMeans(isa: Isa, instr: InstructionInfo, bits: nat)
    requires ProperForms(isa) && BindDecoded(isa, instr, bits).Ok?
    ensures instr.form.None? ==> BoundFrom(isa, NO_FIELDS, bits, BindDecoded(isa, instr, bits).value)
    ensures instr.form.Some? ==>
      && instr.space in isa.spaces && instr.form.value in isa.spaces[instr.space].forms
      && BoundFrom(isa, isa.spaces[instr.space].forms[instr.form.value], bits, BindDecoded(isa, instr, bits).value)
  {
    if instr.form.Some? {
      var form := isa.spaces[instr.space].forms[instr.form.value];
      assert ProperForm(form);
      var params := BindDecoded(isa, instr, bits).value;
      forall name | name in form.fields ensures HoldsField(params[name], form.fields[name], bits) {
        FieldValueMeans(form.fields[name], bits);
      }
    }
  }

  /** Binding fails on a global parameter beyond the signed range, and on a form that the machine does not have. */
  lemma BindFailsIff(isa: Isa, instr: InstructionInfo, bits: nat)
    requires ProperForms(isa)
    ensures BindDecoded(isa, instr, bits).Err? <==>
      || (exists name | name in isa.parameters :: isa.parameters[name].NumberParam? && isa.parameters[name].number >= 0x8000_0000_0000_0000)
      || (instr.form.Some? && (instr.space !in isa.spaces || instr.form.value !in isa.spaces[instr.space].forms))
  {}

  // ---- From the assembled line to the run ----

  /** The number that an operand is read as: a field that is signed takes it from its two's complement. */
  function ReadAs(spec: FieldSpec, value: I64): int {
    if IsSigned(spec) && 2 * AsU64(value) >= Pow2(TotalWidth(spec)) then AsU64(value) - Pow2(TotalWidth(spec)) else value
  }

  /** The field that reads the pattern of a number is bound to the number, unless it is signed and reads as negative. */
  lemma OperandValue(spec: FieldSpec, bits: nat, value: I64)
    requires ReadBits(spec, bits).0 == AsU64(value)
    ensures Registers.ReadField(spec, bits) == ReadAs(spec, value)
  {
    ReadBitsBits(spec, bits);
    ReadIsU64(spec, bits);
    ReadSignedMeaning(spec, bits);
  }

  /** The two descriptions of the machine agree on the instruction of the line. */
  predicate Describes(isa: Isa, instr: InstructionInfo, codec: CodecRoundTrip.InstructionSet, line: CodecRoundTrip.Line) {
    && line.idx < |codec.instructions| && instr.form == codec.instructions[line.idx].form
    && instr.space in isa.spaces && isa.spaces[instr.space].forms == line.space.forms
  }

  /** The operands of the line are bound to the values it was assembled from. */
  predicate OperandsBound(form: Machine.Form, line: CodecRoundTrip.Line, params: map<string, Value>) {
    forall j | 0 <= j < |line.operands| ::
      var (name, value) := line.operands[j];
      && name in form.fields && ValidSpec(form.fields[name])
      && name in params && params[name].IntValue? && params[name].i == ReadAs(form.fields[name], value)
  }

  /** Each line of an assembled program, decoded from the bytes of the whole, runs its semantics with the operands it was
      assembled from; every subfield that is no operand holds its bits of the assembled word. */
  lemma AssembledLineRuns(isa: Isa, instr: InstructionInfo, codec: CodecRoundTrip.InstructionSet, program: seq<CodecRoundTrip.Line>,
                          base: U64, k: nat, core: Core) returns (params: map<string, Value>)
    requires CodecRoundTrip.ValidIsa(codec) && CodecRoundTrip.BuildPatterns(codec, 0).Ok?
    requires CodecRoundTrip.DecodableProgram(codec, program) && k < |program|
    requires ProperForms(isa) && Describes(isa, instr, codec, program[k]) && instr.form.Some? && instr.program.Some?
    requires BaseParameters(isa).Ok?
    ensures var entries := Decoding.Decode(CodecRoundTrip.ToDecoder(codec), CodecRoundTrip.ProgramBytes(program), 0, base);
      && k < |entries|
      && ExecuteDecoded(isa, instr, entries[k].bits, core) == Enter(isa, 32, params, core, instr.program.value)
      && instr.form.value in program[k].space.forms
      && BoundFrom(isa, program[k].space.forms[instr.form.value], entries[k].bits, params)
      && OperandsBound(program[k].space.forms[instr.form.value], program[k], params)
  {
    var line, form := program[k], isa.spaces[instr.space].forms[instr.form.value];
    CodecRoundTrip.ProgramOperandsRoundTrip(codec, program, base, k, instr.form.value);
    var entry := Decoding.Decode(CodecRoundTrip.ToDecoder(codec), CodecRoundTrip.ProgramBytes(program), 0, base)[k];
    params := BindDecoded(isa, instr, entry.bits).value;
    BindMeans(isa, instr, entry.bits);
    assert ProperForm(form);
    forall j | 0 <= j < |line.operands|
      ensures var (name, value) := line.operands[j];
        name in params && params[name].IntValue? && params[name].i == ReadAs(form.fields[name], value)
    {
      var (name, value) := line.operands[j];
      OperandValue(form.fields[name], entry.bits, value);
    }
  }

  /** An instruction that returns one of its operands returns the value that was assembled. */
  lemma AssembledOperandReturns(isa: Isa, instr: InstructionInfo, codec: CodecRoundTrip.InstructionSet, program: seq<CodecRoundTrip.Line>,
                                base: U64, k: nat, j: nat, core: Core)
    requires CodecRoundTrip.ValidIsa(codec) && CodecRoundTrip.BuildPatterns(codec, 0).Ok?
    requires CodecRoundTrip.DecodableProgram(codec, program) && k < |program|
    requires ProperForms(isa) && Describes(isa, instr, codec, program[k]) && instr.form.Some? && BaseParameters(isa).Ok?
    requires j < |program[k].operands| && instr.program == Some([Return(Parameter(program[k].operands[j].0))])
    ensures var entries := Decoding.Decode(CodecRoundTrip.ToDecoder(codec), CodecRoundTrip.ProgramBytes(program), 0, base);
      k < |entries| &&
      var run := RunBlock(isa, [Fetched(instr, entries[k].bits)], core);
      var (name, value) := program[k].operands[j];
      && run.core == core && run.result.Ok? && |run.result.value| == 1 && run.result.value[0].Some?
      && run.result.value[0].value.IntValue?
      && name in program[k].space.forms[instr.form.value].fields
      && run.result.value[0].value.i == ReadAs(program[k].space.forms[instr.form.value].fields[name], value)
  {
    var params := AssembledLineRuns(isa, instr, codec, program, base, k, core);
    var (name, value) := program[k].operands[j];
    var bits := Decoding.Decode(CodecRoundTrip.ToDecoder(codec), CodecRoundTrip.ProgramBytes(program), 0, base)[k].bits;
    ReturnsParameter(isa, params, core, name);
    var block := [Fetched(instr, bits)];
    assert block[1..] == [];
    assert RunBlock(isa, block[1..], core) == Run(Ok([]), core);
    RunBlockCons(isa, block, core);
  }

  lemma ReturnsParameter(isa: Isa, params: map<string, Value>, core: Core, name: string)
    requires name in params
    ensures Enter(isa, 32, params, core, [Return(Parameter(name))]) == Run(Ok(Some(params[name])), core)
  {
    var ctx := Ctx(params, map[]);
    assert Eval(isa, 31, ctx, core, Parameter(name)) == Run(Ok(params[name]), core);
    assert ExecStmt(isa, 31, ctx, core, Return(Parameter(name))) == Run(Ok(Flow(ctx, Some(params[name]))), core);
  }
}
