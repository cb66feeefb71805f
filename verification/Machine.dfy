/** The part of a machine description that the encoder and the decoder share
    (`src/soc/isa/machine/{mod,space,instruction}.rs`). */
module Machine {
  import opened Words
  import opened Results
  import opened BitFields

  datatype Endianness = Little | Big

  /** A form: its subfields and the operands in order (`FormInfo`). */
  datatype Form = Form(fields: map<string, Spec>, operandOrder: seq<string>)

  /** The compiled enable expression of a space. */
  datatype EnableExpr =
    | EnableLiteral(value: nat)
    | EnableBool(flag: bool)
    | EnableField(spec: Spec)
    | EnableBinary(op: EnableOp, lhs: EnableExpr, rhs: EnableExpr)

  datatype EnableOp = EnableEq | EnableNe | EnableAnd | EnableOr

  datatype Space = Space(
    name: string, logic: bool, wordBits: Option<nat>, endianness: Endianness,
    forms: map<string, Form>, enable: Option<EnableExpr>)

  datatype Selector = FieldSelector(name: string) | BitSelector(tokens: seq<Token>)

  datatype MaskField = MaskField(selector: Selector, value: U64)

  datatype Instruction = Instruction(
    space: string, name: string, form: Option<string>, operands: seq<string>, mask: Option<seq<MaskField>>)

  datatype IsaError =
    | UnknownSpace
    | MissingWordSize
    | NotByteAligned
    | MaskWithoutForm
    | UndefinedForm
    | UnknownMaskField
    | InvalidBitExpression(parse: FieldError)
    | MaskLiteralDoesNotFit(fit: FieldError)
    | UnknownOperand(operand: string)
    | OperandDoesNotFit(operand: string, fit: FieldError)
    | TakesNoOperands

  /** `word_bits` followed by `ensure_byte_aligned` */
  function WordWidth(space: Space): Result<nat, IsaError> {
    if space.wordBits.None? then Err(MissingWordSize)
    else if space.wordBits.value % 8 != 0 then Err(NotByteAligned)
    else Ok(space.wordBits.value)
  }

  /** The field a mask selector denotes; `resolve_form_field` has the same text in both files. */
  function ResolveSelector(instr: Instruction, space: Space, wordBits: nat, selector: Selector): Result<Spec, IsaError> {
    match selector
    case BitSelector(tokens) =>
      (var parsed := FromTokens(tokens, wordBits);
       if parsed.Ok? then Ok(parsed.value) else Err(InvalidBitExpression(parsed.error)))
    case FieldSelector(name) =>
      if instr.form.None? then Err(MaskWithoutForm)
      else if instr.form.value !in space.forms then Err(UndefinedForm)
      else if name !in space.forms[instr.form.value].fields then Err(UnknownMaskField)
      else Ok(space.forms[instr.form.value].fields[name])
  }

  /** What building the forms establishes: every subfield is a valid field inside the word. */
  predicate FieldInWord(spec: Spec, wordBits: nat) {
    ValidSpec(spec) && forall k | 0 <= k < |spec.segments| ::
      spec.segments[k].Slice? ==> spec.segments[k].offset + spec.segments[k].width <= wordBits
  }

  predicate ValidForm(form: Form, wordBits: nat) {
    forall name | name in form.fields :: FieldInWord(form.fields[name], wordBits)
  }

  /** What building the forms of a space establishes, whatever its word size. */
  predicate FormsBuilt(space: Space) {
    space.wordBits.Some? ==> forall name | name in space.forms :: ValidForm(space.forms[name], space.wordBits.value)
  }

  /** A logic space whose words are whole bytes, at most eight of them. */
  predicate ValidSpace(space: Space) {
    && space.wordBits.Some? && 0 < space.wordBits.value <= 64 && space.wordBits.value % 8 == 0
    && forall name | name in space.forms :: ValidForm(space.forms[name], space.wordBits.value)
  }

  /** The (mask, value) pair of one mask field, with the errors of its selector and its literal. */
  function MaskEntry(instr: Instruction, space: Space, wordBits: nat, field: MaskField): Result<(nat, nat), IsaError>
    requires forall name | name in space.forms :: ValidForm(space.forms[name], wordBits)
  {
    var spec :- ResolveSelector(instr, space, wordBits, field.selector);
    SelectorIsValid(instr, space, wordBits, field.selector);
    var placed := EncodeConstant(spec, field.value);
    if placed.Ok? then Ok(placed.value) else Err(MaskLiteralDoesNotFit(placed.error))
  }

  function MaskEntries(instr: Instruction, space: Space, wordBits: nat, fields: seq<MaskField>): Result<seq<(nat, nat)>, IsaError>
    requires forall name | name in space.forms :: ValidForm(space.forms[name], wordBits)
  {
    if fields == [] then Ok([])
    else
      var head :- MaskEntry(instr, space, wordBits, fields[0]);
      var tail :- MaskEntries(instr, space, wordBits, fields[1..]);
      Ok([head] + tail)
  }

  lemma SelectorIsValid(instr: Instruction, space: Space, wordBits: nat, selector: Selector)
    requires forall name | name in space.forms :: ValidForm(space.forms[name], wordBits)
    ensures var r := ResolveSelector(instr, space, wordBits, selector); r.Ok? ==> FieldInWord(r.value, wordBits)
  {
    if selector.BitSelector? && FromTokens(selector.tokens, wordBits).Ok? {
      FromTokensValid(selector.tokens, wordBits);
      var spec := FromTokens(selector.tokens, wordBits).value;
      forall k | 0 <= k < |spec.segments| && spec.segments[k].Slice?
        ensures spec.segments[k].offset + spec.segments[k].width <= wordBits
      {
        assert spec.segments[k] in spec.segments && ValidSegment(spec.segments[k]);
        assert Covers(spec.segments[k], spec.segments[k].offset + spec.segments[k].width - 1);
        assert Occupied(spec.segments, spec.segments[k].offset + spec.segments[k].width - 1);
      }
    }
  }
}
