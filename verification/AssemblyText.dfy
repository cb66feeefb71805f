/** Assembly lines (`assemble` of `src/soc/isa/machine/assembly.rs`): cutting a line into
    operands, resolving them and encoding, and the text that takes a decoded word back. */
module AssemblyText {
  import opened Words
  import opened Results
  import opened BitFields
  import opened BitFieldLaws
  import opened Machine
  import opened Encoding
  import opened Decoding
  import opened Seqs
  import opened CodecRoundTrip
  import opened Numerals
  import opened OperandText

  // ---- Cutting a line ----

  function SpaceAt(text: string): (k: nat)
    ensures k <= |text| && (k < |text| ==> IsSpace(text[k]))
    ensures forall j | 0 <= j < k :: !IsSpace(text[j])
  {
    if text == [] || IsSpace(text[0]) then 0 else 1 + SpaceAt(text[1..])
  }

  /** `split(',')`: at least one piece. */
  function SplitCommas(text: string): (r: seq<string>)
    ensures r != []
  {
    if text == [] then [[]]
    else
      var rest := SplitCommas(text[1..]);
      if text[0] == ',' then [[]] + rest else [[text[0]] + rest[0]] + rest[1..]
  }

  /** Trim every piece and drop the empty ones. */
  function CleanPieces(pieces: seq<string>): seq<string> {
    if pieces == [] then []
    else
      var piece := Trim(pieces[0]);
      if piece == [] then CleanPieces(pieces[1..]) else [piece] + CleanPieces(pieces[1..])
  }

  /** `parse_assembly`: the two parts around the first white space, empty parts dropped. */
  function CutLine(line: string): Option<(string, seq<string>)> {
    var k := SpaceAt(line);
    var parts := if k == |line| then [line] else [line[..k], line[k + 1..]];
    var kept := if parts[0] == [] then parts[1..] else parts;
    if kept == [] || kept[0] == [] then None
    else Some((kept[0], CleanPieces(SplitCommas(if |kept| > 1 then kept[1] else []))))
  }

  // ---- Printing a line ----

  function JoinOperands(operands: seq<string>): string {
    if operands == [] then []
    else if |operands| == 1 then operands[0]
    else operands[0] + ", " + JoinOperands(operands[1..])
  }

  function PrintLine(mnemonic: string, operands: seq<string>): string {
    if operands == [] then mnemonic else mnemonic + (" " + JoinOperands(operands))
  }

  predicate IsMnemonic(text: string) {
    text != [] && forall k | 0 <= k < |text| :: !IsSpace(text[k])
  }

  predicate NoComma(text: string) {
    forall k | 0 <= k < |text| :: text[k] != ','
  }

  /** Text that survives the splitting and the trimming. */
  predicate IsOperandText(text: string) {
    text != [] && NoComma(text) && !IsSpace(text[0]) && !IsSpace(text[|text| - 1])
  }

  predicate AllOperandTexts(operands: seq<string>) {
    forall k | 0 <= k < |operands| :: IsOperandText(operands[k])
  }

  lemma {:induction false} SplitPrefix(a: string, b: string)
    requires NoComma(a)
    ensures SplitCommas(a + b) == [a + SplitCommas(b)[0]] + SplitCommas(b)[1..]
  {
    if a == [] {
      assert a + b == b && a + SplitCommas(b)[0] == SplitCommas(b)[0];
    } else {
      assert (a + b)[0] == a[0] && (a + b)[1..] == a[1..] + b;
      SplitPrefix(a[1..], b);
      assert [a[0]] + (a[1..] + SplitCommas(b)[0]) == a + SplitCommas(b)[0];
    }
  }

  lemma SplitLast(a: string)
    requires NoComma(a)
    ensures SplitCommas(a) == [a]
  {
    SplitPrefix(a, []);
    assert a + [] == a;
  }

  lemma SplitAtComma(a: string, b: string)
    requires NoComma(a)
    ensures SplitCommas(a + ("," + b)) == [a] + SplitCommas(b)
  {
    SplitPrefix(a, "," + b);
    assert ("," + b)[0] == ',' && ("," + b)[1..] == b;
    assert a + [] == a;
  }

  /** One operand, with the space the printer puts before it. */
  lemma TrimOperand(operand: string, lead: string)
    requires IsOperandText(operand) && (lead == "" || lead == " ")
    ensures Trim(lead + operand) == operand && NoComma(lead + operand)
  {
    assert lead == "" ==> lead + operand == operand;
    assert lead == " " ==> (lead + operand)[0] == ' ' && (lead + operand)[1..] == operand;
    assert TrimStart(operand) == operand && TrimEnd(operand) == operand;
  }

  lemma CleanCons(head: string, rest: seq<string>)
    ensures CleanPieces([head] + rest) == (if Trim(head) == [] then [] else [Trim(head)]) + CleanPieces(rest)
  {
    assert ([head] + rest)[1..] == rest;
  }

  /** The pieces of a line that starts with one operand and goes on after a comma, or ends there. */
  lemma PiecesEnd(operand: string, lead: string)
    requires IsOperandText(operand) && (lead == "" || lead == " ")
    ensures CleanPieces(SplitCommas(lead + operand)) == [operand]
  {
    TrimOperand(operand, lead);
    SplitLast(lead + operand);
    CleanCons(lead + operand, []);
    assert [lead + operand] + [] == [lead + operand];
  }

  lemma PiecesGoOn(operand: string, lead: string, rest: string)
    requires IsOperandText(operand) && (lead == "" || lead == " ")
    ensures CleanPieces(SplitCommas((lead + operand) + ("," + rest))) == [operand] + CleanPieces(SplitCommas(rest))
  {
    TrimOperand(operand, lead);
    SplitAtComma(lead + operand, rest);
    CleanCons(lead + operand, SplitCommas(rest));
  }

  lemma NoPieces(lead: string)
    requires lead == "" || lead == " "
    ensures CleanPieces(SplitCommas(lead)) == []
  {
    SplitLast(lead);
    assert Trim(lead) == [];
    CleanCons(lead, []);
    assert [lead] + [] == [lead];
  }

  lemma JoinSplits(operands: seq<string>, lead: string)
    requires |operands| >= 2
    ensures lead + JoinOperands(operands) == (lead + operands[0]) + ("," + (" " + JoinOperands(operands[1..])))
  {
    var head, rest := operands[0], JoinOperands(operands[1..]);
    assert JoinOperands(operands) == (head + ", ") + rest;
    Separated(lead, head, ", ", ",", " ", rest);
  }

  lemma Separated(lead: string, head: string, both: string, comma: string, space: string, rest: string)
    requires both == comma + space
    ensures lead + ((head + both) + rest) == (lead + head) + (comma + (space + rest))
  {}

  lemma {:induction false} OperandsSplit(operands: seq<string>, lead: string)
    requires AllOperandTexts(operands) && (lead == "" || lead == " ")
    ensures CleanPieces(SplitCommas(lead + JoinOperands(operands))) == operands
    decreases |operands|
  {
    if operands == [] {
      assert lead + [] == lead;
      NoPieces(lead);
    } else if |operands| == 1 {
      PiecesEnd(operands[0], lead);
    } else {
      JoinSplits(operands, lead);
      PiecesGoOn(operands[0], lead, " " + JoinOperands(operands[1..]));
      OperandsSplit(operands[1..], " ");
    }
  }

  /** Cutting a printed line gives its mnemonic and its operands. */
  lemma LineTextRoundTrip(mnemonic: string, operands: seq<string>)
    requires IsMnemonic(mnemonic) && AllOperandTexts(operands)
    ensures CutLine(PrintLine(mnemonic, operands)) == Some((mnemonic, operands))
  {
    if operands == [] {
      BareLine(mnemonic);
    } else {
      OperandsSplit(operands, "");
      NoLead(JoinOperands(operands));
      LineWithOperands(mnemonic, JoinOperands(operands));
    }
  }

  lemma NoLead(text: string)
    ensures "" + text == text
  {}

  lemma BareLine(mnemonic: string)
    requires IsMnemonic(mnemonic)
    ensures CutLine(mnemonic) == Some((mnemonic, []))
  {
    SpaceAfter(mnemonic, []);
    assert mnemonic + [] == mnemonic;
    NoPieces("");
  }

  lemma LineWithOperands(mnemonic: string, text: string)
    requires IsMnemonic(mnemonic)
    ensures CutLine(mnemonic + (" " + text)) == Some((mnemonic, CleanPieces(SplitCommas(text))))
  {
    var line := mnemonic + (" " + text);
    SpaceAfter(mnemonic, " " + text);
    assert line[..|mnemonic|] == mnemonic && line[|mnemonic| + 1..] == text;
  }

  lemma {:induction false} SpaceAfter(word: string, rest: string)
    requires forall k | 0 <= k < |word| :: !IsSpace(word[k])
    requires rest == [] || IsSpace(rest[0])
    ensures SpaceAt(word + rest) == |word|
  {
    if word == [] {
      assert word + rest == rest;
    } else {
      assert (word + rest)[0] == word[0] && (word + rest)[1..] == word[1..] + rest;
      SpaceAfter(word[1..], rest);
    }
  }

  /** White space before the mnemonic makes the whole rest of the line the mnemonic. */
  lemma LeadingSpaceSwallowsLine(lead: char, line: string)
    requires IsSpace(lead)
    ensures CutLine([lead] + line) == if line == [] then None else Some((line, []))
  {
    assert ([lead] + line)[..0] == [] && ([lead] + line)[1..] == line;
    NoPieces("");
  }

  // ---- Resolving and encoding ----

  /** How the fields of a form look as text, form by form. */
  type Catalog = map<(string, string), map<string, FieldText>>

  datatype LineError =
    | MissingMnemonic
    | UnknownInstruction(mnemonic: string)
    | OperandCount(expected: nat, got: nat)
    | NoForm
    | NotLogic(space: string)
    | BadOperand(text: TextError)
    | BadEncoding(encode: IsaError)

  function TextOf(catalog: Catalog, space: string, form: string, field: string): FieldText {
    if (space, form) in catalog && field in catalog[(space, form)] then catalog[(space, form)][field]
    else FieldText([], None)
  }

  /** `find_instruction`: the first of that name. */
  function InstructionNamed(instructions: seq<Instruction>, mnemonic: string): Option<nat> {
    if instructions == [] then None
    else if instructions[0].name == mnemonic then Some(0)
    else
      var later := InstructionNamed(instructions[1..], mnemonic);
      if later.Some? then Some(later.value + 1) else None
  }

  /** The loop over operand names and texts. */
  function ResolveAll(names: RegisterNames, catalog: Catalog, space: Space, form: string, operandNames: seq<string>, raw: seq<string>): Result<seq<(string, int)>, LineError>
    requires |operandNames| == |raw| && form in space.forms
    decreases |raw|
  {
    if raw == [] then Ok([])
    else if operandNames[0] !in space.forms[form].fields then Err(BadEncoding(UnknownOperand(operandNames[0])))
    else
      var value := ParseOperand(names, TextOf(catalog, space.name, form, operandNames[0]), raw[0]);
      if value.Err? then Err(BadOperand(value.error))
      else
        var rest :- ResolveAll(names, catalog, space, form, operandNames[1..], raw[1..]);
        Ok([(operandNames[0], value.value)] + rest)
  }

  /** `resolve_operand_values` */
  function ResolveOperands(names: RegisterNames, catalog: Catalog, space: Space, instr: Instruction, raw: seq<string>): Result<seq<(string, int)>, LineError> {
    if instr.form.None? then if raw == [] then Ok([]) else Err(NoForm)
    else if instr.form.value !in space.forms then Err(BadEncoding(UndefinedForm))
    else
      var operandNames := OperandNames(space, instr);
      if |operandNames| != |raw| then Err(OperandCount(|operandNames|, |raw|))
      else ResolveAll(names, catalog, space, instr.form.value, operandNames, raw)
  }

  /** `resolve_operand_values` pushes one pair after the other. */
  method ResolveOperandValues(names: RegisterNames, catalog: Catalog, space: Space, instr: Instruction, raw: seq<string>)
    returns (r: Result<seq<(string, int)>, LineError>)
    ensures r == ResolveOperands(names, catalog, space, instr, raw)
  {
    if instr.form.None? { return if raw == [] then Ok([]) else Err(NoForm); }
    if instr.form.value !in space.forms { return Err(BadEncoding(UndefinedForm)); }
    var form, operandNames := instr.form.value, OperandNames(space, instr);
    if |operandNames| != |raw| { return Err(OperandCount(|operandNames|, |raw|)); }
    var resolved: seq<(string, int)> := [];
    DropWhole(operandNames);
    DropWhole(raw);
    var k := 0;
    ContinuedEmpty(ResolveAll(names, catalog, space, form, operandNames, raw));
    while k < |raw|
      invariant 0 <= k <= |raw|
      invariant Continued(resolved, ResolveAll(names, catalog, space, form, operandNames[k..], raw[k..]))
        == ResolveAll(names, catalog, space, form, operandNames, raw)
    {
      ResolveStep(names, catalog, space, form, operandNames[k..], raw[k..], resolved);
      DropDrop(operandNames, k, 1);
      DropDrop(raw, k, 1);
      if operandNames[k] !in space.forms[form].fields { return Err(BadEncoding(UnknownOperand(operandNames[k]))); }
      var value := ParseOperand(names, TextOf(catalog, space.name, form, operandNames[k]), raw[k]);
      if value.Err? { return Err(BadOperand(value.error)); }
      resolved := resolved + [(operandNames[k], value.value)];
      k := k + 1;
    }
    ContinuedDone(resolved);
    return Ok(resolved);
  }

  lemma ContinuedEmpty(rest: Result<seq<(string, int)>, LineError>)
    ensures Continued([], rest) == rest
  {
    if rest.Ok? { assert [] + rest.value == rest.value; }
  }

  lemma ContinuedDone(done: seq<(string, int)>)
    ensures Continued(done, Ok([])) == Ok(done)
  {
    assert done + [] == done;
  }

  lemma ResolveStep(names: RegisterNames, catalog: Catalog, space: Space, form: string, operandNames: seq<string>, raw: seq<string>, done: seq<(string, int)>)
    requires |operandNames| == |raw| && raw != [] && form in space.forms
    ensures var all := Continued(done, ResolveAll(names, catalog, space, form, operandNames, raw));
      if operandNames[0] !in space.forms[form].fields then all == Err(BadEncoding(UnknownOperand(operandNames[0])))
      else
        var value := ParseOperand(names, TextOf(catalog, space.name, form, operandNames[0]), raw[0]);
        if value.Err? then all == Err(BadOperand(value.error))
        else all == Continued(done + [(operandNames[0], value.value)], ResolveAll(names, catalog, space, form, operandNames[1..], raw[1..]))
  {
    if operandNames[0] in space.forms[form].fields {
      var value := ParseOperand(names, TextOf(catalog, space.name, form, operandNames[0]), raw[0]);
      var rest := ResolveAll(names, catalog, space, form, operandNames[1..], raw[1..]);
      if value.Ok? && rest.Ok? { AppendAssoc(done, [(operandNames[0], value.value)], rest.value); }
    }
  }

  function Continued(done: seq<(string, int)>, rest: Result<seq<(string, int)>, LineError>): Result<seq<(string, int)>, LineError> {
    if rest.Ok? then Ok(done + rest.value) else rest
  }

  /** The values as signed 64-bit numbers. */
  function Wrapped(values: seq<(string, int)>): seq<Operand> {
    if values == [] then [] else [(values[0].0, WrapI64(values[0].1))] + Wrapped(values[1..])
  }

  /** `assemble`, for the logic spaces of a machine. */
  function Assemble(isa: InstructionSet, names: RegisterNames, catalog: Catalog, line: string): Result<seq<Byte>, LineError>
    requires ValidIsa(isa)
  {
    var parsed := CutLine(line);
    if parsed.None? then Err(MissingMnemonic)
    else
      var idx := InstructionNamed(isa.instructions, parsed.value.0);
      if idx.None? || idx.value >= |isa.instructions| then Err(UnknownInstruction(parsed.value.0))
      else
        var instr := isa.instructions[idx.value];
        var space := FindSpace(isa.spaces, instr.space);
        if space.None? then Err(BadEncoding(UnknownSpace))
        else if !space.value.logic then Err(NotLogic(instr.space))
        else
          var values :- ResolveOperands(names, catalog, space.value, instr, parsed.value.1);
          var bytes := Encode(space.value, instr, Wrapped(values));
          if bytes.Ok? then Ok(bytes.value) else Err(BadEncoding(bytes.error))
  }

  // ---- From a decoded word to text and back ----

  /** The operand texts `decode_operands` prints for a word. */
  function PrintOperands(names: RegisterNames, catalog: Catalog, space: Space, form: string, operandNames: seq<string>, word: U64): seq<string>
    requires ValidSpace(space) && form in space.forms
  {
    if operandNames == [] then []
    else [PrintOperand(names, catalog, space, form, operandNames[0], word)]
         + PrintOperands(names, catalog, space, form, operandNames[1..], word)
  }

  function PrintOperand(names: RegisterNames, catalog: Catalog, space: Space, form: string, name: string, word: U64): string
    requires ValidSpace(space) && form in space.forms
  {
    if name in space.forms[form].fields then
      var spec := space.forms[form].fields[name];
      assert ValidForm(space.forms[form], space.wordBits.value) && FieldInWord(spec, space.wordBits.value);
      ReadIsU64(spec, word);
      FormatOperand(names, spec, TextOf(catalog, space.name, form, name), ReadBits(spec, word).0)
    else "?" + name
  }

  /** The operand prints as text that survives on a line and reads back as its value. */
  ghost predicate PrintsBack(names: RegisterNames, catalog: Catalog, space: Space, form: string, name: string, word: U64)
    requires ValidSpace(space) && form in space.forms
  {
    && name in space.forms[form].fields
    && IsOperandText(PrintOperand(names, catalog, space, form, name, word))
    && ParseOperand(names, TextOf(catalog, space.name, form, name), PrintOperand(names, catalog, space, form, name, word))
       == Ok(ReadBits(space.forms[form].fields[name], word).0)
  }

  /** What has to be known of an operand: it is faithful, and when it names a register, the labels
      of the register space are unique and this one can stand in an operand list. */
  ghost predicate Legible(names: RegisterNames, catalog: Catalog, space: Space, form: string, name: string, word: U64)
    requires ValidSpace(space) && form in space.forms
  {
    var field := TextOf(catalog, space.name, form, name);
    && name in space.forms[form].fields
    && ReadBits(space.forms[form].fields[name], word).0 < WORD
    && Recoverable(names, space.forms[form].fields[name], field, ReadBits(space.forms[form].fields[name], word).0)
    && ProperNames(names, field)
    && (field.register.Some? ==>
          IsOperandText(PrintOperand(names, catalog, space, form, name, word)))
  }

  lemma PlainIsOperandText(text: string)
    requires AllPlain(text) && text != []
    ensures IsOperandText(text)
  {}

  lemma NumbersAreOperandTexts(names: RegisterNames, spec: Spec, field: FieldText, value: U64)
    requires field.register.None?
    ensures IsOperandText(FormatOperand(names, spec, field, value))
  {
    NumeralChars(value, 10, 1);
    HexChars(Truncated(spec, value), HexDigits(spec));
    PlainIsOperandText(FormatOperand(names, spec, field, value));
  }

  lemma LegibleReadsBack(names: RegisterNames, catalog: Catalog, space: Space, form: string, name: string, word: U64)
    requires ValidSpace(space) && form in space.forms && Legible(names, catalog, space, form, name, word)
    ensures PrintsBack(names, catalog, space, form, name, word)
  {
    var field, spec := TextOf(catalog, space.name, form, name), space.forms[form].fields[name];
    OperandReadsBackIff(names, spec, field, ReadBits(spec, word).0);
    if field.register.None? { NumbersAreOperandTexts(names, spec, field, ReadBits(spec, word).0); }
  }

  function NamesOf(operands: seq<Operand>): (r: seq<string>)
    ensures |r| == |operands|
  {
    if operands == [] then [] else [operands[0].0] + NamesOf(operands[1..])
  }

  /** Every operand of a line is what its field of the word holds. */
  predicate HoldsOperands(space: Space, form: string, operands: seq<Operand>, word: U64)
    requires ValidSpace(space) && form in space.forms
  {
    forall k | 0 <= k < |operands| ::
      operands[k].0 in space.forms[form].fields
      && ReadBits(space.forms[form].fields[operands[k].0], word).0 == AsU64(operands[k].1)
  }

  ghost predicate AllLegible(names: RegisterNames, catalog: Catalog, space: Space, form: string, operands: seq<Operand>, word: U64)
    requires ValidSpace(space) && form in space.forms
  {
    forall k | 0 <= k < |operands| :: Legible(names, catalog, space, form, operands[k].0, word)
  }

  lemma SignedOfUnsigned(x: I64)
    ensures WrapI64(AsU64(x)) == x
  {}

  /** The texts resolve to exactly these operands. */
  ghost predicate ResolvesTo(names: RegisterNames, catalog: Catalog, space: Space, form: string, operandNames: seq<string>, raw: seq<string>, operands: seq<Operand>)
    requires form in space.forms
  {
    && |raw| == |operandNames| && AllOperandTexts(raw)
    && ResolveAll(names, catalog, space, form, operandNames, raw).Ok?
    && Wrapped(ResolveAll(names, catalog, space, form, operandNames, raw).value) == operands
  }

  lemma ResolvesCons(names: RegisterNames, catalog: Catalog, space: Space, form: string, head: Operand, text: string, operandNames: seq<string>, raw: seq<string>, operands: seq<Operand>)
    requires form in space.forms && ResolvesTo(names, catalog, space, form, operandNames, raw, operands)
    requires head.0 in space.forms[form].fields && IsOperandText(text)
    requires ParseOperand(names, TextOf(catalog, space.name, form, head.0), text) == Ok(AsU64(head.1))
    ensures ResolvesTo(names, catalog, space, form, [head.0] + operandNames, [text] + raw, [head] + operands)
  {
    ConsTail(head.0, operandNames);
    ConsTail(text, raw);
    SignedOfUnsigned(head.1);
    var rest := ResolveAll(names, catalog, space, form, operandNames, raw).value;
    ConsTail((head.0, AsU64(head.1) as int), rest);
  }

  lemma OperandsTail(names: RegisterNames, catalog: Catalog, space: Space, form: string, operands: seq<Operand>, word: U64)
    requires ValidSpace(space) && form in space.forms && operands != []
    requires HoldsOperands(space, form, operands, word) && AllLegible(names, catalog, space, form, operands, word)
    ensures HoldsOperands(space, form, operands[1..], word) && AllLegible(names, catalog, space, form, operands[1..], word)
  {
    forall k | 0 <= k < |operands[1..]|
      ensures operands[1..][k].0 in space.forms[form].fields
      ensures ReadBits(space.forms[form].fields[operands[1..][k].0], word).0 == AsU64(operands[1..][k].1)
      ensures Legible(names, catalog, space, form, operands[1..][k].0, word)
    {
      assert operands[1..][k] == operands[k + 1];
    }
  }

  /** Printing the operands of a word and resolving the texts gives the operands back. */
  lemma {:induction false} OperandsResolve(names: RegisterNames, catalog: Catalog, space: Space, form: string, operands: seq<Operand>, word: U64)
    requires ValidSpace(space) && form in space.forms
    requires HoldsOperands(space, form, operands, word) && AllLegible(names, catalog, space, form, operands, word)
    ensures var raw := PrintOperands(names, catalog, space, form, NamesOf(operands), word);
      ResolvesTo(names, catalog, space, form, NamesOf(operands), raw, operands)
    decreases |operands|
  {
    if operands != [] {
      var head, tail := operands[0], operands[1..];
      OperandsTail(names, catalog, space, form, operands, word);
      OperandsResolve(names, catalog, space, form, tail, word);
      LegibleReadsBack(names, catalog, space, form, head.0, word);
      ConsTail(head.0, NamesOf(tail));
      ResolvesCons(names, catalog, space, form, head, PrintOperand(names, catalog, space, form, head.0, word),
                   NamesOf(tail), PrintOperands(names, catalog, space, form, NamesOf(tail), word), tail);
      assert [head] + tail == operands;
    }
  }

  /** The operands a line's word prints. */
  function LineOperands(names: RegisterNames, catalog: Catalog, line: Line): seq<string>
    requires ValidSpace(line.space) && IsU64(line.word)
  {
    if line.pattern.form.None? || line.pattern.form.value !in line.space.forms then []
    else PrintOperands(names, catalog, line.space, line.pattern.form.value, line.pattern.operandNames, line.word)
  }

  /** The instruction is the first of its name, the line gives its operands in order, and each is legible. */
  ghost predicate LegibleLine(isa: InstructionSet, names: RegisterNames, catalog: Catalog, line: Line) {
    && line.idx < |isa.instructions| && ValidSpace(line.space) && IsU64(line.word)
    && IsMnemonic(isa.instructions[line.idx].name)
    && InstructionNamed(isa.instructions, isa.instructions[line.idx].name) == Some(line.idx)
    && var form := isa.instructions[line.idx].form;
       form.Some? && form.value in line.space.forms ==>
         NamesOf(line.operands) == line.pattern.operandNames
         && AllLegible(names, catalog, line.space, form.value, line.operands, line.word)
  }

  /** A decoded line, printed, assembles to the bytes it was decoded from. */
  lemma PrintedLineAssembles(isa: InstructionSet, names: RegisterNames, catalog: Catalog, line: Line)
    requires ValidIsa(isa) && BuildPatterns(isa, 0).Ok? && Decodable(isa, line) && LegibleLine(isa, names, catalog, line)
    ensures var text := PrintLine(isa.instructions[line.idx].name, LineOperands(names, catalog, line));
      Assemble(isa, names, catalog, text) == Ok(LineBytes(line))
  {
    var instr, raw := isa.instructions[line.idx], LineOperands(names, catalog, line);
    AssembledWord(line.space, line.idx, instr, line.operands, line.pattern, line.word);
    LineEncodes(isa, line);
    PatternShows(line.space, line.idx, instr, line.pattern);
    if instr.form.Some? {
      OperandsResolve(names, catalog, line.space, instr.form.value, line.operands, line.word);
    }
    LineTextRoundTrip(instr.name, raw);
  }

  lemma PatternShows(space: Space, idx: nat, instr: Instruction, pattern: Pattern)
    requires space.logic ==> ValidSpace(space)
    requires BuildPattern(space, idx, instr) == Ok(Some(pattern))
    ensures pattern.form == instr.form && pattern.operandNames == OperandNames(space, instr)
  {}

  // ---- A listing as source text ----

  /** `decode_operands` */
  function DecodedOperands(isa: InstructionSet, names: RegisterNames, catalog: Catalog, pattern: Pattern, word: U64): seq<string>
    requires ValidIsa(isa)
  {
    var space := FindSpace(isa.spaces, pattern.space);
    if pattern.form.None? || space.None? || !space.value.logic || pattern.form.value !in space.value.forms then []
    else PrintOperands(names, catalog, space.value, pattern.form.value, pattern.operandNames, word)
  }

  predicate Listable(isa: InstructionSet, entry: Entry) {
    IsU64(entry.bits) && (entry.pattern.Some? ==> entry.pattern.value.instruction < |isa.instructions|)
  }

  /** Mnemonic and operands of a listing line. */
  function EntryText(isa: InstructionSet, names: RegisterNames, catalog: Catalog, entry: Entry): string
    requires ValidIsa(isa) && Listable(isa, entry)
  {
    if entry.pattern.None? then PrintLine("unknown", [HexLiteral(entry.bits, 2 * entry.size)])
    else
      PrintLine(isa.instructions[entry.pattern.value.instruction].name,
                DecodedOperands(isa, names, catalog, entry.pattern.value, entry.bits))
  }

  /** Assembling the text of each listing line and concatenating the bytes. */
  function AssembleListing(isa: InstructionSet, names: RegisterNames, catalog: Catalog, listing: seq<Entry>): Result<seq<Byte>, LineError>
    requires ValidIsa(isa) && forall e | e in listing :: Listable(isa, e)
  {
    if listing == [] then Ok([])
    else
      var head :- Assemble(isa, names, catalog, EntryText(isa, names, catalog, listing[0]));
      var tail :- AssembleListing(isa, names, catalog, listing[1..]);
      Ok(head + tail)
  }

  lemma EntryAssembles(isa: InstructionSet, names: RegisterNames, catalog: Catalog, line: Line, address: U64)
    requires ValidIsa(isa) && BuildPatterns(isa, 0).Ok? && Decodable(isa, line) && LegibleLine(isa, names, catalog, line)
    ensures Listable(isa, LineEntry(line, address))
    ensures Assemble(isa, names, catalog, EntryText(isa, names, catalog, LineEntry(line, address))) == Ok(LineBytes(line))
  {
    PrintedLineAssembles(isa, names, catalog, line);
    PatternSpace(line.space, line.idx, isa.instructions[line.idx]);
  }

  ghost predicate LegibleProgram(isa: InstructionSet, names: RegisterNames, catalog: Catalog, program: seq<Line>) {
    forall k | 0 <= k < |program| :: LegibleLine(isa, names, catalog, program[k])
  }

  lemma {:induction false} ExpectedAssembles(isa: InstructionSet, names: RegisterNames, catalog: Catalog, program: seq<Line>, address: U64)
    requires ValidIsa(isa) && BuildPatterns(isa, 0).Ok?
    requires DecodableProgram(isa, program) && LegibleProgram(isa, names, catalog, program)
    ensures forall e | e in Expected(program, address) :: Listable(isa, e)
    ensures AssembleListing(isa, names, catalog, Expected(program, address)) == Ok(ProgramBytes(program))
    decreases |program|
  {
    if program != [] {
      var next := AdvanceAddress(address, SpaceBytes(program[0].space));
      forall k | 0 <= k < |program[1..]|
        ensures Decodable(isa, program[1..][k]) && LegibleLine(isa, names, catalog, program[1..][k])
      {
        assert program[1..][k] == program[k + 1];
      }
      EntryAssembles(isa, names, catalog, program[0], address);
      ExpectedAssembles(isa, names, catalog, program[1..], next);
      ConsTail(LineEntry(program[0], address), Expected(program[1..], next));
    }
  }

  /** The listing of an assembled program is source text for it: assembled again, line by line,
      it gives the same bytes. */
  lemma ListingIsSource(isa: InstructionSet, names: RegisterNames, catalog: Catalog, program: seq<Line>, base: U64)
    requires ValidIsa(isa) && BuildPatterns(isa, 0).Ok?
    requires DecodableProgram(isa, program) && LegibleProgram(isa, names, catalog, program)
    ensures var listing := Disassemble(ToDecoder(isa), ProgramBytes(program), 0, base);
      && (forall e | e in listing :: Listable(isa, e))
      && AssembleListing(isa, names, catalog, listing) == Ok(ProgramBytes(program))
  {
    ProgramRoundTrip(isa, program, base);
    ExpectedAssembles(isa, names, catalog, program, base);
  }

  // ---- Which text is which operand ----

  /** The operand at place k: of those the instruction lists, or else of those of its form. */
  function NameAt(space: Space, instr: Instruction, k: nat): Option<string>
    requires instr.form.Some? && instr.form.value in space.forms
  {
    var order := space.forms[instr.form.value].operandOrder;
    if instr.operands != [] then (if k < |instr.operands| then Some(instr.operands[k]) else None)
    else if k < |order| then Some(order[k]) else None
  }

  /** The k-th text is read as the k-th operand, by what its field looks like. */
  predicate ReadAt(names: RegisterNames, catalog: Catalog, space: Space, instr: Instruction, raw: seq<string>, k: nat, value: (string, int))
    requires instr.form.Some? && instr.form.value in space.forms && k < |raw|
  {
    && NameAt(space, instr, k) == Some(value.0) && value.0 in space.forms[instr.form.value].fields
    && ParseOperand(names, TextOf(catalog, space.name, instr.form.value, value.0), raw[k]) == Ok(value.1)
  }

  lemma {:induction false} ResolvedAt(names: RegisterNames, catalog: Catalog, space: Space, form: string,
                                      operandNames: seq<string>, raw: seq<string>, k: nat)
    requires |operandNames| == |raw| && form in space.forms && k < |raw|
    requires ResolveAll(names, catalog, space, form, operandNames, raw).Ok?
    ensures var resolved := ResolveAll(names, catalog, space, form, operandNames, raw).value;
      && |resolved| == |raw| && resolved[k].0 == operandNames[k] && operandNames[k] in space.forms[form].fields
      && ParseOperand(names, TextOf(catalog, space.name, form, operandNames[k]), raw[k]) == Ok(resolved[k].1)
    decreases |raw|
  {
    if |raw| > 1 { ResolvedAt(names, catalog, space, form, operandNames[1..], raw[1..], if k > 0 then k - 1 else 0); }
  }

  /** Resolved operands are as many as their texts and as the operands there are, each text in its own place. */
  lemma OperandsInPlace(names: RegisterNames, catalog: Catalog, space: Space, instr: Instruction, raw: seq<string>, k: nat)
    requires instr.form.Some? && instr.form.value in space.forms
    requires ResolveOperands(names, catalog, space, instr, raw).Ok?
    ensures k < |raw| <==> NameAt(space, instr, k).Some?
    ensures k < |raw| ==>
      var resolved := ResolveOperands(names, catalog, space, instr, raw).value;
      |resolved| == |raw| && ReadAt(names, catalog, space, instr, raw, k, resolved[k])
  {
    if k < |raw| { ResolvedAt(names, catalog, space, instr.form.value, OperandNames(space, instr), raw, k); }
  }

  /** The instruction of a mnemonic is the first with exactly that name. */
  lemma {:induction false} NamedFirst(instructions: seq<Instruction>, mnemonic: string)
    ensures var r := InstructionNamed(instructions, mnemonic);
      && (r.None? <==> forall i | i in instructions :: i.name != mnemonic)
      && (r.Some? ==> r.value < |instructions| && instructions[r.value].name == mnemonic)
      && (r.Some? ==> forall j | 0 <= j < r.value :: instructions[j].name != mnemonic)
  {
    if instructions != [] {
      assert instructions == [instructions[0]] + instructions[1..];
      NamedFirst(instructions[1..], mnemonic);
      var r := InstructionNamed(instructions, mnemonic);
      if r.Some? {
        forall j | 0 <= j < r.value ensures instructions[j].name != mnemonic { if j > 0 { assert instructions[j] == instructions[1..][j - 1]; } }
      }
    }
  }
}
