/** Operands as text: what the disassembler prints and what the assembler reads back
    (`format_operand` of `src/soc/isa/machine/format.rs`, `parse_operand_value` of `assembly.rs`). */
module OperandText {
  import opened Words
  import opened Results
  import opened BitFields
  import opened BitFieldLaws
  import opened Numerals
  import opened Schema
  import Semantics
  import Registers

  datatype Operation = Operation(kind: string, subtype: Option<string>)

  datatype Binding = Binding(space: string, field: string)

  /** The part of a form field that decides how its operand looks. */
  datatype FieldText = FieldText(operations: seq<Operation>, register: Option<Binding>)

  datatype OperandKind = RegisterOperand | ImmediateOperand | OtherOperand

  /** The register spaces of the machine and the schema that is built from them. */
  datatype RegisterNames = RegisterNames(spaces: seq<RegisterSpace>, schema: seq<Semantics.RegisterMeta>)

  datatype TextError = UnknownRegister(text: string) | BadNumeral(error: NumeralError)

  // ---- The operand kind ----

  function Lowered(text: string): string {
    seq(|text|, k requires 0 <= k < |text| => Semantics.LowerChar(text[k]))
  }

  predicate IsImmediateOp(op: Operation) {
    "imm" <= Lowered(op.kind)
  }

  predicate IsRegOp(op: Operation) {
    Semantics.EqIgnoreCase(op.kind, "reg")
  }

  /** `classify_operand_kind` */
  function Classify(field: FieldText): OperandKind {
    if field.register.Some? then RegisterOperand
    else if exists op | op in field.operations :: IsImmediateOp(op) then ImmediateOperand
    else OtherOperand
  }

  // ---- Printing ----

  function FindRegister(registers: seq<RegisterInfo>, name: string): Option<RegisterInfo> {
    if registers == [] then None
    else if registers[0].name == name then Some(registers[0])
    else FindRegister(registers[1..], name)
  }

  function FindInfo(spaces: seq<RegisterSpace>, binding: Binding): Option<RegisterInfo> {
    if spaces == [] then None
    else if spaces[0].name == binding.space then FindRegister(spaces[0].registers, binding.field)
    else FindInfo(spaces[1..], binding)
  }

  /** What a register operand prints. */
  function RegisterText(names: RegisterNames, binding: Binding, value: U64): string {
    var info := FindInfo(names.spaces, binding);
    if info.Some? then Label(info.value, value) else binding.field + Decimal(value)
  }

  function HexDigits(spec: Spec): nat {
    (ImmediateWidth(spec) + 3) / 4
  }

  function ImmediateWidth(spec: Spec): nat {
    if DataWidth(spec.segments) == 0 then 1 else DataWidth(spec.segments)
  }

  function Truncated(spec: Spec, value: U64): nat {
    if ImmediateWidth(spec) >= 64 then value else And(value, LowMask(ImmediateWidth(spec)))
  }

  /** `format_operand` */
  function FormatOperand(names: RegisterNames, spec: Spec, field: FieldText, value: U64): string {
    if field.register.Some? then RegisterText(names, field.register.value, value)
    else if Classify(field) == ImmediateOperand then HexLiteral(Truncated(spec, value), HexDigits(spec))
    else if exists op | op in field.operations :: IsRegOp(op) then "r" + Decimal(value)
    else Decimal(value)
  }

  // ---- Reading ----

  function Numeric(raw: string): Result<I64, TextError> {
    var r := ParseNumeric(raw);
    if r.Ok? then Ok(r.value) else Err(BadNumeral(r.error))
  }

  /** `parse_operand_value`; register indices are 32-bit numbers. */
  function ParseOperand(names: RegisterNames, field: FieldText, raw: string): Result<int, TextError> {
    if field.register.Some? then
      var found := Registers.FindByLabel(names.schema, field.register.value.space, raw);
      if found.Some? then Ok(found.value.1.index) else Err(UnknownRegister(raw))
    else if Classify(field) == RegisterOperand && raw != [] && (raw[0] == 'r' || raw[0] == 'R') then Numeric(raw[1..])
    else Numeric(raw)
  }

  // ---- Labels and declarations ----

  /** The space declares the register. */
  ghost predicate HasRegister(spaces: seq<RegisterSpace>, space: string, info: RegisterInfo) {
    exists s | s in spaces :: s.name == space && info in s.registers
  }

  /** No two elements declared in the space carry one label. */
  ghost predicate LabelsUnique(spaces: seq<RegisterSpace>, space: string) {
    forall a, b, i: U64, j: U64 |
      HasRegister(spaces, space, a) && !a.redirected && InRange(a, i) && HasRegister(spaces, space, b) && !b.redirected && InRange(b, j)
      && Label(a, i) == Label(b, j) :: i == j
  }

  /** A register that the space declares, with no redirect, has this index and carries this text there. */
  ghost predicate Answers(spaces: seq<RegisterSpace>, space: string, info: RegisterInfo, index: U64, text: string) {
    HasRegister(spaces, space, info) && !info.redirected && InRange(info, index) && Label(info, index) == text
  }

  ghost predicate HasElement(schema: seq<Semantics.RegisterMeta>, space: string, index: int, text: string) {
    exists m, e :: m in schema && m.space == space && e in m.elements && e.index == index && e.text == text
  }

  lemma {:induction false} ElementsAt(labels: seq<string>, first: nat, e: Semantics.Element)
    ensures e in Elements(labels, first) <==> first <= e.index < first + |labels| && e.text == labels[e.index - first]
    decreases |labels|
  {
    if labels != [] {
      ElementsAt(labels[1..], first + 1, e);
      var rest := Elements(labels[1..], first + 1);
      assert Elements(labels, first) == [Semantics.Element(first, labels[0])] + rest;
      if first < e.index < first + |labels| { assert labels[1..][e.index - first - 1] == labels[e.index - first]; }
    }
  }

  /** The elements of a register are its indexes with their labels. */
  lemma InfoElements(info: RegisterInfo, e: Semantics.Element)
    ensures e in Elements(Labels(info), First(info)) <==> InRange(info, e.index) && e.text == Label(info, e.index)
  {
    ElementsAt(Labels(info), First(info), e);
  }

  lemma {:induction false} SpaceElements(space: RegisterSpace, registers: seq<RegisterInfo>, index: U64, text: string)
    requires SpaceSchema(space, registers).Ok?
    ensures HasElement(SpaceSchema(space, registers).value, space.name, index, text) <==>
            exists info | info in registers :: !info.redirected && InRange(info, index) && Label(info, index) == text
    decreases |registers|
  {
    if registers != [] {
      var head, tail := registers[0], registers[1..];
      SpaceElements(space, tail, index, text);
      assert registers == [head] + tail;
      var rest := SpaceSchema(space, tail).value;
      if !head.redirected {
        var meta := Metadata(space, head).value;
        var e := Semantics.Element(index, text);
        InfoElements(head, e);
        assert SpaceSchema(space, registers).value == [meta] + rest;
        SplitElement([meta], rest, space.name, index, text);
        OneMeta(meta, index, text);
      }
    }
  }

  lemma SplitElement(a: seq<Semantics.RegisterMeta>, b: seq<Semantics.RegisterMeta>, space: string, index: int, text: string)
    ensures HasElement(a + b, space, index, text) <==> HasElement(a, space, index, text) || HasElement(b, space, index, text)
  {
    if m, e :| m in a && m.space == space && e in m.elements && e.index == index && e.text == text { assert m in a + b; }
    if m, e :| m in b && m.space == space && e in m.elements && e.index == index && e.text == text { assert m in a + b; }
  }

  lemma OneMeta(meta: Semantics.RegisterMeta, index: nat, text: string)
    ensures HasElement([meta], meta.space, index, text) <==> Semantics.Element(index, text) in meta.elements
  {}

  lemma {:induction false} SpaceMetas(space: RegisterSpace, registers: seq<RegisterInfo>)
    requires SpaceSchema(space, registers).Ok?
    ensures forall m | m in SpaceSchema(space, registers).value :: m.space == space.name
    decreases |registers|
  {
    SpaceSchemaBounds(space, registers);
  }

  /** The elements of the schema are the indexes of the declared registers, with the labels they print. */
  lemma {:induction false} SchemaElements(spaces: seq<RegisterSpace>, space: string, index: U64, text: string)
    requires BuildSchema(spaces).Ok?
    ensures HasElement(BuildSchema(spaces).value, space, index, text) <==> exists info :: Answers(spaces, space, info, index, text)
  {
    if spaces != [] {
      var head, rest := spaces[0], spaces[1..];
      SchemaElements(rest, space, index, text);
      SpaceElements(head, head.registers, index, text);
      SpaceMetas(head, head.registers);
      SplitElement(SpaceSchema(head, head.registers).value, BuildSchema(rest).value, space, index, text);
      forall info ensures HasRegister(spaces, space, info) <==> (head.name == space && info in head.registers) || HasRegister(rest, space, info) {
        HasRegisterTail(spaces, space, info);
      }
      if info :| Answers(spaces, space, info, index, text) {
        if !HasRegister(rest, space, info) { assert info in head.registers; }
        else { assert Answers(rest, space, info, index, text); }
      }
      if info :| Answers(rest, space, info, index, text) { assert Answers(spaces, space, info, index, text); }
      if head.name == space {
        if info :| info in head.registers && !info.redirected && InRange(info, index) && Label(info, index) == text {
          assert Answers(spaces, space, info, index, text);
        }
      }
    }
  }

  lemma HasRegisterTail(spaces: seq<RegisterSpace>, space: string, info: RegisterInfo)
    requires spaces != []
    ensures HasRegister(spaces, space, info) <==> (spaces[0].name == space && info in spaces[0].registers) || HasRegister(spaces[1..], space, info)
  {
    assert spaces == [spaces[0]] + spaces[1..];
    if HasRegister(spaces[1..], space, info) {
      var s :| s in spaces[1..] && s.name == space && info in s.registers;
      assert s in spaces;
    }
  }

  /** A machine whose core can be laid out has unique labels in every space. */
  lemma LayoutMakesLabelsUnique(spaces: seq<RegisterSpace>, space: string)
    requires BuildSchema(spaces).Ok? && FromMachine(spaces).Ok?
    ensures LabelsUnique(spaces, space)
  {
    forall a, b, i: U64, j: U64 |
      HasRegister(spaces, space, a) && !a.redirected && InRange(a, i) && HasRegister(spaces, space, b) && !b.redirected && InRange(b, j)
      && Label(a, i) == Label(b, j)
      ensures i == j
    {
      SchemaElements(spaces, space, i, Label(a, i));
      SchemaElements(spaces, space, j, Label(a, i));
      assert Answers(spaces, space, a, i, Label(a, i)) && Answers(spaces, space, b, j, Label(a, i));
      var schema := BuildSchema(spaces).value;
      var m, e :| m in schema && m.space == space && e in m.elements && e.index == i && e.text == Label(a, i);
      var n, f :| n in schema && n.space == space && f in n.elements && f.index == j && f.text == Label(a, i);
      SlotNamesDistinct(spaces, m, e, n, f);
    }
  }

  // ---- When the text gives the value back ----

  /** Some other register of the space prints the same text for the same value. */
  ghost predicate Namesake(names: RegisterNames, binding: Binding, value: U64) {
    exists info :: Answers(names.spaces, binding.space, info, value, RegisterText(names, binding, value))
      && FindInfo(names.spaces, binding) != Some(info)
  }

  /** The register is declared, is no redirect, and has an element of this index. */
  predicate OwnElement(names: RegisterNames, binding: Binding, value: U64) {
    var info := FindInfo(names.spaces, binding);
    info.Some? && !info.value.redirected && InRange(info.value, value)
  }

  /** Register operands need an index in the range of the register, or in that of a namesake; immediates must not be
      cut by the printer; a `reg` operation without a register never reads back; numbers must fit 63 bits. */
  ghost predicate Recoverable(names: RegisterNames, spec: Spec, field: FieldText, value: U64) {
    if field.register.Some? then
      OwnElement(names, field.register.value, value) || Namesake(names, field.register.value, value)
    else if Classify(field) == ImmediateOperand then
      value < WORD / 2 && (ImmediateWidth(spec) >= 64 || value < Pow2(ImmediateWidth(spec)))
    else value < WORD / 2 && forall op | op in field.operations :: !IsRegOp(op)
  }

  /** The schema is the one built from the spaces, and the labels of the register's space are unique. */
  ghost predicate ProperNames(names: RegisterNames, field: FieldText) {
    field.register.Some? ==> BuildSchema(names.spaces) == Ok(names.schema) && LabelsUnique(names.spaces, field.register.value.space)
  }

  lemma {:induction false} FindRegisterIn(registers: seq<RegisterInfo>, name: string)
    ensures var r := FindRegister(registers, name);
      (r.Some? ==> r.value in registers && r.value.name == name) && (r.None? ==> forall info | info in registers :: info.name != name)
  {
    if registers != [] {
      FindRegisterIn(registers[1..], name);
      assert registers == [registers[0]] + registers[1..];
    }
  }

  lemma {:induction false} FindInfoDeclared(spaces: seq<RegisterSpace>, binding: Binding)
    ensures var r := FindInfo(spaces, binding); r.Some? ==> HasRegister(spaces, binding.space, r.value) && r.value.name == binding.field
  {
    if spaces != [] {
      FindRegisterIn(spaces[0].registers, binding.field);
      FindInfoDeclared(spaces[1..], binding);
      if FindInfo(spaces, binding).Some? { HasRegisterTail(spaces, binding.space, FindInfo(spaces, binding).value); }
    }
  }

  lemma AnswersIff(names: RegisterNames, binding: Binding, value: U64)
    ensures (exists info :: Answers(names.spaces, binding.space, info, value, RegisterText(names, binding, value))) <==>
            OwnElement(names, binding, value) || Namesake(names, binding, value)
  {
    FindInfoDeclared(names.spaces, binding);
    var own := FindInfo(names.spaces, binding);
    if OwnElement(names, binding, value) {
      assert Answers(names.spaces, binding.space, own.value, value, RegisterText(names, binding, value));
    }
  }

  /** With unique labels, what the assembler finds under a text is the one element that prints it. */
  lemma RegisterReadsBackIff(names: RegisterNames, binding: Binding, value: U64)
    requires BuildSchema(names.spaces) == Ok(names.schema) && LabelsUnique(names.spaces, binding.space)
    ensures var found := Registers.FindByLabel(names.schema, binding.space, RegisterText(names, binding, value));
      (found.Some? && found.value.1.index == value) <==> OwnElement(names, binding, value) || Namesake(names, binding, value)
  {
    var text := RegisterText(names, binding, value);
    var found := Registers.FindByLabel(names.schema, binding.space, text);
    FindByLabelIn(names.schema, binding.space, text);
    AnswersIff(names, binding, value);
    SchemaElements(names.spaces, binding.space, value, text);
    if found.Some? && exists info :: Answers(names.spaces, binding.space, info, value, text) {
      FoundIsUnique(names, binding.space, found.value.0, found.value.1, value);
    }
  }

  lemma SchemaIndexes(spaces: seq<RegisterSpace>, meta: Semantics.RegisterMeta, e: Semantics.Element)
    requires BuildSchema(spaces).Ok? && meta in BuildSchema(spaces).value && e in meta.elements
    ensures e.index < 0x1_0000_0000
  {
    SchemaIndexesFrom(spaces, meta, e);
  }

  lemma {:induction false} SpaceIndexes(space: RegisterSpace, registers: seq<RegisterInfo>, meta: Semantics.RegisterMeta, e: Semantics.Element)
    requires SpaceSchema(space, registers).Ok? && meta in SpaceSchema(space, registers).value && e in meta.elements
    ensures e.index < 0x1_0000_0000
    decreases |registers|
  {
    if !registers[0].redirected && meta == Metadata(space, registers[0]).value {
      InfoElements(registers[0], e);
    } else {
      SpaceIndexes(space, registers[1..], meta, e);
    }
  }

  lemma {:induction false} SchemaIndexesFrom(spaces: seq<RegisterSpace>, meta: Semantics.RegisterMeta, e: Semantics.Element)
    requires BuildSchema(spaces).Ok? && meta in BuildSchema(spaces).value && e in meta.elements
    ensures e.index < 0x1_0000_0000
  {
    if meta in SpaceSchema(spaces[0], spaces[0].registers).value {
      SpaceIndexes(spaces[0], spaces[0].registers, meta, e);
    } else {
      SchemaIndexesFrom(spaces[1..], meta, e);
    }
  }

  lemma FoundIsUnique(names: RegisterNames, space: string, meta: Semantics.RegisterMeta, e: Semantics.Element, value: U64)
    requires BuildSchema(names.spaces) == Ok(names.schema) && LabelsUnique(names.spaces, space)
    requires meta in names.schema && meta.space == space && e in meta.elements
    requires exists info :: Answers(names.spaces, space, info, value, e.text)
    ensures e.index == value
  {
    SchemaIndexes(names.spaces, meta, e);
    SchemaElements(names.spaces, space, e.index, e.text);
    var info :| Answers(names.spaces, space, info, value, e.text);
    var other :| Answers(names.spaces, space, other, e.index, e.text);
  }

  lemma TruncatedIs(spec: Spec, value: U64)
    ensures Truncated(spec, value) == value <==> ImmediateWidth(spec) >= 64 || value < Pow2(ImmediateWidth(spec))
    ensures Truncated(spec, value) <= value
  {
    AndLowMask(value, ImmediateWidth(spec));
    LowAtMost(value, ImmediateWidth(spec));
    if value < Pow2(ImmediateWidth(spec)) { LowSmall(value, ImmediateWidth(spec)); }
  }

  lemma LowAtMost(x: nat, w: nat)
    ensures Low(x, w) <= x
  {
    if x < Pow2(w) { LowSmall(x, w); }
  }

  /** Printing a field value and reading the text gives the value back exactly when it is faithful. */
  lemma OperandReadsBackIff(names: RegisterNames, spec: Spec, field: FieldText, value: U64)
    requires ProperNames(names, field)
    ensures ParseOperand(names, field, FormatOperand(names, spec, field, value)) == Ok(value)
      <==> Recoverable(names, spec, field, value)
  {
    var text := FormatOperand(names, spec, field, value);
    if field.register.Some? {
      RegisterReadsBackIff(names, field.register.value, value);
    } else if Classify(field) == ImmediateOperand {
      TruncatedIs(spec, value);
      HexReadsBack(Truncated(spec, value), HexDigits(spec));
    } else if exists op | op in field.operations :: IsRegOp(op) {
      NumeralChars(value, 10, 1);
      LetterIsNoNumeral(text);
    } else {
      DecimalReadsBack(value);
    }
  }

  // ---- Registers without display patterns ----

  /** A register array without a display pattern has one label for each index. */
  lemma DefaultLabelsDistinct(a: RegisterInfo, b: RegisterInfo, i: U64, j: U64)
    requires a.display.None? && a.range.Some? && b.display.None? && b.range.Some? && a.name == b.name
    requires Label(a, i) == Label(b, j)
    ensures i == j
  {
    assert Label(a, i)[|a.name|..] == Decimal(i);
    assert Label(b, j)[|b.name|..] == Decimal(j);
    NumeralsDistinct(i, j, 10, 1);
  }

  /** One name is the other with a number after it. */
  ghost predicate Numbers(longer: string, shorter: string) {
    exists v: U64 :: longer == shorter + Decimal(v)
  }

  /** The registers of the space have no display patterns, each name is declared once, and none is this register's name
      with a number after it, or the other way round. */
  ghost predicate StandsAlone(spaces: seq<RegisterSpace>, binding: Binding) {
    forall info | HasRegister(spaces, binding.space, info) ::
      && info.display.None? && !Numbers(info.name, binding.field) && !Numbers(binding.field, info.name)
      && (info.name == binding.field ==> FindInfo(spaces, binding) == Some(info))
  }

  /** Of two names that print the same with numbers after them, the longer one is the shorter one with a number. */
  lemma NumberedApart(a: string, i: U64, b: string, j: U64)
    requires a + Decimal(i) == b + Decimal(j) && |a| < |b|
    ensures Numbers(b, a)
  {
    var text, n := a + Decimal(i), |b| - |a|;
    assert text[..|b|] == b && text[..|a|] == a && text[|a|..] == Decimal(i);
    assert b == a + Decimal(i)[..n];
    var v := DecimalPrefix(i, n);
  }

  lemma NamesApart(a: string, i: U64, b: string, j: U64)
    requires a + Decimal(i) == b + Decimal(j)
    ensures a == b || Numbers(a, b) || Numbers(b, a)
  {
    if |a| < |b| {
      NumberedApart(a, i, b, j);
    } else if |b| < |a| {
      NumberedApart(b, j, a, i);
    } else {
      assert (a + Decimal(i))[..|a|] == a && (b + Decimal(j))[..|a|] == b;
    }
  }

  /** Any element that carries the printed label is the register's own, at the printed index. */
  lemma OnlyOwnLabel(names: RegisterNames, binding: Binding, value: U64, info: RegisterInfo, index: U64)
    requires StandsAlone(names.spaces, binding) && Answers(names.spaces, binding.space, info, index, RegisterText(names, binding, value))
    ensures FindInfo(names.spaces, binding) == Some(info) && (info.range.Some? ==> index == value)
  {
    FindInfoDeclared(names.spaces, binding);
    var own, text := FindInfo(names.spaces, binding), RegisterText(names, binding, value);
    assert HasRegister(names.spaces, binding.space, info) && !Numbers(info.name, binding.field) && !Numbers(binding.field, info.name);
    if info.name == binding.field {
      if info.range.Some? { DefaultLabelsDistinct(info, info, index, value); }
    } else if info.range.Some? && text == binding.field + Decimal(value) {
      NamesApart(info.name, index, binding.field, value);
    }
  }

  /** A register operand reads back exactly when the register is declared, is no redirect, and its declared range holds
      the value. */
  lemma RegisterOperandIff(names: RegisterNames, spec: Spec, field: FieldText, value: U64)
    requires field.register.Some? && BuildSchema(names.spaces) == Ok(names.schema)
    requires StandsAlone(names.spaces, field.register.value)
    ensures ParseOperand(names, field, FormatOperand(names, spec, field, value)) == Ok(value) <==>
            OwnElement(names, field.register.value, value)
  {
    var binding, text := field.register.value, RegisterText(names, field.register.value, value);
    var found := Registers.FindByLabel(names.schema, binding.space, text);
    FindByLabelIn(names.schema, binding.space, text);
    FindInfoDeclared(names.spaces, binding);
    if found.Some? {
      var index := found.value.1.index;
      SchemaIndexes(names.spaces, found.value.0, found.value.1);
      SchemaElements(names.spaces, binding.space, index, text);
      var info :| Answers(names.spaces, binding.space, info, index, text);
      OnlyOwnLabel(names, binding, value, info, index);
    } else if OwnElement(names, binding, value) {
      SchemaElements(names.spaces, binding.space, value, text);
      assert Answers(names.spaces, binding.space, FindInfo(names.spaces, binding).value, value, text);
    }
  }

  /** A sign-extended immediate that is negative is printed without its extension, and the
      assembler then refuses the number it reads. */
  lemma NegativeImmediateRefused(names: RegisterNames, spec: Spec, field: FieldText, bits: nat, container: nat)
    requires ValidSpec(spec) && IsU64(bits) && IsU64(container) && Classify(field) == ImmediateOperand
    requires spec.pad.Some? && spec.pad.value.kind == SignPad && spec.pad.value.width > 0
    requires DataWidth(spec.segments) > 0 && Bit(Data(spec.segments, bits), DataWidth(spec.segments) - 1)
    ensures IsU64(ReadBits(spec, bits).0)
    ensures var read := ParseOperand(names, field, FormatOperand(names, spec, field, ReadBits(spec, bits).0));
      read == Ok(Data(spec.segments, bits)) && WriteBits(spec, container, Data(spec.segments, bits)) == Err(PadBitsMismatch)
  {
    var data := Data(spec.segments, bits);
    DataBits(spec.segments, bits);
    NegativeTruncated(spec, bits);
    Pow2Within(DataWidth(spec.segments));
    HexReadsBack(data, HexDigits(spec));
    UnextendedRefused(spec, container, data);
  }

  /** A sign pad asks for copies of the sign bit. */
  lemma UnextendedRefused(spec: Spec, container: nat, data: nat)
    requires ValidSpec(spec) && IsU64(container) && data < Pow2(DataWidth(spec.segments))
    requires spec.pad.Some? && spec.pad.value.kind == SignPad && spec.pad.value.width > 0
    requires DataWidth(spec.segments) > 0 && Bit(data, DataWidth(spec.segments) - 1)
    ensures WriteBits(spec, container, data) == Err(PadBitsMismatch)
  {
    var width, pad := DataWidth(spec.segments), spec.pad.value.width;
    ShrZero(data, width);
    Pow2Monotone(width, width + pad);
    ShrZero(data, width + pad);
    BitShr(data, width - 1, 0);
    MaskIs(pad);
    Pow2Monotone(1, pad);
    assert Pow2(1) == 2;
  }

  /** What the printer keeps of a sign-extended value is the data it was extended from. */
  lemma NegativeTruncated(spec: Spec, bits: nat)
    requires ValidSpec(spec) && IsU64(bits) && spec.pad.Some? && spec.pad.value.width > 0
    ensures DataWidth(spec.segments) < 64 && IsU64(ReadBits(spec, bits).0)
    ensures Truncated(spec, ReadBits(spec, bits).0) == Data(spec.segments, bits)
  {
    var value, data, width := ReadBits(spec, bits).0, Data(spec.segments, bits), DataWidth(spec.segments);
    ReadIsU64(spec, bits);
    DataBits(spec.segments, bits);
    DataWidthPositive(spec.segments);
    ReadBitsBits(spec, bits);
    HighBitsClear(data, width);
    forall q: nat ensures Bit(And(value, LowMask(width)), q) == Bit(data, q) {
      BitAnd(value, LowMask(width), q);
      BitMask(width, q);
    }
    BitExt(And(value, LowMask(width)), data);
  }

  /** An immediate prints its low data bits, in as many hexadecimal digits as they need. */
  lemma ImmediateText(names: RegisterNames, spec: Spec, field: FieldText, value: U64) returns (digits: string)
    requires Classify(field) == ImmediateOperand && 1 <= DataWidth(spec.segments) <= 64
    ensures FormatOperand(names, spec, field, value) == "0x" + digits
    ensures |digits| == (DataWidth(spec.segments) + 3) / 4 && Positional(digits, 16) == Some(Low(value, DataWidth(spec.segments)))
  {
    var width := DataWidth(spec.segments);
    digits := Numeral(Truncated(spec, value), 16, HexDigits(spec));
    AndLowMask(value, width);
    Pow2Monotone(width, 4 * HexDigits(spec));
    if width == 64 { WordIsPow2(); LowSmall(value, 64); }
    PaddedLength(Truncated(spec, value), HexDigits(spec));
    PositionalOfNumeral(Truncated(spec, value), 16, HexDigits(spec));
  }
}
