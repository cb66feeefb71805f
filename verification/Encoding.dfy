/** The assembler of `src/soc/isa/machine/assembly.rs` and the pattern builder of
    `disassembly.rs`: two loops over the same mask fields that must agree. */
module Encoding {
  import opened Words
  import opened Results
  import opened BitFields
  import opened BitFieldLaws
  import opened Machine

  // ---- The two mask folds ----

  /** `(bits & !field_mask) | encoded` */
  function Overlay(bits: nat, mask: nat, encoded: nat): nat
    requires IsU64(mask)
  {
    Or(And(bits, Not64(mask)), encoded)
  }

  predicate ValidEntries(entries: seq<(nat, nat)>) {
    forall e | e in entries :: IsU64(e.0) && IsU64(e.1) && And(e.1, e.0) == e.1
  }

  /** The assembler's loop: the encoded constant is masked once more. */
  function EncoderFold(entries: seq<(nat, nat)>, bits: nat): nat
    requires ValidEntries(entries)
  {
    if entries == [] then bits
    else EncoderFold(entries[1..], Overlay(bits, entries[0].0, And(entries[0].1, entries[0].0)))
  }

  /** The pattern builder's loop over `mask` and `value_bits`. */
  function PatternFold(entries: seq<(nat, nat)>, mask: nat, value: nat): (nat, nat)
    requires ValidEntries(entries)
  {
    if entries == [] then (mask, value)
    else PatternFold(entries[1..], Or(mask, entries[0].0), Overlay(value, entries[0].0, entries[0].1))
  }

  predicate Inside(value: nat, mask: nat) {
    And(value, mask) == value
  }

  lemma InsideBits(value: nat, mask: nat)
    requires Inside(value, mask)
    ensures forall i: nat | Bit(value, i) :: Bit(mask, i)
  {
    forall i: nat | Bit(value, i) ensures Bit(mask, i) { BitAnd(value, mask, i); }
  }

  lemma InsideFromBits(value: nat, mask: nat)
    requires forall i: nat | Bit(value, i) :: Bit(mask, i)
    ensures Inside(value, mask)
  {
    forall i: nat ensures Bit(And(value, mask), i) == Bit(value, i) { BitAnd(value, mask, i); }
    BitExt(And(value, mask), value);
  }

  lemma OverlayBit(bits: nat, mask: nat, encoded: nat, i: nat)
    requires IsU64(bits) && IsU64(mask) && IsU64(encoded) && Inside(encoded, mask)
    ensures IsU64(Overlay(bits, mask, encoded))
    ensures Bit(Overlay(bits, mask, encoded), i) == if Bit(mask, i) then Bit(encoded, i) else Bit(bits, i)
  {
    AndIsU64(bits, Not64(mask));
    OrIsU64(And(bits, Not64(mask)), encoded);
    BitOr(And(bits, Not64(mask)), encoded, i);
    BitAnd(bits, Not64(mask), i);
    BitNot64(mask, i);
    BitAnd(encoded, mask, i);
    WordBits(bits);
  }

  /** Over any list of mask fields, overlapping ones included, the pattern's value is the
      word the assembler has before it places operands, and it lies inside the mask. */
  lemma {:induction false} FoldsAgree(entries: seq<(nat, nat)>, mask: nat, value: nat)
    requires ValidEntries(entries) && IsU64(mask) && IsU64(value) && Inside(value, mask)
    ensures var (m, v) := PatternFold(entries, mask, value);
      && IsU64(m) && IsU64(v) && Inside(v, m)
      && EncoderFold(entries, value) == v
      && (forall i: nat | Bit(mask, i) :: Bit(m, i))
    decreases |entries|
  {
    if entries != [] {
      var (fm, encoded) := entries[0];
      assert (fm, encoded) in entries;
      var mask', value' := Or(mask, fm), Overlay(value, fm, encoded);
      OrIsU64(mask, fm);
      OverlayBit(value, fm, encoded, 0);
      InsideBits(value, mask);
      forall i: nat
        ensures Bit(value', i) ==> Bit(mask', i)
        ensures Bit(mask, i) ==> Bit(mask', i)
      {
        OverlayBit(value, fm, encoded, i);
        BitOr(mask, fm, i);
      }
      InsideFromBits(value', mask');
      FoldsAgree(entries[1..], mask', value');
    }
  }

  lemma {:induction false} EntriesValid(instr: Instruction, space: Space, wordBits: nat, fields: seq<MaskField>)
    requires forall name | name in space.forms :: ValidForm(space.forms[name], wordBits)
    requires MaskEntries(instr, space, wordBits, fields).Ok?
    ensures ValidEntries(MaskEntries(instr, space, wordBits, fields).value)
    ensures forall e | e in MaskEntries(instr, space, wordBits, fields).value :: e.0 < Pow2(wordBits)
  {
    if fields != [] {
      var spec := ResolveSelector(instr, space, wordBits, fields[0].selector).value;
      SelectorIsValid(instr, space, wordBits, fields[0].selector);
      EncodeConstantPlaces(spec, fields[0].value);
      var (mask, encoded) := EncodeConstant(spec, fields[0].value).value;
      InsideFromBits(encoded, mask);
      forall i: nat | i >= wordBits ensures !Bit(mask, i) { FieldStaysInWord(spec, wordBits, i); }
      HighBitsClearBelow(mask, wordBits);
      EntriesValid(instr, space, wordBits, fields[1..]);
    }
  }

  lemma FieldStaysInWord(spec: Spec, wordBits: nat, i: nat)
    requires FieldInWord(spec, wordBits) && i >= wordBits
    ensures !Occupied(spec.segments, i)
  {}

  /** The word after the mask fields, starting from `bits`. */
  function EncodeMask(instr: Instruction, space: Space, fields: seq<MaskField>, bits: nat): Result<nat, IsaError>
    requires space.wordBits.Some? && FormsBuilt(space)
  {
    var entries :- MaskEntries(instr, space, space.wordBits.value, fields);
    EntriesValid(instr, space, space.wordBits.value, fields);
    Ok(EncoderFold(entries, bits))
  }

  /** The pattern's mask and value after the mask fields. */
  function PatternMask(instr: Instruction, space: Space, fields: seq<MaskField>, mask: nat, value: nat): Result<(nat, nat), IsaError>
    requires space.wordBits.Some? && FormsBuilt(space)
  {
    var entries :- MaskEntries(instr, space, space.wordBits.value, fields);
    EntriesValid(instr, space, space.wordBits.value, fields);
    Ok(PatternFold(entries, mask, value))
  }

  // ---- Operands ----

  type Operand = (string, I64)

  function WriteOperand(form: Form, bits: nat, operand: Operand): Result<nat, IsaError>
    requires forall name | name in form.fields :: ValidSpec(form.fields[name])
  {
    if operand.0 !in form.fields then Err(UnknownOperand(operand.0))
    else
      assert ValidSpec(form.fields[operand.0]);
      var written := WriteBits(form.fields[operand.0], bits, AsU64(operand.1));
      if written.Ok? then Ok(written.value) else Err(OperandDoesNotFit(operand.0, written.error))
  }

  function WriteOperands(form: Form, bits: nat, operands: seq<Operand>): Result<nat, IsaError>
    requires forall name | name in form.fields :: ValidSpec(form.fields[name])
    decreases |operands|
  {
    if operands == [] then Ok(bits)
    else
      assert operands[0] in operands;
      var next :- WriteOperand(form, bits, operands[0]);
      WriteOperands(form, next, operands[1..])
  }

  // ---- Words and bytes ----

  /** `write_word`: byte k of an n-byte buffer. */
  function WordByte(bits: nat, n: nat, endianness: Endianness, k: nat): Byte
    requires k < n
  {
    var shift := if endianness.Little? then 8 * k else 8 * (n - 1 - k);
    Shr(bits, shift) % 256
  }

  /** Bytes k and after of the buffer. */
  function WordBytesFrom(bits: nat, n: nat, endianness: Endianness, k: nat): (r: seq<Byte>)
    requires k <= n
    ensures |r| == n - k
    decreases n - k
  {
    if k == n then [] else [WordByte(bits, n, endianness, k)] + WordBytesFrom(bits, n, endianness, k + 1)
  }

  function WordBytes(bits: nat, n: nat, endianness: Endianness): (r: seq<Byte>)
    ensures |r| == n
  {
    WordBytesFrom(bits, n, endianness, 0)
  }

  lemma {:induction false} WordBytesAt(bits: nat, n: nat, endianness: Endianness, k: nat, j: nat)
    requires k <= j < n
    ensures WordBytesFrom(bits, n, endianness, k)[j - k] == WordByte(bits, n, endianness, j)
    decreases n - k
  {
    if k < j { WordBytesAt(bits, n, endianness, k + 1, j); }
  }

  /** A byte string with the right bytes is the buffer. */
  lemma WordBytesAre(bits: nat, n: nat, endianness: Endianness, bytes: seq<Byte>)
    requires |bytes| == n && forall j | 0 <= j < n :: bytes[j] == WordByte(bits, n, endianness, j)
    ensures WordBytes(bits, n, endianness) == bytes
  {
    forall j | 0 <= j < n ensures WordBytes(bits, n, endianness)[j] == bytes[j] {
      WordBytesAt(bits, n, endianness, 0, j);
    }
  }

  /** The instruction word before it is cut into bytes. */
  function EncodeWord(space: Space, instr: Instruction, operands: seq<Operand>): Result<nat, IsaError>
    requires space.wordBits.Some? && FormsBuilt(space)
  {
    var bits :- if instr.mask.Some? then EncodeMask(instr, space, instr.mask.value, 0) else Ok(0);
    if instr.form.Some? then
      if instr.form.value !in space.forms then Err(UndefinedForm)
      else
        assert ValidForm(space.forms[instr.form.value], space.wordBits.value);
        WriteOperands(space.forms[instr.form.value], bits, operands)
    else if operands != [] then Err(TakesNoOperands)
    else Ok(bits)
  }

  /** `encode_with_operands` in a space of the machine, whose words may turn out to have no size or not to be whole bytes. */
  function Encode(space: Space, instr: Instruction, operands: seq<Operand>): Result<seq<Byte>, IsaError>
    requires FormsBuilt(space)
  {
    var width :- WordWidth(space);
    var bits :- EncodeWord(space, instr, operands);
    Ok(WordBytes(bits, width / 8, space.endianness))
  }

  // ---- Patterns ----

  datatype Pattern = Pattern(
    instruction: nat, space: string, form: Option<string>, mask: nat, value: nat,
    operandNames: seq<string>, specificity: nat)

  function CountOnes(x: nat): nat {
    if x == 0 then 0 else x % 2 + CountOnes(x / 2)
  }

  function OperandNames(space: Space, instr: Instruction): seq<string> {
    if instr.operands != [] then instr.operands
    else if instr.form.Some? && instr.form.value in space.forms then space.forms[instr.form.value].operandOrder
    else []
  }

  /** `build_pattern` for an instruction that declares a mask in a logic space. */
  function BuildPattern(space: Space, idx: nat, instr: Instruction): Result<Option<Pattern>, IsaError>
    requires space.logic ==> FormsBuilt(space)
  {
    if instr.mask.None? || !space.logic then Ok(None)
    else
      var width :- WordWidth(space);
      var (mask, value) :- PatternMask(instr, space, instr.mask.value, 0, 0);
      Ok(Some(Pattern(idx, instr.space, instr.form, mask, value, OperandNames(space, instr), CountOnes(mask))))
  }

  // ---- What an encoded word is ----

  /** Each named operand has a field of its own: distinct names, fields that share no bit
      with one another, and slices that share none within a field. */
  ghost predicate OperandsSeparate(form: Form, operands: seq<Operand>) {
    && (forall k | 0 <= k < |operands| ::
          operands[k].0 in form.fields && Disjoint(form.fields[operands[k].0].segments))
    && (forall k, l, i: nat | 0 <= k < l < |operands| && Occupied(form.fields[operands[k].0].segments, i) ::
          !Occupied(form.fields[operands[l].0].segments, i))
  }

  /** No operand field takes a bit of the mask. */
  ghost predicate OperandsAvoid(form: Form, operands: seq<Operand>, mask: nat) {
    forall k, i: nat | 0 <= k < |operands| && operands[k].0 in form.fields
      && Occupied(form.fields[operands[k].0].segments, i) :: !Bit(mask, i)
  }

  /** A field's value depends only on the bits it occupies. */
  lemma ReadLocal(spec: Spec, a: nat, b: nat)
    requires ValidSpec(spec) && forall i: nat | Occupied(spec.segments, i) :: Bit(a, i) == Bit(b, i)
    ensures ReadBits(spec, a) == ReadBits(spec, b)
  {
    ReadBitsBits(spec, a);
    ReadBitsBits(spec, b);
    DataWidthPositive(spec.segments);
    forall q: nat | q < DataWidth(spec.segments) ensures DataBit(spec.segments, a, q) == DataBit(spec.segments, b, q) {
      DataBitLocal(spec.segments, a, b, q);
    }
    forall q: nat ensures Bit(ReadBits(spec, a).0, q) == Bit(ReadBits(spec, b).0, q) {
      assert Bit(ReadBits(spec, a).0, q) == FieldBit(spec, a, q);
    }
    BitExt(ReadBits(spec, a).0, ReadBits(spec, b).0);
  }

  lemma {:induction false} DataBitLocal(segments: seq<Segment>, a: nat, b: nat, q: nat)
    requires forall i: nat | Occupied(segments, i) :: Bit(a, i) == Bit(b, i)
    ensures DataBit(segments, a, q) == DataBit(segments, b, q)
    decreases |segments|
  {
    if segments != [] {
      var tail, below := segments[1..], DataWidth(segments[1..]);
      if q < below {
        forall i: nat | Occupied(tail, i) ensures Bit(a, i) == Bit(b, i) {
          WrittenIffOccupied(tail, 0, i);
          WrittenIffOccupied(segments, 0, i);
        }
        DataBitLocal(tail, a, b, q);
      } else if q - below < segments[0].width && segments[0].Slice? {
        assert Covers(segments[0], segments[0].offset + (q - below));
        assert Occupied(segments, segments[0].offset + (q - below));
      }
    }
  }

  /** Placed operands read back, and every bit outside their fields is as it was. */
  lemma {:induction false} WriteOperandsReadBack(form: Form, wordBits: nat, bits: nat, operands: seq<Operand>)
    requires wordBits <= 64 && ValidForm(form, wordBits) && IsU64(bits)
    requires OperandsSeparate(form, operands) && WriteOperands(form, bits, operands).Ok?
    ensures var out := WriteOperands(form, bits, operands).value;
      && IsU64(out)
      && (forall i: nat | (forall k | 0 <= k < |operands| :: !Occupied(form.fields[operands[k].0].segments, i)) ::
            Bit(out, i) == Bit(bits, i))
      && (forall k | 0 <= k < |operands| :: ReadBits(form.fields[operands[k].0], out).0 == AsU64(operands[k].1))
    decreases |operands|
  {
    if operands != [] {
      var head, tail := operands[0], operands[1..];
      assert head in operands && head.0 in form.fields;
      var spec := form.fields[head.0];
      assert FieldInWord(spec, wordBits);
      WriteFrame(spec, bits, AsU64(head.1));
      PutGet(spec, bits, AsU64(head.1));
      var next := WriteOperand(form, bits, head).value;
      OperandsSeparateTail(form, operands);
      WriteOperandsReadBack(form, wordBits, next, tail);
      var out := WriteOperands(form, next, tail).value;
      forall i: nat | (forall k | 0 <= k < |operands| :: !Occupied(form.fields[operands[k].0].segments, i))
        ensures Bit(out, i) == Bit(bits, i)
      {
        assert forall k | 0 <= k < |tail| :: tail[k] == operands[k + 1];
        assert !Occupied(form.fields[operands[0].0].segments, i);
      }
      forall i: nat | Occupied(spec.segments, i) ensures Bit(out, i) == Bit(next, i) {
        assert Occupied(form.fields[operands[0].0].segments, i);
        assert forall k | 0 <= k < |tail| :: tail[k] == operands[k + 1];
      }
      ReadLocal(spec, out, next);
      forall k | 0 <= k < |operands| ensures ReadBits(form.fields[operands[k].0], out).0 == AsU64(operands[k].1) {
        if k > 0 { assert tail[k - 1] == operands[k]; }
      }
    }
  }

  lemma OperandsSeparateTail(form: Form, operands: seq<Operand>)
    requires operands != [] && OperandsSeparate(form, operands)
    ensures OperandsSeparate(form, operands[1..])
  {
    var tail := operands[1..];
    forall k | 0 <= k < |tail| ensures tail[k].0 in form.fields && Disjoint(form.fields[tail[k].0].segments) {
      assert tail[k] == operands[k + 1];
    }
    forall k, l, i: nat | 0 <= k < l < |tail| && Occupied(form.fields[tail[k].0].segments, i)
      ensures !Occupied(form.fields[tail[l].0].segments, i)
    {
      assert tail[k] == operands[k + 1] && tail[l] == operands[l + 1];
    }
  }

  // ---- The loops of the source ----

  /** `write_word` fills its buffer in place. */
  method WriteWord(bits: nat, buffer: array<Byte>, endianness: Endianness)
    modifies buffer
    ensures buffer[..] == WordBytes(bits, buffer.Length, endianness)
  {
    var n := buffer.Length;
    var idx := 0;
    while idx < n
      invariant 0 <= idx <= n
      invariant forall k | 0 <= k < idx :: buffer[k] == WordByte(bits, n, endianness, k)
    {
      var shift := if endianness.Little? then 8 * idx else 8 * (n - 1 - idx);
      buffer[idx] := Shr(bits, shift) % 256;
      idx := idx + 1;
    }
    WordBytesAre(bits, n, endianness, buffer[..]);
  }

  lemma EncodeMaskStep(instr: Instruction, space: Space, fields: seq<MaskField>, bits: nat)
    requires space.wordBits.Some? && FormsBuilt(space) && fields != []
    ensures var entry := MaskEntry(instr, space, space.wordBits.value, fields[0]);
      && (entry.Err? ==> EncodeMask(instr, space, fields, bits) == Err(entry.error))
      && (entry.Ok? ==> IsU64(entry.value.0))
      && (entry.Ok? ==>
            EncodeMask(instr, space, fields, bits)
            == EncodeMask(instr, space, fields[1..], Overlay(bits, entry.value.0, And(entry.value.1, entry.value.0))))
  {
    var entry := MaskEntry(instr, space, space.wordBits.value, fields[0]);
    if entry.Ok? {
      EntryIsU64(instr, space, fields[0]);
      var rest := MaskEntries(instr, space, space.wordBits.value, fields[1..]);
      if rest.Ok? { assert ([entry.value] + rest.value)[1..] == rest.value; }
    }
  }

  lemma PatternMaskStep(instr: Instruction, space: Space, fields: seq<MaskField>, mask: nat, value: nat)
    requires space.wordBits.Some? && FormsBuilt(space) && fields != []
    ensures var entry := MaskEntry(instr, space, space.wordBits.value, fields[0]);
      && (entry.Err? ==> PatternMask(instr, space, fields, mask, value) == Err(entry.error))
      && (entry.Ok? ==> IsU64(entry.value.0))
      && (entry.Ok? ==>
            PatternMask(instr, space, fields, mask, value)
            == PatternMask(instr, space, fields[1..], Or(mask, entry.value.0), Overlay(value, entry.value.0, entry.value.1)))
  {
    var entry := MaskEntry(instr, space, space.wordBits.value, fields[0]);
    if entry.Ok? {
      EntryIsU64(instr, space, fields[0]);
      var rest := MaskEntries(instr, space, space.wordBits.value, fields[1..]);
      if rest.Ok? { assert ([entry.value] + rest.value)[1..] == rest.value; }
    }
  }

  lemma EntryIsU64(instr: Instruction, space: Space, field: MaskField)
    requires space.wordBits.Some? && FormsBuilt(space)
    requires MaskEntry(instr, space, space.wordBits.value, field).Ok?
    ensures IsU64(MaskEntry(instr, space, space.wordBits.value, field).value.0)
  {
    var spec := ResolveSelector(instr, space, space.wordBits.value, field.selector).value;
    SelectorIsValid(instr, space, space.wordBits.value, field.selector);
    EncodeConstantPlaces(spec, field.value);
  }

  /** `encode_with_operands`: the mask loop, the operand loop, and the buffer. */
  method EncodeWithOperands(space: Space, instr: Instruction, operands: seq<Operand>) returns (r: Result<seq<Byte>, IsaError>)
    requires FormsBuilt(space)
    ensures r == Encode(space, instr, operands)
  {
    var width := WordWidth(space);
    if width.Err? { return Err(width.error); }
    var bits: nat := 0;
    if instr.mask.Some? {
      var fields, k := instr.mask.value, 0;
      assert fields[0..] == fields;
      while k < |fields|
        invariant 0 <= k <= |fields|
        invariant EncodeMask(instr, space, fields[k..], bits) == EncodeMask(instr, space, fields, 0)
      {
        EncodeMaskStep(instr, space, fields[k..], bits);
        assert fields[k..][1..] == fields[k + 1..];
        var entry := MaskEntry(instr, space, space.wordBits.value, fields[k]);
        if entry.Err? { return Err(entry.error); }
        bits := Overlay(bits, entry.value.0, And(entry.value.1, entry.value.0));
        k := k + 1;
      }
    }
    ghost var masked := bits;
    if instr.form.Some? {
      if instr.form.value !in space.forms { return Err(UndefinedForm); }
      var form, k := space.forms[instr.form.value], 0;
      assert ValidForm(form, space.wordBits.value);
      assert operands[0..] == operands;
      while k < |operands|
        invariant 0 <= k <= |operands|
        invariant WriteOperands(form, bits, operands[k..]) == WriteOperands(form, masked, operands)
      {
        assert operands[k..][0] == operands[k] && operands[k..][1..] == operands[k + 1..];
        assert operands[k] in operands;
        var next := WriteOperand(form, bits, operands[k]);
        if next.Err? { return Err(next.error); }
        bits := next.value;
        k := k + 1;
      }
    } else if operands != [] {
      return Err(TakesNoOperands);
    }
    var buffer := new Byte[width.value / 8];
    WriteWord(bits, buffer, space.endianness);
    r := Ok(buffer[..]);
  }

  /** The mask loop of `build_pattern`, with its running `mask` and `value_bits`. */
  method BuildPatternLoop(space: Space, idx: nat, instr: Instruction) returns (r: Result<Option<Pattern>, IsaError>)
    requires space.logic ==> FormsBuilt(space)
    ensures r == BuildPattern(space, idx, instr)
  {
    if instr.mask.None? || !space.logic { return Ok(None); }
    var width := WordWidth(space);
    if width.Err? { return Err(width.error); }
    var fields, k := instr.mask.value, 0;
    var mask: nat, value: nat := 0, 0;
    assert fields[0..] == fields;
    while k < |fields|
      invariant 0 <= k <= |fields|
      invariant PatternMask(instr, space, fields[k..], mask, value) == PatternMask(instr, space, fields, 0, 0)
    {
      PatternMaskStep(instr, space, fields[k..], mask, value);
      assert fields[k..][1..] == fields[k + 1..];
      var entry := MaskEntry(instr, space, space.wordBits.value, fields[k]);
      if entry.Err? { return Err(entry.error); }
      mask, value := Or(mask, entry.value.0), Overlay(value, entry.value.0, entry.value.1);
      k := k + 1;
    }
    r := Ok(Some(Pattern(idx, instr.space, instr.form, mask, value, OperandNames(space, instr), CountOnes(mask))));
  }
}
