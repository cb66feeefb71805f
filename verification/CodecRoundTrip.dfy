/** Assembling a program and decoding its bytes gives the program back. */
module CodecRoundTrip {
  import opened Words
  import opened Results
  import opened Seqs
  import opened BitFields
  import opened BitFieldLaws
  import opened Machine
  import opened Encoding
  import opened Decoding

  /** A machine: its spaces in name order and its instructions in declaration order. */
  datatype InstructionSet = InstructionSet(spaces: seq<Space>, instructions: seq<Instruction>)

  /** The logic spaces have whole-byte words of 8 to 64 bits. */
  predicate ValidIsa(isa: InstructionSet) {
    forall s | s in isa.spaces :: s.logic ==> ValidSpace(s)
  }

  function FindSpace(spaces: seq<Space>, name: string): (r: Option<Space>)
    ensures r.Some? ==> r.value in spaces && r.value.name == name
  {
    if spaces == [] then None
    else if spaces[0].name == name then Some(spaces[0])
    else FindSpace(spaces[1..], name)
  }

  /** The pattern of one instruction; an instruction without a mask has none. */
  function PatternOf(isa: InstructionSet, idx: nat): Result<Option<Pattern>, IsaError>
    requires ValidIsa(isa) && idx < |isa.instructions|
  {
    var instr := isa.instructions[idx];
    if instr.mask.None? then Ok(None)
    else
      var space := FindSpace(isa.spaces, instr.space);
      if space.None? then Err(UnknownSpace) else BuildPattern(space.value, idx, instr)
  }

  /** `build_patterns`, from instruction `idx` on. */
  function BuildPatterns(isa: InstructionSet, idx: nat): Result<seq<Pattern>, IsaError>
    requires ValidIsa(isa) && idx <= |isa.instructions|
    decreases |isa.instructions| - idx
  {
    if idx == |isa.instructions| then Ok([])
    else
      var pattern :- PatternOf(isa, idx);
      var rest :- BuildPatterns(isa, idx + 1);
      Ok(if pattern.Some? then [pattern.value] + rest else rest)
  }

  /** The pattern list holds the pattern of each instruction that has one, and nothing else. */
  lemma {:induction false} PatternsOf(isa: InstructionSet, idx: nat)
    requires ValidIsa(isa) && idx <= |isa.instructions| && BuildPatterns(isa, idx).Ok?
    ensures forall p :: p in BuildPatterns(isa, idx).value ==>
      idx <= p.instruction < |isa.instructions| && PatternOf(isa, p.instruction) == Ok(Some(p))
    ensures forall i | idx <= i < |isa.instructions| ::
      PatternOf(isa, i).Ok? && (PatternOf(isa, i).value.Some? ==> PatternOf(isa, i).value.value in BuildPatterns(isa, idx).value)
    decreases |isa.instructions| - idx
  {
    if idx < |isa.instructions| {
      PatternsOf(isa, idx + 1);
    }
  }

  // ---- Words survive the byte layout ----

  lemma {:induction false} BytesDetermine(x: nat, y: nat, n: nat)
    requires x < Pow2(8 * n) && y < Pow2(8 * n)
    requires forall k | 0 <= k < n :: Shr(x, 8 * k) % 256 == Shr(y, 8 * k) % 256
    ensures x == y
    decreases n
  {
    if n > 0 {
      assert Shr(x, 8 * 0) == x && Shr(y, 8 * 0) == y;
      assert x % 256 == y % 256;
      assert Pow2(8) == 256;
      Pow2Add(8, 8 * (n - 1));
      forall k | 0 <= k < n - 1 ensures Shr(x / 256, 8 * k) % 256 == Shr(y / 256, 8 * k) % 256 {
        ShiftByte(x, k + 1);
        ShiftByte(y, k + 1);
        assert Shr(x, 8 * (k + 1)) % 256 == Shr(y, 8 * (k + 1)) % 256;
      }
      BytesDetermine(x / 256, y / 256, n - 1);
    }
  }

  /** Byte k, counted from the least significant, in either layout. */
  lemma SignificantByte(bits: nat, n: nat, endianness: Endianness, k: nat)
    requires k < n
    ensures WordBytes(bits, n, endianness)[if endianness.Little? then k else n - 1 - k] == Shr(bits, 8 * k) % 256
  {
    WordBytesAt(bits, n, endianness, 0, if endianness.Little? then k else n - 1 - k);
  }

  /** Laying a word out and decoding it, in either byte order, gives the word. */
  lemma WordOfBytes(bits: nat, n: nat, endianness: Endianness)
    requires bits < Pow2(8 * n)
    ensures DecodeWord(WordBytes(bits, n, endianness), endianness) == bits
  {
    var bytes := WordBytes(bits, n, endianness);
    var w := DecodeWord(bytes, endianness);
    DecodeWordBound(bytes, endianness);
    BytesOfWord(bytes, endianness);
    forall k | 0 <= k < n ensures Shr(w, 8 * k) % 256 == Shr(bits, 8 * k) % 256 {
      SignificantByte(bits, n, endianness, k);
      SignificantByte(w, n, endianness, k);
    }
    BytesDetermine(w, bits, n);
  }

  // ---- The encoded word ----

  /** The pattern of an instruction and the word it is encoded to, for one set of operands. */
  ghost predicate Assembled(space: Space, idx: nat, instr: Instruction, operands: seq<Operand>, pattern: Pattern, word: nat)
    requires ValidSpace(space)
  {
    && space.logic && instr.mask.Some? && BuildPattern(space, idx, instr) == Ok(Some(pattern))
    && EncodeWord(space, instr, operands) == Ok(word)
    && (instr.form.Some? ==>
          && OperandsSeparate(space.forms[instr.form.value], operands)
          && OperandsAvoid(space.forms[instr.form.value], operands, pattern.mask))
  }

  lemma {:induction false} FoldInWord(entries: seq<(nat, nat)>, mask: nat, value: nat, w: nat)
    requires ValidEntries(entries) && mask < Pow2(w) && forall e | e in entries :: e.0 < Pow2(w)
    ensures PatternFold(entries, mask, value).0 < Pow2(w)
    decreases |entries|
  {
    if entries != [] {
      assert entries[0] in entries;
      var next := Or(mask, entries[0].0);
      HighBitsClear(mask, w);
      HighBitsClear(entries[0].0, w);
      forall i: nat | i >= w ensures !Bit(next, i) { BitOr(mask, entries[0].0, i); }
      HighBitsClearBelow(next, w);
      FoldInWord(entries[1..], next, Overlay(value, entries[0].0, entries[0].1), w);
    }
  }

  /** What the mask fields leave: the pattern's value, inside the pattern's mask, inside the word. */
  lemma MaskedWord(space: Space, idx: nat, instr: Instruction, pattern: Pattern)
    requires ValidSpace(space) && space.logic && instr.mask.Some?
    requires BuildPattern(space, idx, instr) == Ok(Some(pattern))
    ensures EncodeMask(instr, space, instr.mask.value, 0) == Ok(pattern.value)
    ensures IsU64(pattern.mask) && IsU64(pattern.value) && Inside(pattern.value, pattern.mask)
    ensures pattern.mask < Pow2(space.wordBits.value)
    ensures pattern.specificity == CountOnes(pattern.mask)
  {
    var entries := MaskEntries(instr, space, space.wordBits.value, instr.mask.value).value;
    EntriesValid(instr, space, space.wordBits.value, instr.mask.value);
    FoldsAgree(entries, 0, 0);
    FoldInWord(entries, 0, 0, space.wordBits.value);
  }

  /** An encoded word fits its space, matches its own pattern and holds its operands. */
  lemma AssembledWord(space: Space, idx: nat, instr: Instruction, operands: seq<Operand>, pattern: Pattern, word: nat)
    requires ValidSpace(space)
    requires Assembled(space, idx, instr, operands, pattern, word)
    ensures word < Pow2(space.wordBits.value)
    ensures And(word, pattern.mask) == pattern.value
    ensures instr.form.Some? ==> forall k | 0 <= k < |operands| ::
      operands[k].0 in space.forms[instr.form.value].fields &&
      ReadBits(space.forms[instr.form.value].fields[operands[k].0], word).0 == AsU64(operands[k].1)
  {
    var w := space.wordBits.value;
    MaskedWord(space, idx, instr, pattern);
    InsideBits(pattern.value, pattern.mask);
    HighBitsClear(pattern.mask, w);
    if instr.form.Some? {
      var form := space.forms[instr.form.value];
      assert ValidForm(form, w);
      WriteOperandsReadBack(form, w, pattern.value, operands);
      forall i: nat
        ensures i >= w ==> !Bit(word, i)
        ensures Bit(pattern.mask, i) ==> Bit(word, i) == Bit(pattern.value, i)
      {
        if i >= w || Bit(pattern.mask, i) {
          forall k | 0 <= k < |operands| ensures !Occupied(form.fields[operands[k].0].segments, i) {
            if i >= w { FieldStaysInWord(form.fields[operands[k].0], w, i); }
          }
        }
      }
    }
    HighBitsClearBelow(word, w);
    forall i: nat ensures Bit(And(word, pattern.mask), i) == Bit(pattern.value, i) { BitAnd(word, pattern.mask, i); }
    BitExt(And(word, pattern.mask), pattern.value);
  }

  // ---- The stream ----

  /** One line of a program: an instruction, the space it lives in and its operand values,
      with the pattern and the word they make. */
  datatype Line = Line(idx: nat, space: Space, operands: seq<Operand>, pattern: Pattern, word: nat)

  function SpaceBytes(space: Space): Positive {
    if space.wordBits.Some? && 8 <= space.wordBits.value <= 64 then space.wordBits.value / 8 else 1
  }

  function LineBytes(line: Line): seq<Byte> {
    WordBytes(line.word, SpaceBytes(line.space), line.space.endianness)
  }

  function ToDecoder(isa: InstructionSet): Decoder
    requires ValidIsa(isa) && BuildPatterns(isa, 0).Ok?
  {
    Decoder(BuildDecodeSpaces(isa.spaces), BuildPatterns(isa, 0).value)
  }

  /** The line names a masked instruction of a logic space. */
  predicate ProperLine(isa: InstructionSet, line: Line) {
    && line.idx < |isa.instructions|
    && FindSpace(isa.spaces, isa.instructions[line.idx].space) == Some(line.space)
    && line.space.logic
  }

  /** The line encodes to its word; its operand fields are separate and avoid the mask; its own
      space is the first to accept its bytes; no other instruction matches as specifically. */
  ghost predicate Decodable(isa: InstructionSet, line: Line)
    requires ValidIsa(isa) && BuildPatterns(isa, 0).Ok?
  {
    && ProperLine(isa, line)
    && Assembled(line.space, line.idx, isa.instructions[line.idx], line.operands, line.pattern, line.word)
    && SelectSpace(BuildDecodeSpaces(isa.spaces), LineBytes(line)) == Some(ToDecodeSpace(line.space))
    && (forall p | p in BuildPatterns(isa, 0).value && p.instruction != line.idx && Matches(p, line.space.name, line.word) ::
          p.specificity < line.pattern.specificity)
  }

  /** The first accepting space depends only on the word it reads. */
  lemma {:induction false} SelectOnPrefix(spaces: seq<DecodeSpace>, word: seq<Byte>, rest: seq<Byte>)
    requires ByWidth(spaces) && SelectSpace(spaces, word).Some? && SelectSpace(spaces, word).value.wordBytes == |word|
    ensures SelectSpace(spaces, word + rest) == SelectSpace(spaces, word)
  {
    var chosen := SelectSpace(spaces, word).value;
    SelectSpaceFirst(spaces, word);
    var k :| 0 <= k < |spaces| && chosen == spaces[k];
    assert spaces[0].wordBits <= chosen.wordBits;
    assert ValidDecodeSpace(spaces[0]) && ValidDecodeSpace(chosen);
    assert (word + rest)[..spaces[0].wordBytes] == word[..spaces[0].wordBytes];
    if !AcceptsHead(spaces[0], word) {
      SelectOnPrefix(spaces[1..], word, rest);
    }
  }

  /** Among all patterns the line's own wins on the line's word. */
  lemma OwnPatternWins(isa: InstructionSet, line: Line)
    requires ValidIsa(isa) && BuildPatterns(isa, 0).Ok? && Decodable(isa, line)
    ensures BestMatch(BuildPatterns(isa, 0).value, line.space.name, line.word) == Some(line.pattern)
  {
    var patterns := BuildPatterns(isa, 0).value;
    PatternsOf(isa, 0);
    AssembledWord(line.space, line.idx, isa.instructions[line.idx], line.operands, line.pattern, line.word);
    assert PatternOf(isa, line.idx) == Ok(Some(line.pattern));
    forall p | p in patterns && p != line.pattern && Matches(p, line.space.name, line.word)
      ensures p.specificity < line.pattern.specificity
    {
      assert p.instruction != line.idx;
    }
    PatternSpace(line.space, line.idx, isa.instructions[line.idx]);
    UniqueWinner(patterns, line.space.name, line.word, line.pattern);
  }

  lemma PatternSpace(space: Space, idx: nat, instr: Instruction)
    requires space.logic ==> FormsBuilt(space)
    ensures var built := BuildPattern(space, idx, instr);
      built.Ok? && built.value.Some? ==> built.value.value.space == instr.space
  {}

  /** What the decoder sees of a line, whatever follows it: its bytes select one space, whose
      word is the line's word, and the best match on that word is the line's pattern. */
  ghost predicate Readable(d: Decoder, line: Line) {
    var chosen := SelectSpace(d.spaces, LineBytes(line));
    && chosen.Some? && chosen.value.wordBytes == SpaceBytes(line.space)
    && chosen.value.endianness == line.space.endianness
    && DecodeWord(LineBytes(line), line.space.endianness) == line.word
    && BestMatch(d.patterns, chosen.value.name, line.word) == Some(line.pattern)
  }

  lemma DecodableIsReadable(isa: InstructionSet, line: Line)
    requires ValidIsa(isa) && BuildPatterns(isa, 0).Ok? && Decodable(isa, line)
    ensures Readable(ToDecoder(isa), line)
  {
    AssembledWord(line.space, line.idx, isa.instructions[line.idx], line.operands, line.pattern, line.word);
    WordOfBytes(line.word, SpaceBytes(line.space), line.space.endianness);
    OwnPatternWins(isa, line);
  }

  function LineEntry(line: Line, address: U64): Entry {
    Entry(address, line.word, SpaceBytes(line.space), line.space.endianness, Some(line.pattern))
  }

  /** Where the line's bytes start, the decoder reads exactly that line. */
  lemma LineReads(d: Decoder, line: Line, bytes: seq<Byte>, cursor: nat, rest: seq<Byte>, address: U64)
    requires ByWidth(d.spaces) && Readable(d, line)
    requires cursor <= |bytes| && bytes[cursor..] == LineBytes(line) + rest
    ensures HeadEntry(d, bytes, cursor, address) == Some(LineEntry(line, address))
  {
    var chosen := SelectSpace(d.spaces, LineBytes(line)).value;
    SelectSpaceFirst(d.spaces, LineBytes(line));
    SelectOnPrefix(d.spaces, LineBytes(line), rest);
    SplitAppend(LineBytes(line), rest);
    HeadWordIsWord(chosen, bytes[cursor..]);
    HeadEntryIs(d, bytes, cursor, address, chosen, line.word, Some(line.pattern));
  }

  ghost predicate ReadableProgram(d: Decoder, program: seq<Line>) {
    forall k | 0 <= k < |program| :: Readable(d, program[k])
  }

  ghost predicate DecodableProgram(isa: InstructionSet, program: seq<Line>)
    requires ValidIsa(isa) && BuildPatterns(isa, 0).Ok?
  {
    forall k | 0 <= k < |program| :: Decodable(isa, program[k])
  }

  /** The assembled bytes, one line after the other. */
  function ProgramBytes(program: seq<Line>): seq<Byte> {
    if program == [] then [] else LineBytes(program[0]) + ProgramBytes(program[1..])
  }

  /** The entries the decoder should report. */
  function Expected(program: seq<Line>, address: U64): seq<Entry> {
    if program == [] then []
    else
      [LineEntry(program[0], address)]
      + Expected(program[1..], AdvanceAddress(address, SpaceBytes(program[0].space)))
  }

  /** From the cursor on, the decoder meets the lines one after the other, and then the end. */
  predicate Meets(d: Decoder, program: seq<Line>, bytes: seq<Byte>, cursor: nat, address: U64)
    requires cursor <= |bytes|
    decreases |program|
  {
    if program == [] then cursor == |bytes|
    else
      var n := SpaceBytes(program[0].space);
      && cursor < |bytes| && cursor + n <= |bytes|
      && HeadEntry(d, bytes, cursor, address) == Some(LineEntry(program[0], address))
      && Meets(d, program[1..], bytes, cursor + n, AdvanceAddress(address, n))
  }

  lemma LineMet(d: Decoder, line: Line, bytes: seq<Byte>, cursor: nat, rest: seq<Byte>, address: U64)
    requires ByWidth(d.spaces) && Readable(d, line)
    requires cursor <= |bytes| && bytes[cursor..] == LineBytes(line) + rest
    ensures var next := cursor + SpaceBytes(line.space);
      && cursor < next <= |bytes| && bytes[next..] == rest
      && HeadEntry(d, bytes, cursor, address) == Some(LineEntry(line, address))
  {
    LineReads(d, line, bytes, cursor, rest, address);
    SplitAppend(LineBytes(line), rest);
    DropDrop(bytes, cursor, SpaceBytes(line.space));
  }

  lemma ReadableTail(d: Decoder, program: seq<Line>)
    requires program != [] && ReadableProgram(d, program)
    ensures Readable(d, program[0]) && ReadableProgram(d, program[1..])
  {
    forall k | 0 <= k < |program[1..]| ensures Readable(d, program[1..][k]) {
      assert program[1..][k] == program[k + 1];
    }
  }

  lemma {:induction false} ProgramMet(d: Decoder, program: seq<Line>, bytes: seq<Byte>, cursor: nat, address: U64)
    requires ByWidth(d.spaces) && ReadableProgram(d, program)
    requires cursor <= |bytes| && bytes[cursor..] == ProgramBytes(program)
    ensures Meets(d, program, bytes, cursor, address)
    decreases |program|
  {
    if program == [] {
      assert |bytes[cursor..]| == 0;
    } else {
      var n := SpaceBytes(program[0].space);
      ReadableTail(d, program);
      LineMet(d, program[0], bytes, cursor, ProgramBytes(program[1..]), address);
      ProgramMet(d, program[1..], bytes, cursor + n, AdvanceAddress(address, n));
    }
  }

  /** What the decoder meets is what it lists. */
  lemma {:induction false} MetIsListed(d: Decoder, program: seq<Line>, bytes: seq<Byte>, cursor: nat, address: U64)
    requires cursor <= |bytes| && Meets(d, program, bytes, cursor, address)
    ensures Disassemble(d, bytes, cursor, address) == Expected(program, address)
    decreases |program|
  {
    if program != [] {
      var n := SpaceBytes(program[0].space);
      DisassembleCons(d, bytes, cursor, address, LineEntry(program[0], address));
      MetIsListed(d, program[1..], bytes, cursor + n, AdvanceAddress(address, n));
    }
  }

  lemma {:induction false} ExpectedAllMatched(program: seq<Line>, address: U64)
    ensures Matched(Expected(program, address)) == Expected(program, address)
    decreases |program|
  {
    if program != [] {
      var next := AdvanceAddress(address, SpaceBytes(program[0].space));
      ExpectedAllMatched(program[1..], next);
      ConsTail(Expected(program, address)[0], Expected(program[1..], next));
    }
  }

  /** A line's bytes are what the assembler returns for it. */
  lemma LineEncodes(isa: InstructionSet, line: Line)
    requires ValidIsa(isa) && BuildPatterns(isa, 0).Ok? && Decodable(isa, line)
    ensures line.idx < |isa.instructions| && ValidSpace(line.space)
    ensures Encode(line.space, isa.instructions[line.idx], line.operands) == Ok(LineBytes(line))
  {}

  /** Assembling any list of lines and concatenating the bytes decodes to the same instructions
      at the right addresses, over spaces of different widths and both byte orders; the listing
      holds no unknown word. */
  lemma ProgramRoundTrip(isa: InstructionSet, program: seq<Line>, base: U64)
    requires ValidIsa(isa) && BuildPatterns(isa, 0).Ok? && DecodableProgram(isa, program)
    ensures Disassemble(ToDecoder(isa), ProgramBytes(program), 0, base) == Expected(program, base)
    ensures Decode(ToDecoder(isa), ProgramBytes(program), 0, base) == Expected(program, base)
  {
    forall k | 0 <= k < |program| ensures Readable(ToDecoder(isa), program[k]) {
      DecodableIsReadable(isa, program[k]);
    }
    DecodeSpacesSorted(isa.spaces);
    DropWhole(ProgramBytes(program));
    ProgramMet(ToDecoder(isa), program, ProgramBytes(program), 0, base);
    MetIsListed(ToDecoder(isa), program, ProgramBytes(program), 0, base);
    DecodeIsMatched(ToDecoder(isa), ProgramBytes(program), 0, base);
    ExpectedAllMatched(program, base);
  }

  /** Each reported entry stands for its own line. */
  lemma {:induction false} ExpectedEntry(program: seq<Line>, address: U64, k: nat)
    requires k < |program|
    ensures |Expected(program, address)| == |program|
    ensures Expected(program, address)[k].bits == program[k].word
    ensures Expected(program, address)[k].pattern == Some(program[k].pattern)
    decreases |program|
  {
    var next := AdvanceAddress(address, SpaceBytes(program[0].space));
    if |program| > 1 { ExpectedEntry(program[1..], next, if k == 0 then 0 else k - 1); }
  }

  /** Reading the operands of a decoded line out of its word gives the values it was assembled from. */
  lemma ProgramOperandsRoundTrip(isa: InstructionSet, program: seq<Line>, base: U64, k: nat, form: string)
    requires ValidIsa(isa) && BuildPatterns(isa, 0).Ok? && DecodableProgram(isa, program) && k < |program|
    requires isa.instructions[program[k].idx].form == Some(form)
    ensures var entries := Decode(ToDecoder(isa), ProgramBytes(program), 0, base);
      && |entries| == |program|
      && entries[k].pattern == Some(program[k].pattern) && program[k].pattern.instruction == program[k].idx
      && form in program[k].space.forms
      && forall j | 0 <= j < |program[k].operands| ::
           var fields := program[k].space.forms[form].fields;
           program[k].operands[j].0 in fields &&
           ReadBits(fields[program[k].operands[j].0], entries[k].bits).0 == AsU64(program[k].operands[j].1)
  {
    var line := program[k];
    ProgramRoundTrip(isa, program, base);
    ExpectedEntry(program, base, k);
    AssembledWord(line.space, line.idx, isa.instructions[line.idx], line.operands, line.pattern, line.word);
  }
}
