/** What a register holds after it is written through a reference, whole or by subfield, and what a reference then reads
    (`src/soc/isa/semantics/register.rs`). */
module RegisterAccess {
  import opened Words
  import opened Results
  import opened BitFields
  import opened BitFieldLaws
  import opened Machine
  import opened Semantics
  import opened RegisterFile
  import opened Registers
  import opened Interp
  import Encoding

  /** The resolved register can be reached, has the width of its declaration, and reads back what is written to it:
      the core is little-endian, or the register lies in the middle of its chunk. */
  predicate Steady(core: Core, r: Resolved) {
    && Window(core, ResolvedName(r)).Ok?
    && var l := core.layout[ResolvedName(r)];
       && l.width == r.meta.bitWidth && 0 < l.width <= 64
       && (core.endianness.Little? || 2 * Intra(l) + l.width == 64 * ChunkWords(l))
  }

  /** The number in the register of the core. */
  function Raw(core: Core, r: Resolved): nat
    requires Steady(core, r)
  {
    ReadRegister(core, ResolvedName(r)).value
  }

  lemma RawFits(core: Core, r: Resolved)
    requires Steady(core, r)
    ensures Raw(core, r) < Pow2(r.meta.bitWidth) && IsU64(Raw(core, r)) && ReadRaw(core, r) == Ok(Raw(core, r))
  {
    forall j: nat | j >= r.meta.bitWidth ensures !Bit(Raw(core, r), j) { ReadBit(core, ResolvedName(r), j); }
    HighBitsClearBelow(Raw(core, r), r.meta.bitWidth);
    Pow2Within(r.meta.bitWidth);
    ModSmall(Raw(core, r), WORD);
  }

  /** Writing a number leaves its low bits in the register. */
  lemma WrittenRaw(core: Core, r: Resolved, value: nat)
    requires Steady(core, r)
    ensures var after := WriteRegister(core, ResolvedName(r), value);
      after.Ok? && Steady(after.value, r) && Raw(after.value, r) == Low(value, r.meta.bitWidth)
  {
    ReachIsInChunk(|core.bits|, core.layout[ResolvedName(r)]);
    SameStartReadsBack(core, ResolvedName(r), value);
    assert RereadIs(core, ResolvedName(r), value);
  }

  lemma LowTwice(x: nat, w: nat)
    ensures Low(Low(x, w), w) == Low(x, w)
  {
    LowSmall(Low(x, w), w);
  }

  /** The value read is this number. */
  predicate Shown(v: Outcome<Value>, i: int) {
    v.Ok? && v.value.IntValue? && v.value.i == i
  }

  // ---- Whole registers ----

  /** A whole register holds the value modulo 2^width. */
  lemma WholeWriteMeans(core: Core, r: Resolved, value: I64)
    requires Steady(core, r) && r.field.None?
    ensures var after := WriteResolved(core, r, value);
      after.Ok? && Steady(after.value, r) && Raw(after.value, r) == Low(AsU64(value), r.meta.bitWidth)
  {
    WrittenRaw(core, r, MaskToWidth(value, r.meta.bitWidth));
    LowTwice(AsU64(value), r.meta.bitWidth);
  }

  /** Reading the whole register gives its number, which a set top bit makes negative only in a register of 64 bits. */
  lemma WholeReadMeans(core: Core, r: Resolved)
    requires Steady(core, r) && r.field.None?
    ensures Shown(ReadResolved(core, r), if Raw(core, r) >= WORD / 2 then Raw(core, r) - WORD else Raw(core, r))
    ensures r.meta.bitWidth < 64 ==> Raw(core, r) < WORD / 2
  {
    RawFits(core, r);
    if r.meta.bitWidth < 64 {
      Pow2Monotone(r.meta.bitWidth, 63);
      HalfWord();
    }
  }

  lemma HalfWord()
    ensures Pow2(63) == WORD / 2
  {
    WordIsPow2();
    assert Pow2(64) == 2 * Pow2(63);
  }

  // ---- Subfields ----

  /** A subfield takes exactly the values that fit it, and then the register holds them in the bits of its slices and
      what it held before everywhere else. */
  lemma FieldWriteMeans(core: Core, r: Resolved, value: I64)
    requires Steady(core, r) && r.field.Some?
    ensures var after, segments := WriteResolved(core, r, value), r.field.value.spec.segments;
      && (after.Ok? <==> Accepts(r.field.value.spec, AsU64(value)))
      && (after.Ok? ==> Steady(after.value, r))
      && (after.Ok? ==> forall j: nat | !Occupied(segments, j) :: Bit(Raw(after.value, r), j) == Bit(Raw(core, r), j))
      && (after.Ok? ==> forall j: nat | Occupied(segments, j) ::
            Bit(Raw(after.value, r), j) == (j < r.meta.bitWidth && OutBit(segments, Raw(core, r), AsU64(value), j)))
  {
    var spec, raw := r.field.value.spec, Raw(core, r);
    RawFits(core, r);
    WriteAccepts(spec, raw, AsU64(value));
    if Accepts(spec, AsU64(value)) {
      var updated := WriteBits(spec, raw, AsU64(value)).value;
      WriteBitsBits(spec, raw, AsU64(value));
      WriteFrame(spec, raw, AsU64(value));
      WrittenRaw(core, r, updated);
      HighBitsClear(raw, r.meta.bitWidth);
      forall j: nat ensures Bit(Low(updated, r.meta.bitWidth), j) == (j < r.meta.bitWidth && Bit(updated, j)) {
        BitMod(updated, r.meta.bitWidth, j);
      }
    }
  }

  /** Every other subfield that shares no bit with the written one reads what it read before. */
  lemma OtherFieldKept(core: Core, r: Resolved, value: I64, other: FieldSpec)
    requires Steady(core, r) && r.field.Some? && WriteResolved(core, r, value).Ok?
    requires forall j: nat | Occupied(other.segments, j) :: !Occupied(r.field.value.spec.segments, j)
    ensures Steady(WriteResolved(core, r, value).value, r)
    ensures ReadBits(other, Raw(WriteResolved(core, r, value).value, r)) == ReadBits(other, Raw(core, r))
  {
    FieldWriteMeans(core, r, value);
    Encoding.ReadLocal(other, Raw(WriteResolved(core, r, value).value, r), Raw(core, r));
  }

  /** A written field whose slices are disjoint and inside the register holds the value. */
  lemma FieldReadsBack(core: Core, r: Resolved, value: I64)
    requires Steady(core, r) && r.field.Some? && WriteResolved(core, r, value).Ok?
    requires Disjoint(r.field.value.spec.segments) && FieldInWord(r.field.value.spec, r.meta.bitWidth)
    ensures Steady(WriteResolved(core, r, value).value, r)
    ensures ReadBits(r.field.value.spec, Raw(WriteResolved(core, r, value).value, r)) == (AsU64(value), TotalWidth(r.field.value.spec))
  {
    var spec, raw := r.field.value.spec, Raw(core, r);
    RawFits(core, r);
    FieldWriteMeans(core, r, value);
    var updated, after := WriteBits(spec, raw, AsU64(value)).value, Raw(WriteResolved(core, r, value).value, r);
    WriteBitsBits(spec, raw, AsU64(value));
    forall j: nat | Occupied(spec.segments, j) ensures Bit(after, j) == Bit(updated, j) {
      InsideWord(spec, r.meta.bitWidth, j);
    }
    Encoding.ReadLocal(spec, after, updated);
    PutGet(spec, raw, AsU64(value));
  }

  lemma InsideWord(spec: Spec, width: nat, j: nat)
    requires FieldInWord(spec, width) && Occupied(spec.segments, j)
    ensures j < width
  {}

  /** Reading a subfield gives its bits in the register: as a number, or in two's complement if the field is signed. */
  lemma FieldReadMeans(core: Core, r: Resolved)
    requires Steady(core, r) && r.field.Some?
    ensures var (x, w) := ReadBits(r.field.value.spec, Raw(core, r));
      && w == TotalWidth(r.field.value.spec) && 0 < w <= 64 && x < Pow2(w)
      && (forall q: nat :: Bit(x, q) == FieldBit(r.field.value.spec, Raw(core, r), q))
      && (IsSigned(r.field.value.spec) ==> Shown(ReadResolved(core, r), if 2 * x >= Pow2(w) then x - Pow2(w) else x))
      && (!IsSigned(r.field.value.spec) ==> Shown(ReadResolved(core, r), if 2 * x >= WORD then x - WORD else x))
  {
    var spec := r.field.value.spec;
    RawFits(core, r);
    ReadBitsBits(spec, Raw(core, r));
    ReadIsU64(spec, Raw(core, r));
    ReadSignedMeaning(spec, Raw(core, r));
  }

  /** What a reference reads after it was written: the value modulo 2^width, as a 64-bit signed number, for a whole
      register; the value for a field, from its two's complement if the field is signed. */
  function Reread(r: Resolved, value: I64): int {
    if r.field.None? then ToI64(Low(AsU64(value), r.meta.bitWidth))
    else if IsSigned(r.field.value.spec) && 2 * AsU64(value) >= Pow2(TotalWidth(r.field.value.spec))
    then AsU64(value) - Pow2(TotalWidth(r.field.value.spec))
    else value
  }

  lemma RereadMeans(core: Core, r: Resolved, value: I64)
    requires Steady(core, r) && WriteResolved(core, r, value).Ok?
    requires r.field.Some? ==> Disjoint(r.field.value.spec.segments) && FieldInWord(r.field.value.spec, r.meta.bitWidth)
    ensures Shown(ReadResolved(WriteResolved(core, r, value).value, r), Reread(r, value))
  {
    var after := WriteResolved(core, r, value).value;
    if r.field.None? {
      WholeWriteMeans(core, r, value);
      WholeReadMeans(after, r);
      RawFits(after, r);
    } else {
      FieldReadsBack(core, r, value);
      FieldReadMeans(after, r);
    }
  }

  // ---- Exactly the fields that read back ----

  predicate HoldsAfter(core: Core, r: Resolved, value: I64)
    requires Steady(core, r) && r.field.Some?
  {
    var after := WriteResolved(core, r, value);
    after.Ok? ==> Steady(after.value, r) && ReadBits(r.field.value.spec, Raw(after.value, r)).0 == AsU64(value)
  }

  /** An accepted value with different bits where the register can only show equal ones. */
  lemma SharedBitLoses(core: Core, r: Resolved, k: nat, l: nat, i: nat) returns (value: I64)
    requires Steady(core, r) && r.field.Some? && k < l < |r.field.value.spec.segments|
    requires Covers(r.field.value.spec.segments[k], i) && Covers(r.field.value.spec.segments[l], i)
    ensures !HoldsAfter(core, r, value)
  {
    var spec := r.field.value.spec;
    var p, q := PositionOf(spec.segments, k, i), PositionOf(spec.segments, l, i);
    var pattern := UnequalBits(spec, k, l, i);
    value := ToI64(pattern);
    TakesAccepted(core, r, value);
    SharedBitReadTwice(spec, k, l, i, Raw(WriteResolved(core, r, value).value, r));
  }

  lemma TakesAccepted(core: Core, r: Resolved, value: I64)
    requires Steady(core, r) && r.field.Some? && Accepts(r.field.value.spec, AsU64(value))
    ensures WriteResolved(core, r, value).Ok? && Steady(WriteResolved(core, r, value).value, r)
  {
    FieldWriteMeans(core, r, value);
  }

  lemma UnequalBits(spec: Spec, k: nat, l: nat, i: nat) returns (pattern: nat)
    requires ValidSpec(spec) && k < l < |spec.segments| && Covers(spec.segments[k], i) && Covers(spec.segments[l], i)
    ensures IsU64(pattern) && Accepts(spec, pattern)
    ensures Bit(pattern, PositionOf(spec.segments, l, i)) && !Bit(pattern, PositionOf(spec.segments, k, i))
  {
    SharedBitReadTwice(spec, k, l, i, 0);
    BitZero(i);
    SetSliceBit(spec, l, i);
    pattern := ReadBits(spec, 0).0 + Pow2(PositionOf(spec.segments, l, i));
  }

  lemma OutsideBitLoses(core: Core, r: Resolved, k: nat, i: nat) returns (value: I64)
    requires Steady(core, r) && r.field.Some? && k < |r.field.value.spec.segments|
    requires Covers(r.field.value.spec.segments[k], i) && i >= r.meta.bitWidth
    ensures !HoldsAfter(core, r, value)
  {
    var spec := r.field.value.spec;
    var p := PositionOf(spec.segments, k, i);
    var pattern := ReadBits(spec, Pow2(i)).0;
    ReadAccepted(spec, Pow2(i));
    ReadBitsBits(spec, Pow2(i));
    PositionReads(spec.segments, k, i, Pow2(i));
    BitPow2(i, i);
    assert Bit(pattern, p) == FieldBit(spec, Pow2(i), p);
    value := ToI64(pattern);
    TakesAccepted(core, r, value);
    var after := WriteResolved(core, r, value).value;
    RawFits(after, r);
    HighBitsClear(Raw(after, r), r.meta.bitWidth);
    ReadBitsBits(spec, Raw(after, r));
    PositionReads(spec.segments, k, i, Raw(after, r));
    assert Bit(ReadBits(spec, Raw(after, r)).0, p) == FieldBit(spec, Raw(after, r), p);
  }

  /** Every value a subfield takes is read back exactly when its slices share no bit and lie inside the register. The
      second half can fail: a redirecting register may lend fields to a narrower one. */
  lemma FieldReadsBackIff(core: Core, r: Resolved)
    requires Steady(core, r) && r.field.Some?
    ensures (forall value: I64 :: HoldsAfter(core, r, value)) <==>
      Disjoint(r.field.value.spec.segments) && FieldInWord(r.field.value.spec, r.meta.bitWidth)
  {
    var spec := r.field.value.spec;
    if Disjoint(spec.segments) && FieldInWord(spec, r.meta.bitWidth) {
      forall value: I64 ensures HoldsAfter(core, r, value) {
        if WriteResolved(core, r, value).Ok? { FieldReadsBack(core, r, value); }
      }
    } else if !Disjoint(spec.segments) {
      var k, l, i: nat :| 0 <= k < l < |spec.segments| && Covers(spec.segments[k], i) && Covers(spec.segments[l], i);
      var value := SharedBitLoses(core, r, k, l, i);
    } else {
      var k :| 0 <= k < |spec.segments| && spec.segments[k].Slice? && spec.segments[k].offset + spec.segments[k].width > r.meta.bitWidth;
      assert spec.segments[k] in spec.segments;
      var value := OutsideBitLoses(core, r, k, spec.segments[k].offset + spec.segments[k].width - 1);
    }
  }

  // ---- References in programs ----

  /** The call that reads what the target writes. */
  function ReadBack(reference: RegisterRef): Expr {
    Call(RegisterKind, reference.space, reference.name,
         if reference.subfield.Some? then [reference.subfield.value] else [],
         if reference.index.Some? then [reference.index.value] else [])
  }

  /** A program that assigns to a register and then reads it through the same reference gets the value back, reduced as
      the register or the field reduces it. */
  lemma AssignedIsRead(isa: Isa, fuel: nat, ctx: Ctx, core: Core, reference: RegisterRef, e: Expr, value: Value, middle: Core, r: Resolved)
    requires reference.index.None? && Eval(isa, fuel, ctx, core, e) == Run(Ok(value), middle) && AsInt(value).Ok?
    requires Resolve(isa, reference.space, reference.name, reference.subfield, None) == Ok(r) && Steady(middle, r)
    requires r.field.Some? ==> Disjoint(r.field.value.spec.segments) && FieldInWord(r.field.value.spec, r.meta.bitWidth)
    ensures var v, step := AsInt(value).value, ExecStmt(isa, fuel, ctx, core, Assign(RegisterTarget(reference), e));
      && (step.result.Ok? <==> r.field.None? || Accepts(r.field.value.spec, AsU64(v)))
      && (step.result.Ok? ==> step.result.value == Flow(ctx, None))
      && (step.result.Ok? ==>
            var read := Eval(isa, fuel, ctx, step.core, ReadBack(reference));
            read.core == step.core && Shown(read.result, Reread(r, v)))
  {
    var v := AsInt(value).value;
    if r.field.Some? { FieldWriteMeans(middle, r, v); } else { WholeWriteMeans(middle, r, v); }
    if WriteResolved(middle, r, v).Ok? { RereadMeans(middle, r, v); }
    assert WriteTarget(isa, middle, reference, None, value) == WriteResolved(middle, r, v);
    AssignsRegister(isa, fuel, ctx, core, reference, e, value, middle);
    if WriteResolved(middle, r, v).Ok? { ReadsRegister(isa, fuel, ctx, WriteResolved(middle, r, v).value, reference, r); }
  }

  lemma AssignsRegister(isa: Isa, fuel: nat, ctx: Ctx, core: Core, reference: RegisterRef, e: Expr, value: Value, middle: Core)
    requires reference.index.None? && Eval(isa, fuel, ctx, core, e) == Run(Ok(value), middle)
    ensures var step, written := ExecStmt(isa, fuel, ctx, core, Assign(RegisterTarget(reference), e)), WriteTarget(isa, middle, reference, None, value);
      step == if written.Ok? then Run(Ok(Flow(ctx, None)), written.value) else Run(Err(written.error), middle)
  {
    assert EvalIndex(isa, fuel, ctx, middle, reference) == Run(Ok(None), middle);
  }

  lemma ReadsRegister(isa: Isa, fuel: nat, ctx: Ctx, core: Core, reference: RegisterRef, r: Resolved)
    requires reference.index.None?
    requires Resolve(isa, reference.space, reference.name, reference.subfield, None) == Ok(r)
    ensures Eval(isa, fuel, ctx, core, ReadBack(reference)) == Run(ReadResolved(core, r), core)
  {
    assert EvalAll(isa, fuel, ctx, core, []) == Run(Ok([]), core);
  }

  // ---- Indexes ----

  /** An indexed assignment evaluates its value first and its index then, and writes in the core that both have left. */
  lemma IndexedAssignMeans(isa: Isa, fuel: nat, ctx: Ctx, core: Core, reference: RegisterRef, e: Expr, value: Value, middle: Core,
                           index: Value, after: Core, r: Resolved)
    requires reference.index.Some? && Eval(isa, fuel, ctx, core, e) == Run(Ok(value), middle) && AsInt(value).Ok?
    requires Eval(isa, fuel, ctx, middle, reference.index.value) == Run(Ok(index), after) && AsInt(index).Ok?
    requires Resolve(isa, reference.space, reference.name, reference.subfield, Some(AsInt(index).value)) == Ok(r)
    ensures var step, written := ExecStmt(isa, fuel, ctx, core, Assign(RegisterTarget(reference), e)), WriteResolved(after, r, AsInt(value).value);
      step == if written.Ok? then Run(Ok(Flow(ctx, None)), written.value) else Run(Err(written.error), after)
  {
    assert EvalIndex(isa, fuel, ctx, middle, reference) == Run(Ok(Some(index)), after);
    assert WriteTarget(isa, after, reference, Some(index), value) == WriteResolved(after, r, AsInt(value).value);
  }

  /** An indexed read evaluates its index and reads in the core that it left. */
  lemma IndexedReadMeans(isa: Isa, fuel: nat, ctx: Ctx, core: Core, call: Expr, index: Value, after: Core, r: Resolved)
    requires call.Call? && call.kind.RegisterKind? && |call.args| == 1 && |call.subpath| <= 1
    requires Eval(isa, fuel, ctx, core, call.args[0]) == Run(Ok(index), after) && AsInt(index).Ok?
    requires Resolve(isa, call.space, call.name, if call.subpath == [] then None else Some(call.subpath[0]), Some(AsInt(index).value)) == Ok(r)
    ensures Eval(isa, fuel, ctx, core, call) == Run(ReadResolved(after, r), after)
  {
    assert call.args[1..] == [] && [index] + [] == [index];
    assert EvalAll(isa, fuel, ctx, after, call.args[1..]) == Run(Ok([]), after);
    assert EvalAll(isa, fuel, ctx, core, call.args) == Run(Ok([index]), after);
  }

  // ---- What a reference denotes ----

  /** The first of the fields with that name, whatever its case. */
  ghost predicate FirstNamed(fields: seq<FieldMeta>, name: string, f: FieldMeta) {
    exists k | 0 <= k < |fields| :: fields[k] == f && EqIgnoreCase(f.name, name) && NoneNamed(fields[..k], name)
  }

  predicate NoneNamed(fields: seq<FieldMeta>, name: string) {
    forall f | f in fields :: !EqIgnoreCase(f.name, name)
  }

  lemma {:induction false} NamedMeans(fields: seq<FieldMeta>, name: string)
    ensures FieldNamed(fields, name).None? <==> NoneNamed(fields, name)
    ensures FieldNamed(fields, name).Some? ==> FirstNamed(fields, name, FieldNamed(fields, name).value)
  {
    if fields != [] {
      var f := FieldNamed(fields, name);
      assert fields == [fields[0]] + fields[1..];
      if EqIgnoreCase(fields[0].name, name) {
        assert fields[..0] == [];
        assert fields[0] == f.value && NoneNamed(fields[..0], name);
      } else {
        NamedMeans(fields[1..], name);
        if f.Some? {
          var k :| 0 <= k < |fields[1..]| && fields[1..][k] == f.value && EqIgnoreCase(f.value.name, name) && NoneNamed(fields[1..][..k], name);
          assert fields[..k + 1] == [fields[0]] + fields[1..][..k];
          assert fields[k + 1] == f.value && NoneNamed(fields[..k + 1], name);
        }
      }
    }
  }

  /** A subfield is looked up among the fields of the register, then among those of the name it was reached by. */
  lemma SubfieldMeans(meta: RegisterMeta, name: string, alias: Option<seq<FieldMeta>>)
    ensures SelectField(meta, None, alias) == Ok(None)
    ensures var r, borrowed := SelectField(meta, Some(name), alias), if alias.Some? then alias.value else [];
      && (r.Err? <==> NoneNamed(meta.fields, name) && NoneNamed(borrowed, name))
      && (r.Err? ==> r.error == UnknownSubfield(name))
      && (r.Ok? ==> r.value.Some? && FirstNamed(if NoneNamed(meta.fields, name) then borrowed else meta.fields, name, r.value.value))
  {
    NamedMeans(meta.fields, name);
    if alias.Some? { NamedMeans(alias.value, name); }
  }

  lemma {:induction false} IndexedMeans(elements: seq<Element>, index: int)
    ensures var r := IndexedElement(elements, index);
      && (r.None? <==> forall e | e in elements :: e.index != index)
      && (r.Some? ==> r.value in elements && r.value.index == index)
  {
    if elements != [] {
      assert elements == [elements[0]] + elements[1..];
      IndexedMeans(elements[1..], index);
    }
  }

  /** A register of one element needs no index and takes only the index 0, whatever number the element has; an array
      needs the number of one of its elements. */
  lemma ElementMeans(meta: RegisterMeta, name: string, index: Option<I64>)
    ensures var r := SelectElement(meta, name, index);
      if meta.count <= 1 then
        && (index.Some? && index.value != 0 <==> r == Err(BadIndex(name)))
        && (r.Ok? <==> (index.None? || index.value == 0) && meta.elements != [])
        && (r.Ok? ==> r.value == meta.elements[0])
      else
        && (index.None? ==> r == Err(MissingIndex(name)))
        && (index.Some? ==> (r.Ok? <==> 0 <= index.value < 0x1_0000_0000 && exists e | e in meta.elements :: e.index == index.value))
        && (index.Some? && r.Err? ==> r.error == BadIndex(name))
        && (r.Ok? ==> r.value in meta.elements && r.value.index == index.value)
  {
    if index.Some? { IndexedMeans(meta.elements, index.value); }
  }

  predicate NamedIn(schema: seq<RegisterMeta>, at: Location) {
    exists m | m in schema :: m.space == at.0 && m.name == at.1
  }

  predicate LabelledBy(schema: seq<RegisterMeta>, at: Location) {
    exists m | m in schema :: m.space == at.0 && exists e | e in m.elements :: e.text == at.1
  }

  lemma {:induction false} LookupMeans(schema: seq<RegisterMeta>, at: Location)
    ensures var r := LookupMeta(schema, at.0, at.1);
      && (r.Some? <==> NamedIn(schema, at)) && (r.Some? ==> r.value in schema && r.value.space == at.0 && r.value.name == at.1)
  {
    if schema != [] {
      assert schema == [schema[0]] + schema[1..];
      LookupMeans(schema[1..], at);
    }
  }

  lemma {:induction false} LabelMeans(elements: seq<Element>, text: string)
    ensures var r := LabelledElement(elements, text);
      && (r.None? <==> forall e | e in elements :: e.text != text) && (r.Some? ==> r.value in elements && r.value.text == text)
  {
    if elements != [] {
      assert elements == [elements[0]] + elements[1..];
      LabelMeans(elements[1..], text);
    }
  }

  lemma {:induction false} FindLabelMeans(schema: seq<RegisterMeta>, at: Location)
    ensures var r := FindByLabel(schema, at.0, at.1);
      && (r.Some? <==> LabelledBy(schema, at))
      && (r.Some? ==> r.value.0 in schema && r.value.0.space == at.0 && r.value.1 in r.value.0.elements && r.value.1.text == at.1)
  {
    if schema != [] {
      assert schema == [schema[0]] + schema[1..];
      LabelMeans(schema[0].elements, at.1);
      FindLabelMeans(schema[1..], at);
    }
  }

  /** The location names a register of the schema, with this element for the index; or no register, and this element is
      labelled so, which an index can only repeat. */
  predicate Denotes(schema: seq<RegisterMeta>, at: Location, index: Option<I64>, r: Resolved) {
    && r.meta in schema && r.meta.space == at.0 && r.element in r.meta.elements
    && if NamedIn(schema, at) then
         r.meta.name == at.1
         && (if r.meta.count <= 1 then index in {None, Some(0)} && r.element == r.meta.elements[0] else index == Some(r.element.index))
       else r.element.text == at.1 && (index.Some? ==> index.value == r.element.index)
  }

  lemma DirectMeans(isa: Isa, at: Location, subfield: Option<string>, index: Option<I64>, alias: Option<seq<FieldMeta>>)
    ensures var r := ResolveDirect(isa, at.0, at.1, subfield, index, alias);
      && (r == Ok(None) <==> !NamedIn(isa.schema, at) && !LabelledBy(isa.schema, at))
      && (r.Ok? && r.value.Some? ==>
            Denotes(isa.schema, at, index, r.value.value) && SelectField(r.value.value.meta, subfield, alias) == Ok(r.value.value.field))
  {
    LookupMeans(isa.schema, at);
    FindLabelMeans(isa.schema, at);
    var meta := LookupMeta(isa.schema, at.0, at.1);
    if meta.Some? { ElementMeans(meta.value, at.1, index); }
  }

  /** A resolved reference denotes what its name denotes in the schema; only when that is nothing, what the redirect of
      the name leads to. In both cases its subfield is looked up with the fields lent by the name. */
  lemma ResolvedMeans(isa: Isa, at: Location, subfield: Option<string>, index: Option<I64>, r: Resolved)
    requires Resolve(isa, at.0, at.1, subfield, index) == Ok(r)
    ensures SelectField(r.meta, subfield, if at in isa.aliasFields then Some(isa.aliasFields[at]) else None) == Ok(r.field)
    ensures NamedIn(isa.schema, at) || LabelledBy(isa.schema, at) ==> Denotes(isa.schema, at, index, r)
    ensures !NamedIn(isa.schema, at) && !LabelledBy(isa.schema, at) ==>
      var target := FollowRedirect(isa, at, 0);
      target.Ok? && target.value.Some? && Denotes(isa.schema, target.value.value, index, r)
  {
    var alias := if at in isa.aliasFields then Some(isa.aliasFields[at]) else None;
    assert at == (at.0, at.1);
    DirectMeans(isa, at, subfield, index, alias);
    var target := FollowRedirect(isa, at, 0);
    if target.Ok? && target.value.Some? { DirectMeans(isa, target.value.value, subfield, index, alias); }
  }

  /** A redirect of one name stays in the space, a leading segment `$space` chooses another one, and everything else is
      no register. */
  lemma RedirectMeans(isa: Isa, at: Location, space: string, name: string)
    requires space == "" || space[0] != '$'
    requires name == "" || name[0] != '$'
    ensures RedirectAt(isa, at) == Some([name]) ==> NextLocation(isa, at) == Ok((at.0, name))
    ensures RedirectAt(isa, at) == Some(["$" + space, name]) ==> NextLocation(isa, at) == Ok((space, name))
    ensures RedirectAt(isa, at) == Some(["$" + space]) ==> NextLocation(isa, at) == Err(BadRedirect)
    ensures RedirectAt(isa, at).Some? && (RedirectAt(isa, at).value == [] || |RedirectAt(isa, at).value| > 2) ==>
      NextLocation(isa, at) == Err(BadRedirect)
  {
    assert ("$" + space)[1..] == space;
    assert TrimDollars(space) == space;
  }
}
