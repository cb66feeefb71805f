/** The register schema and the core layout, two passes over the same declarations, and what a register
    name therefore means (`src/soc/isa/machine/register.rs`, `src/soc/core/{specification,state}.rs`). */
module Schema {
  import opened Words
  import opened Results
  import opened Semantics
  import opened RegisterFile
  import opened Registers
  import opened CoreLayout
  import opened Numerals
  import Machine

  // ---- Declarations ----

  type Index = n: nat | n < 0x1_0000_0000

  /** The indexes of an array, `last` included. */
  datatype IndexRange = IndexRange(first: Index, last: Index)

  /** A register declaration, an array when it has a range; a display pattern is taken as the function it denotes. */
  datatype RegisterInfo = RegisterInfo(
    name: string, size: Option<nat>, range: Option<IndexRange>, display: Option<U64 -> string>, offset: Option<nat>,
    redirected: bool, fields: seq<FieldMeta>)

  /** A register space with its declarations in key order. */
  datatype RegisterSpace = RegisterSpace(name: string, endianness: Endianness, size: Option<nat>, registers: seq<RegisterInfo>)

  datatype SchemaError = ZeroWidth(name: string) | TooWide(name: string)

  const DEFAULT_REGISTER_BITS: nat := 64
  const MAX_REGISTER_BITS: nat := 64

  function DeclaredWidth(space: RegisterSpace, info: RegisterInfo): nat {
    if info.size.Some? then info.size.value
    else if space.size.Some? then space.size.value
    else DEFAULT_REGISTER_BITS
  }

  // ---- Labels ----

  /** `RegisterInfo::format` */
  function Label(info: RegisterInfo, value: U64): string {
    if info.display.Some? then info.display.value(value)
    else if info.range.Some? then info.name + Decimal(value)
    else info.name
  }

  /** The value is the index of an element; a register that is no array has the index 0. */
  predicate InRange(info: RegisterInfo, value: nat) {
    if info.range.Some? then info.range.value.first <= value <= info.range.value.last else value == 0
  }

  function First(info: RegisterInfo): Index {
    if info.range.Some? then info.range.value.first else 0
  }

  function ElementCount(info: RegisterInfo): nat {
    if info.range.None? then 1
    else if info.range.value.last < info.range.value.first then 0
    else info.range.value.last - info.range.value.first + 1
  }

  /** What the elements are called, in order. */
  function Labels(info: RegisterInfo): (r: seq<string>)
    ensures |r| == ElementCount(info)
  {
    seq(ElementCount(info), k requires 0 <= k < ElementCount(info) => Label(info, First(info) + k))
  }

  // ---- The schema ----

  /** `materialize_elements` */
  function Elements(labels: seq<string>, first: nat): (r: seq<Element>)
    ensures |r| == |labels|
    decreases |labels|
  {
    if labels == [] then [] else [Element(first, labels[0])] + Elements(labels[1..], first + 1)
  }

  /** `build_register_entry` */
  function Metadata(space: RegisterSpace, info: RegisterInfo): Result<RegisterMeta, SchemaError> {
    var width := DeclaredWidth(space, info);
    if width == 0 then Err(ZeroWidth(info.name))
    else if width > MAX_REGISTER_BITS then Err(TooWide(info.name))
    else Ok(RegisterMeta(space.name, info.name, width, ElementCount(info), Elements(Labels(info), First(info)), info.fields))
  }

  function SpaceSchema(space: RegisterSpace, registers: seq<RegisterInfo>): Result<seq<RegisterMeta>, SchemaError>
    decreases |registers|
  {
    if registers == [] then Ok([])
    else if registers[0].redirected then SpaceSchema(space, registers[1..])
    else
      var head :- Metadata(space, registers[0]);
      var tail :- SpaceSchema(space, registers[1..]);
      Ok([head] + tail)
  }

  /** `RegisterSchema::build` */
  function BuildSchema(spaces: seq<RegisterSpace>): Result<seq<RegisterMeta>, SchemaError> {
    if spaces == [] then Ok([])
    else
      var head :- SpaceSchema(spaces[0], spaces[0].registers);
      var tail :- BuildSchema(spaces[1..]);
      Ok(head + tail)
  }

  // ---- The core layout ----

  /** `register_bit_width` takes a width of nothing for the default. */
  function CoreWidth(space: RegisterSpace, info: RegisterInfo): nat {
    if DeclaredWidth(space, info) == 0 then DEFAULT_REGISTER_BITS else DeclaredWidth(space, info)
  }

  function SlotName(space: string, text: string): string {
    space + "::" + text
  }

  /** `append_register`: at its offset when that fits 32 bits, else next. */
  function ElementCall(space: RegisterSpace, info: RegisterInfo, ordinal: nat, text: string): Call {
    var name, width := SlotName(space.name, text), CoreWidth(space, info);
    if info.offset.Some? && info.offset.value * 8 + ordinal * width < 0x1_0000_0000 then
      Fixed(name, info.offset.value * 8 + ordinal * width, width)
    else Next(name, width)
  }

  function InfoCalls(space: RegisterSpace, info: RegisterInfo, labels: seq<string>, ordinal: nat): (r: seq<Call>)
    ensures |r| == |labels|
    decreases |labels|
  {
    if labels == [] then []
    else [ElementCall(space, info, ordinal, labels[0])] + InfoCalls(space, info, labels[1..], ordinal + 1)
  }

  function SpaceCalls(space: RegisterSpace, registers: seq<RegisterInfo>): seq<Call>
    decreases |registers|
  {
    if registers == [] then []
    else if registers[0].redirected then SpaceCalls(space, registers[1..])
    else InfoCalls(space, registers[0], Labels(registers[0]), 0) + SpaceCalls(space, registers[1..])
  }

  function MachineCalls(spaces: seq<RegisterSpace>): seq<Call> {
    if spaces == [] then [] else SpaceCalls(spaces[0], spaces[0].registers) + MachineCalls(spaces[1..])
  }

  /** `CoreSpec::from_machine` */
  function FromMachine(spaces: seq<RegisterSpace>): Result<CoreSpec, seq<LayoutError>> {
    Build(RunCalls(EMPTY, MachineCalls(spaces)))
  }

  function LayoutFrom(registers: seq<RegisterSpec>, n: nat): map<string, Layout>
    requires n <= |registers|
  {
    if n == 0 then map[]
    else LayoutFrom(registers, n - 1)[registers[n - 1].name := Layout(registers[n - 1].offset, registers[n - 1].width)]
  }

  /** `byte_len` and `align_byte_len`: whole 64-bit words. */
  function MemoryBytes(totalBits: nat): nat {
    var bytes := if totalBits == 0 then 1 else (totalBits + 7) / 8;
    (bytes + 7) / 8 * 8
  }

  /** The byte order that was asked for, or that of the first register space, or little-endian. */
  function CoreOrder(wanted: Option<Endianness>, spaces: seq<RegisterSpace>): Endianness {
    if wanted.Some? then wanted.value else if spaces != [] then spaces[0].endianness else Machine.Little
  }

  /** `CoreState::new`: zeroed memory with a window for every register. */
  function NewCore(spec: CoreSpec, order: Endianness): Core {
    Core(LayoutFrom(spec.registers, |spec.registers|), order, seq(8 * MemoryBytes(spec.totalBits), i => false))
  }

  // ---- The two passes agree ----

  /** The elements of the schema, one after the other. */
  function MetaSlots(meta: RegisterMeta, elements: seq<Element>): (r: seq<(RegisterMeta, Element)>)
    ensures |r| == |elements|
  {
    if elements == [] then [] else [(meta, elements[0])] + MetaSlots(meta, elements[1..])
  }

  function Slots(schema: seq<RegisterMeta>): seq<(RegisterMeta, Element)> {
    if schema == [] then [] else MetaSlots(schema[0], schema[0].elements) + Slots(schema[1..])
  }

  /** The call places the slot, under its name and with its width. */
  predicate Places(call: Call, slot: (RegisterMeta, Element)) {
    call.name == SlotName(slot.0.space, slot.1.text) && call.width == slot.0.bitWidth
  }

  predicate AllPlaced(calls: seq<Call>, slots: seq<(RegisterMeta, Element)>) {
    |calls| == |slots| && forall k | 0 <= k < |calls| :: Places(calls[k], slots[k])
  }

  lemma PlacedAppend(a: seq<Call>, s: seq<(RegisterMeta, Element)>, b: seq<Call>, t: seq<(RegisterMeta, Element)>)
    requires AllPlaced(a, s) && AllPlaced(b, t)
    ensures AllPlaced(a + b, s + t)
  {}

  lemma {:induction false} SlotsAppend(a: seq<RegisterMeta>, b: seq<RegisterMeta>)
    ensures Slots(a + b) == Slots(a) + Slots(b)
  {
    if a == [] {
      assert a + b == b;
    } else {
      assert (a + b)[0] == a[0] && (a + b)[1..] == a[1..] + b;
      SlotsAppend(a[1..], b);
    }
  }

  lemma {:induction false} InfoPlaced(space: RegisterSpace, info: RegisterInfo, meta: RegisterMeta, labels: seq<string>, first: nat, ordinal: nat)
    requires meta.space == space.name && meta.bitWidth == CoreWidth(space, info)
    ensures AllPlaced(InfoCalls(space, info, labels, ordinal), MetaSlots(meta, Elements(labels, first)))
    decreases |labels|
  {
    if labels != [] {
      InfoPlaced(space, info, meta, labels[1..], first + 1, ordinal + 1);
      var call, element := ElementCall(space, info, ordinal, labels[0]), Element(first, labels[0]);
      assert Elements(labels, first)[1..] == Elements(labels[1..], first + 1);
      PlacedAppend([call], [(meta, element)], InfoCalls(space, info, labels[1..], ordinal + 1), MetaSlots(meta, Elements(labels[1..], first + 1)));
    }
  }

  lemma {:induction false} SpacePlaced(space: RegisterSpace, registers: seq<RegisterInfo>)
    requires SpaceSchema(space, registers).Ok?
    ensures AllPlaced(SpaceCalls(space, registers), Slots(SpaceSchema(space, registers).value))
    decreases |registers|
  {
    if registers != [] {
      SpacePlaced(space, registers[1..]);
      if !registers[0].redirected {
        var info, meta := registers[0], Metadata(space, registers[0]).value;
        var tail := SpaceSchema(space, registers[1..]).value;
        InfoPlaced(space, info, meta, Labels(info), First(info), 0);
        assert ([meta] + tail)[1..] == tail;
        PlacedAppend(InfoCalls(space, info, Labels(info), 0), MetaSlots(meta, meta.elements), SpaceCalls(space, registers[1..]), Slots(tail));
      }
    }
  }

  /** The layout pass makes one call for every element of the schema, in the same order. */
  lemma {:induction false} SchemaPlaced(spaces: seq<RegisterSpace>)
    requires BuildSchema(spaces).Ok?
    ensures AllPlaced(MachineCalls(spaces), Slots(BuildSchema(spaces).value))
  {
    if spaces != [] {
      SchemaPlaced(spaces[1..]);
      SpacePlaced(spaces[0], spaces[0].registers);
      var head, tail := SpaceSchema(spaces[0], spaces[0].registers).value, BuildSchema(spaces[1..]).value;
      SlotsAppend(head, tail);
      PlacedAppend(SpaceCalls(spaces[0], spaces[0].registers), Slots(head), MachineCalls(spaces[1..]), Slots(tail));
    }
  }

  // ---- Calls without errors ----

  predicate RegisteredAs(registers: seq<RegisterSpec>, call: Call) {
    exists k | 0 <= k < |registers| :: registers[k].name == call.name && registers[k].width == call.width
  }

  lemma {:induction false} RegistersStay(b: Builder, calls: seq<Call>)
    ensures b.registers <= RunCalls(b, calls).registers
    decreases |calls|
  {
    if calls != [] { RegistersStay(Step(b, calls[0]), calls[1..]); }
  }

  /** When no call failed, every call has its register and no two calls share a name. */
  lemma {:induction false} CallsRegistered(b: Builder, calls: seq<Call>)
    requires RunCalls(b, calls).errors == []
    ensures forall c | c in calls :: RegisteredAs(RunCalls(b, calls).registers, c) && !Seen(b.registers, c.name)
    ensures forall i, j | 0 <= i < j < |calls| :: calls[i].name != calls[j].name
    decreases |calls|
  {
    if calls != [] {
      var next := Step(b, calls[0]);
      ErrorsStay(next, calls[1..]);
      assert next.errors == [] && b.errors == [];
      CallsRegistered(next, calls[1..]);
      RegistersStay(next, calls[1..]);
      var k := |b.registers|;
      assert next.registers[k].name == calls[0].name && next.registers[k].width == calls[0].width;
      assert RunCalls(b, calls).registers[k] == next.registers[k];
      assert Seen(next.registers, calls[0].name);
      forall c | c in calls ensures RegisteredAs(RunCalls(b, calls).registers, c) && !Seen(b.registers, c.name) {
        if Seen(b.registers, c.name) { SeenGrows(b, calls[0], c.name); }
        if c !in calls[1..] { assert c == calls[0]; }
      }
      forall i, j | 0 <= i < j < |calls| ensures calls[i].name != calls[j].name {
        assert calls[j] == calls[1..][j - 1] && calls[1..][j - 1] in calls[1..];
        if i > 0 { assert calls[i] == calls[1..][i - 1]; }
      }
    }
  }

  lemma SeenGrows(b: Builder, call: Call, name: string)
    requires Seen(b.registers, name)
    ensures Seen(Step(b, call).registers, name)
  {
    var k :| 0 <= k < |b.registers| && b.registers[k].name == name;
    assert Step(b, call).registers[k].name == name;
  }

  // ---- Every resolved register has a slot ----

  lemma {:induction false} LayoutFinds(registers: seq<RegisterSpec>, n: nat, k: nat)
    requires k < n <= |registers| && DistinctNames(registers)
    ensures registers[k].name in LayoutFrom(registers, n)
    ensures LayoutFrom(registers, n)[registers[k].name] == Layout(registers[k].offset, registers[k].width)
  {
    if k < n - 1 { LayoutFinds(registers, n - 1, k); }
  }

  /** Where the built layout has put a call's register. */
  lemma SlotPlaced(calls: seq<Call>, call: Call) returns (j: nat)
    requires Build(RunCalls(EMPTY, calls)).Ok? && call in calls
    ensures var spec := Build(RunCalls(EMPTY, calls)).value;
      && j < |spec.registers| && DistinctNames(spec.registers)
      && spec.registers[j].name == call.name && spec.registers[j].width == call.width
      && spec.registers[j].offset + spec.registers[j].width <= spec.totalBits
  {
    var b, spec := RunCalls(EMPTY, calls), Build(RunCalls(EMPTY, calls)).value;
    BuiltSpec(calls);
    CallsRegistered(EMPTY, calls);
    var k :| 0 <= k < |b.registers| && b.registers[k].name == call.name && b.registers[k].width == call.width;
    SortedMembers(b.registers, b.registers[k]);
    j :| 0 <= j < |spec.registers| && spec.registers[j] == b.registers[k];
  }

  /** A register of at most 64 bits of the built layout can be reached in the memory made for it. */
  lemma SlotReachable(calls: seq<Call>, call: Call, order: Endianness)
    requires Build(RunCalls(EMPTY, calls)).Ok? && call in calls && 0 < call.width <= 64
    ensures var core := NewCore(Build(RunCalls(EMPTY, calls)).value, order);
      call.name in core.layout && core.layout[call.name].width == call.width && Window(core, call.name).Ok?
  {
    var spec := Build(RunCalls(EMPTY, calls)).value;
    var j := SlotPlaced(calls, call);
    var r := spec.registers[j];
    LayoutFinds(spec.registers, |spec.registers|, j);
    MemoryHolds(spec.totalBits);
    MemoryIsWords(spec.totalBits);
    WindowFits(NewCore(spec, order), call.name, Layout(r.offset, r.width));
  }

  lemma MemoryHolds(totalBits: nat)
    ensures totalBits <= 8 * MemoryBytes(totalBits)
  {}

  lemma WindowFits(core: Core, name: string, l: Layout)
    requires name in core.layout && core.layout[name] == l && 0 < l.width <= 64 && l.offset + l.width <= |core.bits|
    requires |core.bits| % 64 == 0
    ensures Window(core, name) == Ok(l)
  {
    WholeWords(|core.bits| / 64, l);
  }

  lemma WholeWords(words: nat, l: Layout)
    requires l.offset + l.width <= 64 * words && 0 < l.width <= 64
    ensures ChunkBase(l) + 64 * ChunkWords(l) <= 64 * words
  {}

  lemma MemoryIsWords(totalBits: nat)
    ensures 8 * MemoryBytes(totalBits) % 64 == 0
  {}

  lemma {:induction false} SlotOf(schema: seq<RegisterMeta>, meta: RegisterMeta, e: Element) returns (k: nat)
    requires meta in schema && e in meta.elements
    ensures k < |Slots(schema)| && Slots(schema)[k] == (meta, e)
  {
    if schema[0] == meta {
      var j :| 0 <= j < |meta.elements| && meta.elements[j] == e;
      MetaSlotAt(meta, meta.elements, j);
      k := j;
    } else {
      k := SlotOf(schema[1..], meta, e);
      k := k + |MetaSlots(schema[0], schema[0].elements)|;
    }
  }

  lemma {:induction false} MetaSlotAt(meta: RegisterMeta, elements: seq<Element>, j: nat)
    requires j < |elements|
    ensures MetaSlots(meta, elements)[j] == (meta, elements[j])
  {
    if j > 0 { MetaSlotAt(meta, elements[1..], j - 1); }
  }

  lemma {:induction false} SpaceSchemaBounds(space: RegisterSpace, registers: seq<RegisterInfo>)
    requires SpaceSchema(space, registers).Ok?
    ensures forall meta | meta in SpaceSchema(space, registers).value ::
      0 < meta.bitWidth <= 64 && meta.count == |meta.elements| && meta.space == space.name
    decreases |registers|
  {
    if registers != [] { SpaceSchemaBounds(space, registers[1..]); }
  }

  lemma {:induction false} SchemaBounds(spaces: seq<RegisterSpace>)
    requires BuildSchema(spaces).Ok?
    ensures forall meta | meta in BuildSchema(spaces).value :: 0 < meta.bitWidth <= 64 && meta.count == |meta.elements|
  {
    if spaces != [] {
      SpaceSchemaBounds(spaces[0], spaces[0].registers);
      SchemaBounds(spaces[1..]);
    }
  }

  /** When both passes succeed, every element of the schema names a register of the core that has exactly the
      schema's width and can be read and written. */
  lemma SchemaNamesSlots(spaces: seq<RegisterSpace>, order: Endianness, meta: RegisterMeta, e: Element)
    requires BuildSchema(spaces).Ok? && FromMachine(spaces).Ok?
    requires meta in BuildSchema(spaces).value && e in meta.elements
    ensures var core, name := NewCore(FromMachine(spaces).value, order), SlotName(meta.space, e.text);
      name in core.layout && core.layout[name].width == meta.bitWidth && Window(core, name).Ok?
  {
    SchemaPlaced(spaces);
    SchemaBounds(spaces);
    var k := SlotOf(BuildSchema(spaces).value, meta, e);
    SlotReachable(MachineCalls(spaces), MachineCalls(spaces)[k], order);
  }

  /** Distinct elements of the schema never share a name. */
  lemma SlotNamesDistinct(spaces: seq<RegisterSpace>, meta: RegisterMeta, e: Element, other: RegisterMeta, f: Element)
    requires BuildSchema(spaces).Ok? && FromMachine(spaces).Ok?
    requires meta in BuildSchema(spaces).value && e in meta.elements
    requires other in BuildSchema(spaces).value && f in other.elements
    requires SlotName(meta.space, e.text) == SlotName(other.space, f.text)
    ensures meta == other && e == f
  {
    SchemaPlaced(spaces);
    CallsRegistered(EMPTY, MachineCalls(spaces));
    var k := SlotOf(BuildSchema(spaces).value, meta, e);
    var l := SlotOf(BuildSchema(spaces).value, other, f);
    assert Places(MachineCalls(spaces)[k], (meta, e)) && Places(MachineCalls(spaces)[l], (other, f));
  }

  // ---- Index and label ----

  /** No two registers of the schema have the same key. */
  predicate DistinctKeys(schema: seq<RegisterMeta>) {
    forall j, k | 0 <= j < k < |schema| :: schema[j].space != schema[k].space || schema[j].name != schema[k].name
  }

  lemma {:induction false} LookupFinds(schema: seq<RegisterMeta>, meta: RegisterMeta)
    requires DistinctKeys(schema) && meta in schema
    ensures LookupMeta(schema, meta.space, meta.name) == Some(meta)
  {
    if schema[0] != meta {
      var k :| 0 <= k < |schema| && schema[k] == meta;
      assert schema[1..][k - 1] == meta;
      forall i, j | 0 <= i < j < |schema[1..]| ensures schema[1..][i].space != schema[1..][j].space || schema[1..][i].name != schema[1..][j].name {
        assert schema[1..][i] == schema[i + 1] && schema[1..][j] == schema[j + 1];
      }
      LookupFinds(schema[1..], meta);
    }
  }

  lemma {:induction false} IndexFindsElement(labels: seq<string>, first: nat, k: nat)
    requires k < |labels|
    ensures Elements(labels, first)[k] == Element(first + k, labels[k])
    ensures IndexedElement(Elements(labels, first), first + k) == Some(Elements(labels, first)[k])
    decreases |labels|
  {
    if k > 0 { IndexFindsElement(labels[1..], first + 1, k - 1); }
  }

  lemma {:induction false} LabelledIn(elements: seq<Element>, text: string)
    ensures var r := LabelledElement(elements, text);
      (r.Some? ==> r.value in elements && r.value.text == text) && (r.None? ==> forall e | e in elements :: e.text != text)
  {
    if elements != [] {
      LabelledIn(elements[1..], text);
      assert elements == [elements[0]] + elements[1..];
    }
  }

  lemma {:induction false} FindByLabelIn(schema: seq<RegisterMeta>, space: string, text: string)
    ensures var r := FindByLabel(schema, space, text);
      && (r.Some? ==> r.value.0 in schema && r.value.0.space == space && r.value.1 in r.value.0.elements && r.value.1.text == text)
      && (r.None? ==> forall m | m in schema :: m.space == space ==> forall e | e in m.elements :: e.text != text)
  {
    if schema != [] {
      LabelledIn(schema[0].elements, text);
      FindByLabelIn(schema[1..], space, text);
      assert schema == [schema[0]] + schema[1..];
    }
  }

  /** The metadata comes from a declaration, so its elements are numbered in order. */
  ghost predicate Numbered(meta: RegisterMeta) {
    exists labels, first :: meta.elements == Elements(labels, first)
  }

  lemma {:induction false} SpaceSchemaNumbered(space: RegisterSpace, registers: seq<RegisterInfo>, meta: RegisterMeta)
    requires SpaceSchema(space, registers).Ok? && meta in SpaceSchema(space, registers).value
    ensures Numbered(meta)
    decreases |registers|
  {
    if registers[0].redirected {
      SpaceSchemaNumbered(space, registers[1..], meta);
    } else if meta != Metadata(space, registers[0]).value {
      SpaceSchemaNumbered(space, registers[1..], meta);
    } else {
      assert meta.elements == Elements(Labels(registers[0]), First(registers[0]));
    }
  }

  lemma {:induction false} SchemaNumbered(spaces: seq<RegisterSpace>, meta: RegisterMeta)
    requires BuildSchema(spaces).Ok? && meta in BuildSchema(spaces).value
    ensures Numbered(meta)
  {
    var head := SpaceSchema(spaces[0], spaces[0].registers).value;
    if meta in head {
      SpaceSchemaNumbered(spaces[0], spaces[0].registers, meta);
    } else {
      SchemaNumbered(spaces[1..], meta);
    }
  }
}
