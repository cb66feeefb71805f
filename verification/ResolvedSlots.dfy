/** What resolved registers and arrays have in the core that is laid out for them
    (`src/soc/isa/semantics/register.rs`, `src/soc/core/specification.rs`). */
module ResolvedSlots {
  import opened Words
  import opened Results
  import opened Semantics
  import opened RegisterFile
  import opened Registers
  import opened CoreLayout
  import opened Schema

  // ---- The elements of an array ----

  /** The bit offset that a declaration fixes for an element, when it fits 32 bits. */
  function FixedOffset(space: RegisterSpace, info: RegisterInfo, ordinal: nat): nat {
    (if info.offset.Some? then info.offset.value * 8 else 0) + ordinal * CoreWidth(space, info)
  }

  predicate IsFixed(space: RegisterSpace, info: RegisterInfo, ordinal: nat) {
    info.offset.Some? && FixedOffset(space, info, ordinal) < 0x1_0000_0000
  }

  lemma NextOffset(space: RegisterSpace, info: RegisterInfo, ordinal: nat)
    ensures FixedOffset(space, info, ordinal + 1) == FixedOffset(space, info, ordinal) + CoreWidth(space, info)
    ensures IsFixed(space, info, ordinal + 1) ==> IsFixed(space, info, ordinal)
  {
    assert (ordinal + 1) * CoreWidth(space, info) == ordinal * CoreWidth(space, info) + CoreWidth(space, info);
  }

  lemma ElementPlace(space: RegisterSpace, info: RegisterInfo, ordinal: nat, text: string, cursor: nat)
    ensures var call := ElementCall(space, info, ordinal, text);
      var r := SpecOf(cursor, call);
      && r.name == SlotName(space.name, text) && r.width == CoreWidth(space, info)
      && r.offset == (if IsFixed(space, info, ordinal) then FixedOffset(space, info, ordinal) else cursor)
      && CursorAfter(cursor, call) >= Extent(r) && CursorAfter(cursor, call) >= cursor
  {}

  /** All later elements start at or above a bound that the cursor and the next fixed offset respect. */
  lemma {:induction false} ElementsStartAt(space: RegisterSpace, info: RegisterInfo, labels: seq<string>, ordinal: nat, cursor: nat, bound: nat)
    requires cursor >= bound && (IsFixed(space, info, ordinal) ==> FixedOffset(space, info, ordinal) >= bound)
    ensures forall r | r in Placements(cursor, InfoCalls(space, info, labels, ordinal)) :: r.offset >= bound
    decreases |labels|
  {
    if labels != [] {
      var call := ElementCall(space, info, ordinal, labels[0]);
      ElementPlace(space, info, ordinal, labels[0], cursor);
      NextOffset(space, info, ordinal);
      ElementsStartAt(space, info, labels[1..], ordinal + 1, CursorAfter(cursor, call), bound);
      assert InfoCalls(space, info, labels, ordinal)[1..] == InfoCalls(space, info, labels[1..], ordinal + 1);
    }
  }

  ghost predicate PairwiseDisjoint(registers: seq<RegisterSpec>) {
    forall i, j | 0 <= i < j < |registers| :: DisjointSpecs(registers[i], registers[j])
  }

  /** The elements of one array, placed from whatever cursor, never share a bit: fixed ones lie a width apart, and once
      the offsets no longer fit, the others follow the cursor. */
  lemma {:induction false} ElementsDisjoint(space: RegisterSpace, info: RegisterInfo, labels: seq<string>, ordinal: nat, cursor: nat)
    ensures PairwiseDisjoint(Placements(cursor, InfoCalls(space, info, labels, ordinal)))
    decreases |labels|
  {
    if labels != [] {
      var call := ElementCall(space, info, ordinal, labels[0]);
      var first, next := SpecOf(cursor, call), CursorAfter(cursor, call);
      var rest := Placements(next, InfoCalls(space, info, labels[1..], ordinal + 1));
      var all := Placements(cursor, InfoCalls(space, info, labels, ordinal));
      assert InfoCalls(space, info, labels, ordinal)[1..] == InfoCalls(space, info, labels[1..], ordinal + 1);
      ElementPlace(space, info, ordinal, labels[0], cursor);
      NextOffset(space, info, ordinal);
      ElementsStartAt(space, info, labels[1..], ordinal + 1, next, Extent(first));
      ElementsDisjoint(space, info, labels[1..], ordinal + 1, next);
      forall i, j | 0 <= i < j < |all| ensures DisjointSpecs(all[i], all[j]) {
        assert all[j] == rest[j - 1] && rest[j - 1] in rest;
        if i > 0 { assert all[i] == rest[i - 1]; }
      }
    }
  }

  lemma {:induction false} InfoCallAt(space: RegisterSpace, info: RegisterInfo, labels: seq<string>, ordinal: nat, cursor: nat, k: nat)
    requires k < |labels|
    ensures var placed := Placements(cursor, InfoCalls(space, info, labels, ordinal));
      placed[k].name == SlotName(space.name, labels[k]) && placed[k].width == CoreWidth(space, info)
    decreases |labels|
  {
    ElementPlace(space, info, ordinal, labels[0], cursor);
    assert InfoCalls(space, info, labels, ordinal)[1..] == InfoCalls(space, info, labels[1..], ordinal + 1);
    if k > 0 {
      var next := CursorAfter(cursor, ElementCall(space, info, ordinal, labels[0]));
      InfoCallAt(space, info, labels[1..], ordinal + 1, next, k - 1);
    }
  }

  // ---- The array within the machine ----

  lemma {:induction false} SpaceCallsSplit(space: RegisterSpace, registers: seq<RegisterInfo>, k: nat) returns (before: seq<Call>, after: seq<Call>)
    requires k < |registers| && !registers[k].redirected
    ensures SpaceCalls(space, registers) == before + InfoCalls(space, registers[k], Labels(registers[k]), 0) + after
    decreases |registers|
  {
    if k == 0 {
      before, after := [], SpaceCalls(space, registers[1..]);
    } else {
      before, after := SpaceCallsSplit(space, registers[1..], k - 1);
      if !registers[0].redirected { before := InfoCalls(space, registers[0], Labels(registers[0]), 0) + before; }
    }
  }

  lemma {:induction false} MachineCallsSplit(spaces: seq<RegisterSpace>, s: nat, k: nat) returns (before: seq<Call>, after: seq<Call>)
    requires s < |spaces| && k < |spaces[s].registers| && !spaces[s].registers[k].redirected
    ensures var info := spaces[s].registers[k];
      MachineCalls(spaces) == before + InfoCalls(spaces[s], info, Labels(info), 0) + after
    decreases |spaces|
  {
    if s == 0 {
      before, after := SpaceCallsSplit(spaces[0], spaces[0].registers, k);
      after := after + MachineCalls(spaces[1..]);
    } else {
      before, after := MachineCallsSplit(spaces[1..], s - 1, k);
      before := SpaceCalls(spaces[0], spaces[0].registers) + before;
    }
  }

  /** The machine's layout holds the placements of the array, from some cursor on. */
  lemma ArrayPlaced(spaces: seq<RegisterSpace>, s: nat, k: nat) returns (cursor: nat)
    requires FromMachine(spaces).Ok? && s < |spaces| && k < |spaces[s].registers| && !spaces[s].registers[k].redirected
    ensures var info := spaces[s].registers[k];
      forall r | r in Placements(cursor, InfoCalls(spaces[s], info, Labels(info), 0)) :: r in FromMachine(spaces).value.registers
  {
    var info := spaces[s].registers[k];
    var before, after := MachineCallsSplit(spaces, s, k);
    var elements := InfoCalls(spaces[s], info, Labels(info), 0);
    cursor := CursorAfterAll(0, before);
    RunPlaces(EMPTY, MachineCalls(spaces));
    PlacementsAppend(0, before + elements, after);
    PlacementsAppend(0, before, elements);
    var registers := RunCalls(EMPTY, MachineCalls(spaces)).registers;
    forall r | r in Placements(cursor, elements) ensures r in FromMachine(spaces).value.registers {
      assert r in Placements(0, before + elements) && r in registers;
      SortedMembers(registers, r);
    }
  }

  lemma SameNameSame(registers: seq<RegisterSpec>, a: RegisterSpec, b: RegisterSpec)
    requires DistinctNames(registers) && a in registers && b in registers && a.name == b.name
    ensures a == b
  {}

  /** In every layout that builds, the registers of two elements of one declared array share no bit, and each has the
      array's width. */
  lemma ArrayElementsDisjoint(spaces: seq<RegisterSpace>, s: nat, k: nat, i: nat, j: nat, a: RegisterSpec, b: RegisterSpec)
    requires FromMachine(spaces).Ok? && s < |spaces| && k < |spaces[s].registers| && !spaces[s].registers[k].redirected
    requires i < j < |Labels(spaces[s].registers[k])|
    requires a in FromMachine(spaces).value.registers && a.name == SlotName(spaces[s].name, Labels(spaces[s].registers[k])[i])
    requires b in FromMachine(spaces).value.registers && b.name == SlotName(spaces[s].name, Labels(spaces[s].registers[k])[j])
    ensures DisjointSpecs(a, b) && a.width == b.width == CoreWidth(spaces[s], spaces[s].registers[k])
  {
    var info, registers := spaces[s].registers[k], FromMachine(spaces).value.registers;
    var cursor := ArrayPlaced(spaces, s, k);
    var placed := Placements(cursor, InfoCalls(spaces[s], info, Labels(info), 0));
    BuiltSpec(MachineCalls(spaces));
    InfoCallAt(spaces[s], info, Labels(info), 0, cursor, i);
    InfoCallAt(spaces[s], info, Labels(info), 0, cursor, j);
    SameNameSame(registers, a, placed[i]);
    SameNameSame(registers, b, placed[j]);
    ElementsDisjoint(spaces[s], info, Labels(info), 0, cursor);
  }

  // ---- Resolved registers ----

  predicate InSchema(isa: Isa, r: Resolved) {
    r.meta in isa.schema && r.element in r.meta.elements
  }

  lemma {:induction false} LookupIn(schema: seq<RegisterMeta>, space: string, name: string)
    ensures var r := LookupMeta(schema, space, name);
      r.Some? ==> r.value in schema && r.value.space == space && r.value.name == name
  {
    if schema != [] { LookupIn(schema[1..], space, name); }
  }

  lemma {:induction false} IndexedIn(elements: seq<Element>, index: int)
    ensures var r := IndexedElement(elements, index); r.Some? ==> r.value in elements && r.value.index == index
  {
    if elements != [] { IndexedIn(elements[1..], index); }
  }

  lemma ResolveDirectIn(isa: Isa, space: string, name: string, subfield: Option<string>, index: Option<I64>, alias: Option<seq<FieldMeta>>)
    ensures var r := ResolveDirect(isa, space, name, subfield, index, alias);
      r.Ok? && r.value.Some? ==> InSchema(isa, r.value.value)
  {
    var meta := LookupMeta(isa.schema, space, name);
    LookupIn(isa.schema, space, name);
    if meta.Some? {
      if index.Some? { IndexedIn(meta.value.elements, index.value); }
    } else {
      FindByLabelIn(isa.schema, space, name);
    }
  }

  lemma ResolveIn(isa: Isa, space: string, name: string, subfield: Option<string>, index: Option<I64>)
    ensures var r := Resolve(isa, space, name, subfield, index); r.Ok? ==> InSchema(isa, r.value)
  {
    var alias := if (space, name) in isa.aliasFields then Some(isa.aliasFields[(space, name)]) else None;
    ResolveDirectIn(isa, space, name, subfield, index, alias);
    var target := FollowRedirect(isa, (space, name), 0);
    if target.Ok? && target.value.Some? {
      ResolveDirectIn(isa, target.value.value.0, target.value.value.1, subfield, index, alias);
    }
  }

  /** When the schema and the layout both build, every register that a reference resolves to, by name, index, label,
      alias or redirect and with or without a subfield, is a register of the core, has the width of its declaration,
      and can be read and written. */
  lemma ResolvedHasSlot(isa: Isa, spaces: seq<RegisterSpace>, order: Endianness, space: string, name: string,
                        subfield: Option<string>, index: Option<I64>)
    requires BuildSchema(spaces) == Ok(isa.schema) && FromMachine(spaces).Ok?
    requires Resolve(isa, space, name, subfield, index).Ok?
    ensures var core, r := NewCore(FromMachine(spaces).value, order), Resolve(isa, space, name, subfield, index).value;
      && ResolvedName(r) in core.layout && core.layout[ResolvedName(r)].width == r.meta.bitWidth
      && Window(core, ResolvedName(r)).Ok?
  {
    ResolveIn(isa, space, name, subfield, index);
    var r := Resolve(isa, space, name, subfield, index).value;
    SchemaNamesSlots(spaces, order, r.meta, r.element);
  }

  // ---- Index and label ----

  predicate NoAlias(isa: Isa, space: string, name: string) {
    (space, name) !in isa.aliasFields
  }

  /** What the subfield of an element resolves to without the fields of an alias. */
  function OwnField(meta: RegisterMeta, e: Element, subfield: Option<string>): Outcome<Resolved> {
    var field :- SelectField(meta, subfield, None);
    Ok(Resolved(meta, e, field))
  }

  lemma IndexResolves(isa: Isa, spaces: seq<RegisterSpace>, meta: RegisterMeta, k: nat, subfield: Option<string>)
    requires BuildSchema(spaces) == Ok(isa.schema) && DistinctKeys(isa.schema)
    requires meta in isa.schema && meta.count >= 2 && k < |meta.elements| && meta.elements[k].index < 0x1_0000_0000
    requires NoAlias(isa, meta.space, meta.name)
    ensures Resolve(isa, meta.space, meta.name, subfield, Some(meta.elements[k].index)) == OwnField(meta, meta.elements[k], subfield)
  {
    var e := meta.elements[k];
    SchemaNumbered(spaces, meta);
    var labels, first :| meta.elements == Elements(labels, first);
    IndexFindsElement(labels, first, k);
    LookupFinds(isa.schema, meta);
    assert SelectElement(meta, meta.name, Some(e.index)) == Ok(e);
  }

  lemma LabelResolves(isa: Isa, spaces: seq<RegisterSpace>, meta: RegisterMeta, k: nat, subfield: Option<string>)
    requires BuildSchema(spaces) == Ok(isa.schema) && FromMachine(spaces).Ok?
    requires meta in isa.schema && k < |meta.elements|
    requires LookupMeta(isa.schema, meta.space, meta.elements[k].text).None?
    requires NoAlias(isa, meta.space, meta.elements[k].text) || OwnField(meta, meta.elements[k], subfield).Ok?
    ensures Resolve(isa, meta.space, meta.elements[k].text, subfield, None) == OwnField(meta, meta.elements[k], subfield)
  {
    var e := meta.elements[k];
    FindByLabelIn(isa.schema, meta.space, e.text);
    var found := FindByLabel(isa.schema, meta.space, e.text);
    SlotNamesDistinct(spaces, meta, e, found.value.0, found.value.1);
  }

  lemma DeclaredNameWins(isa: Isa, meta: RegisterMeta, e: Element, subfield: Option<string>)
    requires LookupMeta(isa.schema, meta.space, e.text).Some? && meta.name != e.text && OwnField(meta, e, subfield).Ok?
    ensures Resolve(isa, meta.space, e.text, subfield, None) != OwnField(meta, e, subfield)
  {
    LookupIn(isa.schema, meta.space, e.text);
  }

  /** In an array of at least two elements, with any subfield: an index resolves to its element, and where that
      succeeds the element's label resolves to the same exactly when no register is declared under that label. */
  lemma IndexAndLabelAgreeIff(isa: Isa, spaces: seq<RegisterSpace>, meta: RegisterMeta, k: nat, subfield: Option<string>)
    requires BuildSchema(spaces) == Ok(isa.schema) && FromMachine(spaces).Ok? && DistinctKeys(isa.schema)
    requires meta in isa.schema && meta.count >= 2 && k < |meta.elements| && meta.elements[k].index < 0x1_0000_0000
    requires NoAlias(isa, meta.space, meta.name)
    ensures var e := meta.elements[k];
      var byIndex := Resolve(isa, meta.space, meta.name, subfield, Some(e.index));
      var byLabel := Resolve(isa, meta.space, e.text, subfield, None);
      && byIndex == OwnField(meta, e, subfield)
      && (byIndex.Ok? ==> (byLabel == byIndex <==> LookupMeta(isa.schema, meta.space, e.text).None?))
      && (LookupMeta(isa.schema, meta.space, e.text).None? && NoAlias(isa, meta.space, e.text) ==> byLabel == byIndex)
  {
    var e := meta.elements[k];
    var byIndex := Resolve(isa, meta.space, meta.name, subfield, Some(e.index));
    IndexResolves(isa, spaces, meta, k, subfield);
    if LookupMeta(isa.schema, meta.space, e.text).None? {
      if byIndex.Ok? || NoAlias(isa, meta.space, e.text) { LabelResolves(isa, spaces, meta, k, subfield); }
    } else if byIndex.Ok? {
      if meta.name == e.text {
        LookupFinds(isa.schema, meta);
        assert SelectElement(meta, e.text, None) == Err(MissingIndex(e.text));
      } else {
        DeclaredNameWins(isa, meta, e, subfield);
      }
    }
  }
}
