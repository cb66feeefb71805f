/** Register references that the analyzer accepts, and what resolving them at run time can still find: the analyzer
    looks into the declarations, the resolver into the schema (`src/soc/isa/semantics/{analyzer,register}.rs`,
    `src/soc/isa/machine/register.rs`). */
module KnownReferences {
  import opened Results
  import opened Words
  import opened Semantics
  import opened RegisterFile
  import opened Registers
  import opened Analyzer
  import opened Schema
  import DeclaredRedirects
  import Validation
  import Machine
  import Numerals

  predicate HasField(fields: seq<FieldMeta>, name: string) {
    exists f | f in fields :: f.name == name
  }

  /** The schema and the alias fields say of a declaration what the declaration says. */
  predicate Reflected(isa: Isa, space: string, name: string, d: RegisterDecl) {
    var meta := LookupMeta(isa.schema, space, name);
    if d.redirect.None? then meta.Some? && forall sub | sub in d.subfields :: HasField(meta.value.fields, sub)
    else
      meta.None? && forall sub | sub in d.subfields ::
        (space, name) in isa.aliasFields && HasField(isa.aliasFields[(space, name)], sub)
  }

  /** Every declared register is reflected, and the schema has no others. */
  ghost predicate TablesAgree(isa: Isa) {
    && (forall space, name | space in isa.spaces && isa.spaces[space].isRegister && name in isa.spaces[space].registers ::
          Reflected(isa, space, name, isa.spaces[space].registers[name]))
    && (forall meta | meta in isa.schema ::
          && meta.space in isa.spaces && meta.name in isa.spaces[meta.space].registers
          && isa.spaces[meta.space].registers[meta.name].redirect.None?
          && LookupMeta(isa.schema, meta.space, meta.name) == Some(meta))
  }

  // ---- Building makes the tables agree ----

  /** The declarations of the machine's spaces are those that its schema is built from: one entry for each, with its
      fields; the fields of a redirected register are its alias fields. */
  ghost predicate SameDeclarations(isa: Isa, spaces: seq<RegisterSpace>) {
    && BuildSchema(spaces) == Ok(isa.schema) && DistinctKeys(isa.schema)
    && (forall s, info | s in spaces && info in s.registers ::
          && s.name in isa.spaces && info.name in isa.spaces[s.name].registers
          && (isa.spaces[s.name].registers[info.name].redirect.Some? <==> info.redirected))
    && (forall space, name | space in isa.spaces && isa.spaces[space].isRegister && name in isa.spaces[space].registers ::
          DeclaredAs(isa, spaces, space, name))
  }

  ghost predicate DeclaredAs(isa: Isa, spaces: seq<RegisterSpace>, space: string, name: string)
    requires space in isa.spaces && name in isa.spaces[space].registers
  {
    var d := isa.spaces[space].registers[name];
    exists s, info | s in spaces && info in s.registers ::
      && s.name == space && info.name == name && (d.redirect.Some? <==> info.redirected)
      && (forall sub | sub in d.subfields :: HasField(info.fields, sub))
      && (info.redirected && d.subfields != [] ==>
            (space, name) in isa.aliasFields && isa.aliasFields[(space, name)] == info.fields)
  }

  lemma {:induction false} SpaceSchemaHas(space: RegisterSpace, registers: seq<RegisterInfo>, info: RegisterInfo)
    requires SpaceSchema(space, registers).Ok? && info in registers && !info.redirected
    ensures Metadata(space, info).Ok? && Metadata(space, info).value in SpaceSchema(space, registers).value
    decreases |registers|
  {
    if registers[0] != info {
      assert registers == [registers[0]] + registers[1..];
      SpaceSchemaHas(space, registers[1..], info);
    }
  }

  lemma {:induction false} SchemaHas(spaces: seq<RegisterSpace>, space: RegisterSpace, info: RegisterInfo)
    requires BuildSchema(spaces).Ok? && space in spaces && info in space.registers && !info.redirected
    ensures Metadata(space, info).Ok? && Metadata(space, info).value in BuildSchema(spaces).value
  {
    if spaces[0] == space {
      SpaceSchemaHas(space, space.registers, info);
    } else {
      assert spaces == [spaces[0]] + spaces[1..];
      SchemaHas(spaces[1..], space, info);
    }
  }

  lemma {:induction false} SpaceSchemaFrom(space: RegisterSpace, registers: seq<RegisterInfo>, meta: RegisterMeta) returns (info: RegisterInfo)
    requires SpaceSchema(space, registers).Ok? && meta in SpaceSchema(space, registers).value
    ensures info in registers && !info.redirected && Metadata(space, info) == Ok(meta)
    decreases |registers|
  {
    if !registers[0].redirected && Metadata(space, registers[0]).value == meta {
      info := registers[0];
    } else {
      info := SpaceSchemaFrom(space, registers[1..], meta);
    }
  }

  lemma {:induction false} SchemaFrom(spaces: seq<RegisterSpace>, meta: RegisterMeta) returns (space: RegisterSpace, info: RegisterInfo)
    requires BuildSchema(spaces).Ok? && meta in BuildSchema(spaces).value
    ensures space in spaces && info in space.registers && !info.redirected && Metadata(space, info) == Ok(meta)
  {
    if meta in SpaceSchema(spaces[0], spaces[0].registers).value {
      space := spaces[0];
      info := SpaceSchemaFrom(space, space.registers, meta);
    } else {
      space, info := SchemaFrom(spaces[1..], meta);
    }
  }

  lemma {:induction false} LookupFrom(schema: seq<RegisterMeta>, space: string, name: string)
    ensures var r := LookupMeta(schema, space, name); r.Some? ==> r.value in schema && r.value.space == space && r.value.name == name
  {
    if schema != [] { LookupFrom(schema[1..], space, name); }
  }

  lemma DeclaredIsReflected(isa: Isa, spaces: seq<RegisterSpace>, space: string, name: string)
    requires SameDeclarations(isa, spaces) && space in isa.spaces && isa.spaces[space].isRegister && name in isa.spaces[space].registers
    ensures Reflected(isa, space, name, isa.spaces[space].registers[name])
  {
    var d := isa.spaces[space].registers[name];
    assert DeclaredAs(isa, spaces, space, name);
    var s, info :| s in spaces && info in s.registers && s.name == space && info.name == name && (d.redirect.Some? <==> info.redirected)
      && (forall sub | sub in d.subfields :: HasField(info.fields, sub))
      && (info.redirected && d.subfields != [] ==> (space, name) in isa.aliasFields && isa.aliasFields[(space, name)] == info.fields);
    if info.redirected {
      LookupFrom(isa.schema, space, name);
      if LookupMeta(isa.schema, space, name).Some? {
        var t, other := SchemaFrom(spaces, LookupMeta(isa.schema, space, name).value);
        assert false;
      }
    } else {
      SchemaHas(spaces, s, info);
      LookupFinds(isa.schema, Metadata(s, info).value);
    }
  }

  /** The schema that is built from the machine's declarations agrees with them. */
  lemma BuiltTablesAgree(isa: Isa, spaces: seq<RegisterSpace>)
    requires SameDeclarations(isa, spaces)
    ensures TablesAgree(isa)
  {
    forall space, name | space in isa.spaces && isa.spaces[space].isRegister && name in isa.spaces[space].registers
      ensures Reflected(isa, space, name, isa.spaces[space].registers[name])
    {
      DeclaredIsReflected(isa, spaces, space, name);
    }
    forall meta | meta in isa.schema
      ensures meta.space in isa.spaces && meta.name in isa.spaces[meta.space].registers
      ensures isa.spaces[meta.space].registers[meta.name].redirect.None? && LookupMeta(isa.schema, meta.space, meta.name) == Some(meta)
    {
      var s, info := SchemaFrom(spaces, meta);
      LookupFinds(isa.schema, meta);
    }
  }

  // ---- What an accepted reference can still meet ----

  lemma {:induction false} FieldIsNamed(fields: seq<FieldMeta>, name: string)
    requires HasField(fields, name)
    ensures FieldNamed(fields, name).Some?
  {
    if !EqIgnoreCase(fields[0].name, name) {
      assert fields == [fields[0]] + fields[1..];
      FieldIsNamed(fields[1..], name);
    }
  }

  lemma FieldSelected(meta: RegisterMeta, subfield: Option<string>, alias: Option<seq<FieldMeta>>)
    requires subfield.Some? ==> HasField(meta.fields, subfield.value) || (alias.Some? && HasField(alias.value, subfield.value))
    ensures SelectField(meta, subfield, alias).Ok?
  {
    if subfield.Some? {
      if HasField(meta.fields, subfield.value) {
        FieldIsNamed(meta.fields, subfield.value);
      } else {
        FieldIsNamed(alias.value, subfield.value);
      }
    }
  }

  predicate IndexFault(e: SemError) {
    e.BadIndex? || e.MissingIndex? || e.MissingElement?
  }

  function AliasOf(isa: Isa, space: string, name: string): Option<seq<FieldMeta>> {
    if (space, name) in isa.aliasFields then Some(isa.aliasFields[(space, name)]) else None
  }

  /** Neither a register nor a label of the schema. */
  predicate Nowhere(isa: Isa, at: Location) {
    LookupMeta(isa.schema, at.0, at.1).None? && FindByLabel(isa.schema, at.0, at.1).None?
  }

  /** With fields that are there, direct resolution fails on the index only. */
  lemma DirectFaults(isa: Isa, at: Location, subfield: Option<string>, index: Option<I64>, alias: Option<seq<FieldMeta>>)
    requires forall meta | meta in isa.schema :: SelectField(meta, subfield, alias).Ok?
    ensures var r := ResolveDirect(isa, at.0, at.1, subfield, index, alias);
      (r.Err? ==> IndexFault(r.error)) && (r == Ok(None) <==> Nowhere(isa, at))
  {
    LookupFrom(isa.schema, at.0, at.1);
    FindByLabelIn(isa.schema, at.0, at.1);
  }

  /** The same when only the register that is found has the field. */
  lemma DirectFaultsAt(isa: Isa, at: Location, subfield: Option<string>, index: Option<I64>, alias: Option<seq<FieldMeta>>)
    requires LookupMeta(isa.schema, at.0, at.1).Some? ==> SelectField(LookupMeta(isa.schema, at.0, at.1).value, subfield, alias).Ok?
    requires LookupMeta(isa.schema, at.0, at.1).None? && FindByLabel(isa.schema, at.0, at.1).Some? ==>
      SelectField(FindByLabel(isa.schema, at.0, at.1).value.0, subfield, alias).Ok?
    ensures var r := ResolveDirect(isa, at.0, at.1, subfield, index, alias);
      (r.Err? ==> IndexFault(r.error)) && (r == Ok(None) <==> Nowhere(isa, at))
  {}

  /** A reference that the analyzer accepts to a register that is not redirected fails on its index only. */
  lemma PlainReferenceResolves(isa: Isa, space: string, name: string, subfield: Option<string>, index: Option<I64>)
    requires TablesAgree(isa) && RegisterKnown(isa, space, name, subfield) && RedirectAt(isa, (space, name)).None?
    ensures var r := Resolve(isa, space, name, subfield, index); r.Err? ==> IndexFault(r.error)
  {
    var registers, alias := isa.spaces[space].registers, AliasOf(isa, space, name);
    if name in registers {
      assert Reflected(isa, space, name, registers[name]);
      FieldSelected(LookupMeta(isa.schema, space, name).value, subfield, alias);
    } else {
      LookupFrom(isa.schema, space, name);
      FindByLabelIn(isa.schema, space, name);
      var meta := FindByLabel(isa.schema, space, name).value.0;
      assert Reflected(isa, space, meta.name, registers[meta.name]);
      FieldSelected(meta, subfield, alias);
    }
    DirectFaultsAt(isa, (space, name), subfield, index, alias);
  }

  /** What following a redirect adds: the chain may be too deep, name a subfield, or end where the schema has nothing. */
  predicate ChainFault(isa: Isa, at: Location, e: SemError) {
    var target := FollowRedirect(isa, at, 0);
    || (target.Err? && e == target.error)
    || (target.Ok? && e == UnknownRegister(at.0, at.1) && (target.value.Some? ==> Nowhere(isa, target.value.value)))
  }

  /** An accepted reference to a redirected register never misses its subfield; it fails on its index, or exactly when
      no element has its name as a label and the redirect leads nowhere. */
  lemma RedirectedReferenceResolves(isa: Isa, space: string, name: string, subfield: Option<string>, index: Option<I64>)
    requires TablesAgree(isa) && RegisterKnown(isa, space, name, subfield) && RedirectAt(isa, (space, name)).Some?
    ensures var r := Resolve(isa, space, name, subfield, index);
      && (r.Err? ==> IndexFault(r.error) || (Nowhere(isa, (space, name)) && ChainFault(isa, (space, name), r.error)))
      && (var target := FollowRedirect(isa, (space, name), 0);
          Nowhere(isa, (space, name)) && (target.Err? || target.value.None? || Nowhere(isa, target.value.value)) ==> r.Err?)
  {
    var alias := AliasOf(isa, space, name);
    assert Reflected(isa, space, name, isa.spaces[space].registers[name]);
    forall meta | meta in isa.schema ensures SelectField(meta, subfield, alias).Ok? { FieldSelected(meta, subfield, alias); }
    DirectFaults(isa, (space, name), subfield, index, alias);
    var target := FollowRedirect(isa, (space, name), 0);
    if target.Ok? && target.value.Some? { DirectFaults(isa, target.value.value, subfield, index, alias); }
  }

  // ---- What a declaration puts into the schema ----

  /** The width of a register is its own size, or else that of its space, or else 64 bits. */
  predicate SizeGiven(space: RegisterSpace, info: RegisterInfo, width: nat) {
    if info.size.Some? then info.size == Some(width) else if space.size.Some? then space.size == Some(width) else width == 64
  }

  /** The k-th element has the k-th index of the range, and its label: the display pattern at that index, or the name
      with the index behind it; a register without a range is its own element. */
  predicate ElementDeclared(info: RegisterInfo, k: nat, e: Element) {
    && e.index == (if info.range.Some? then info.range.value.first + k else 0)
    && (info.display.Some? && e.index < WORD ==> e.text == info.display.value(e.index))
    && (info.display.None? ==> e.text == if info.range.Some? then info.name + Numerals.Decimal(e.index) else info.name)
  }

  /** Every register that is declared without a redirect has an entry in the schema that builds, with the declared width,
      which is then between 1 and 64 bits, and the declared elements. */
  lemma DeclaredMeans(spaces: seq<RegisterSpace>, space: RegisterSpace, info: RegisterInfo) returns (meta: RegisterMeta)
    requires BuildSchema(spaces).Ok? && space in spaces && info in space.registers && !info.redirected
    ensures meta in BuildSchema(spaces).value && meta.space == space.name && meta.name == info.name && meta.fields == info.fields
    ensures SizeGiven(space, info, meta.bitWidth) && 1 <= meta.bitWidth <= 64
    ensures |meta.elements| == if info.range.None? then 1 else if info.range.value.last < info.range.value.first then 0
                               else info.range.value.last - info.range.value.first + 1
    ensures forall k | 0 <= k < |meta.elements| :: ElementDeclared(info, k, meta.elements[k])
  {
    SchemaHas(spaces, space, info);
    meta := Metadata(space, info).value;
    forall k | 0 <= k < |meta.elements| ensures ElementDeclared(info, k, meta.elements[k]) {
      IndexFindsElement(Labels(info), First(info), k);
      assert meta.elements[k].text == Labels(info)[k] == Label(info, First(info) + k);
    }
  }

  // ---- An input ----

  /** An array of one element with a display pattern of its own, and a redirect to that element under its default name. */
  const DOCUMENT: seq<Validation.Item> := [
    DeclaredRedirects.REG,
    DeclaredRedirects.Sized("GPR", Some((1, 1)), []),
    DeclaredRedirects.RedirectTo("B", ["GPR1"])]

  function Displayed(): RegisterSpace {
    RegisterSpace("reg", Machine.Little, None, [
      RegisterInfo("GPR", None, Some(IndexRange(1, 1)), Some(_ => "r1"), None, false, []),
      RegisterInfo("B", None, None, None, None, true, [])])
  }

  lemma DisplayedSchema()
    ensures BuildSchema([Displayed()]) == Ok([RegisterMeta("reg", "GPR", 64, 1, [Element(1, "r1")], [])])
  {
    var space := Displayed();
    var gpr, b := space.registers[0], space.registers[1];
    var meta := RegisterMeta("reg", "GPR", 64, 1, [Element(1, "r1")], []);
    assert ElementCount(gpr) == 1 && First(gpr) == 1 && Label(gpr, 1) == "r1";
    assert |Labels(gpr)| == 1 && Labels(gpr)[0] == "r1";
    assert Labels(gpr) == ["r1"] && ["r1"][1..] == [];
    assert Elements([], 2) == [];
    assert Elements(["r1"], 1) == [Element(1, "r1")];
    assert Metadata(space, gpr) == Ok(meta);
    assert space.registers[1..] == [b] && [b][1..] == [];
    assert SpaceSchema(space, []) == Ok([]);
    assert SpaceSchema(space, [b]) == Ok([]);
    assert [meta] + [] == [meta];
    assert SpaceSchema(space, space.registers) == Ok([meta]);
    assert [space][1..] == [] && BuildSchema([]) == Ok([]);
  }

  /** A document that is accepted, and a reference the analyzer accepts in it: the redirect names the element as the
      validator calls it, not as it is displayed, and resolves to nothing. */
  lemma DisplayedTargetIsNowhere(isa: Isa)
    requires DeclaredRedirects.BuiltFrom(isa, DOCUMENT) && BuildSchema([Displayed()]) == Ok(isa.schema)
    ensures DeclaredRedirects.Accepted(DOCUMENT)
    ensures RegisterKnown(isa, "reg", "B", None)
    ensures Resolve(isa, "reg", "B", None, None) == Err(UnknownRegister("reg", "B"))
  {
    DisplayedSchema();
    DeclaredRedirects.ElementRedirectBuilt(DOCUMENT);
    DeclaredRedirects.ElementRedirectAccepted();
    DeclaredRedirects.PlainReference("reg", ["GPR1"]);
    var meta := RegisterMeta("reg", "GPR", 64, 1, [Element(1, "r1")], []);
    assert isa.schema == [meta] && [meta][1..] == [];
    assert [Element(1, "r1")][1..] == [];
    assert Nowhere(isa, ("reg", "B")) && Nowhere(isa, ("reg", "GPR1"));
    assert RedirectAt(isa, ("reg", "B")) == Some(["GPR1"]) && RedirectAt(isa, ("reg", "GPR1")) == None;
    assert FollowRedirect(isa, ("reg", "GPR1"), 1) == Ok(Some(("reg", "GPR1")));
    assert FollowRedirect(isa, ("reg", "B"), 0) == Ok(Some(("reg", "GPR1")));
  }
}
