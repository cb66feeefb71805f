/** Register resolution and access (`src/soc/isa/semantics/register.rs`). */
module Registers {
  import opened Words
  import opened Results
  import opened BitFields
  import opened BitFieldLaws
  import opened Semantics
  import opened RegisterFile

  // ---- Metadata lookups ----

  function LookupMeta(schema: seq<RegisterMeta>, space: string, name: string): Option<RegisterMeta> {
    if schema == [] then None
    else if schema[0].space == space && schema[0].name == name then Some(schema[0])
    else LookupMeta(schema[1..], space, name)
  }

  function LabelledElement(elements: seq<Element>, text: string): Option<Element> {
    if elements == [] then None
    else if elements[0].text == text then Some(elements[0])
    else LabelledElement(elements[1..], text)
  }

  function IndexedElement(elements: seq<Element>, index: int): Option<Element> {
    if elements == [] then None
    else if elements[0].index == index then Some(elements[0])
    else IndexedElement(elements[1..], index)
  }

  /** `find_by_label`: the first register of the space with such an element. */
  function FindByLabel(schema: seq<RegisterMeta>, space: string, text: string): Option<(RegisterMeta, Element)> {
    if schema == [] then None
    else
      var element := LabelledElement(schema[0].elements, text);
      if schema[0].space == space && element.Some? then Some((schema[0], element.value))
      else FindByLabel(schema[1..], space, text)
  }

  function FieldNamed(fields: seq<FieldMeta>, name: string): Option<FieldMeta> {
    if fields == [] then None
    else if EqIgnoreCase(fields[0].name, name) then Some(fields[0])
    else FieldNamed(fields[1..], name)
  }

  // ---- Resolution ----

  datatype Resolved = Resolved(meta: RegisterMeta, element: Element, field: Option<FieldMeta>)

  /** The name of the resolved element in the core state. */
  function ResolvedName(r: Resolved): string {
    r.meta.space + "::" + r.element.text
  }

  function SelectElement(meta: RegisterMeta, name: string, index: Option<I64>): (r: Outcome<Element>)
    ensures r.Err? ==> DynamicError(r.error)
  {
    if meta.count <= 1 then
      if index.Some? && index.value != 0 then Err(BadIndex(name))
      else if meta.elements == [] then Err(MissingElement(name))
      else Ok(meta.elements[0])
    else if index.None? then Err(MissingIndex(name))
    else if index.value < 0 || index.value >= 0x1_0000_0000 then Err(BadIndex(name))
    else
      var element := IndexedElement(meta.elements, index.value);
      if element.None? then Err(BadIndex(name)) else Ok(element.value)
  }

  function SelectField(meta: RegisterMeta, subfield: Option<string>, alias: Option<seq<FieldMeta>>): (r: Outcome<Option<FieldMeta>>)
    ensures r.Err? ==> DynamicError(r.error)
  {
    if subfield.None? then Ok(None)
    else
      var own := FieldNamed(meta.fields, subfield.value);
      if own.Some? then Ok(own)
      else
        var borrowed := if alias.Some? then FieldNamed(alias.value, subfield.value) else None;
        if borrowed.Some? then Ok(borrowed) else Err(UnknownSubfield(subfield.value))
  }

  function ResolveDirect(isa: Isa, space: string, name: string, subfield: Option<string>,
                         index: Option<I64>, alias: Option<seq<FieldMeta>>): (r: Outcome<Option<Resolved>>)
    ensures r.Err? ==> DynamicError(r.error)
  {
    var meta := LookupMeta(isa.schema, space, name);
    if meta.Some? then
      var element :- SelectElement(meta.value, name, index);
      var field :- SelectField(meta.value, subfield, alias);
      Ok(Some(Resolved(meta.value, element, field)))
    else
      var labelled := FindByLabel(isa.schema, space, name);
      if labelled.None? then Ok(None)
      else if index.Some? && index.value != labelled.value.1.index then Err(BadIndex(name))
      else
        var field :- SelectField(labelled.value.0, subfield, alias);
        Ok(Some(Resolved(labelled.value.0, labelled.value.1, field)))
  }

  type Location = (string, string)

  function TrimDollars(s: string): string {
    if s != "" && s[0] == '$' then TrimDollars(s[1..]) else s
  }

  /** `resolve_reference_path`: a leading `$space` segment names the space. */
  function ReferencePath(space: string, segments: seq<string>): (string, seq<string>) {
    if segments != [] && segments[0] != "" && segments[0][0] == '$' then (TrimDollars(segments[0]), segments[1..])
    else (space, segments)
  }

  function RedirectAt(isa: Isa, at: Location): Option<seq<string>> {
    if at.0 in isa.spaces && at.1 in isa.spaces[at.0].registers then isa.spaces[at.0].registers[at.1].redirect else None
  }

  /** Where a redirect leads; it must name one register and no subfield. */
  function NextLocation(isa: Isa, at: Location): (r: Outcome<Location>)
    requires RedirectAt(isa, at).Some?
    ensures r.Err? ==> DynamicError(r.error)
  {
    var (space, path) := ReferencePath(at.0, RedirectAt(isa, at).value);
    if |path| != 1 then Err(BadRedirect) else Ok((space, path[0]))
  }

  const MAX_REDIRECTS := 8

  /** `follow_redirect` after `visited` hops. */
  function FollowRedirect(isa: Isa, at: Location, visited: nat): (r: Outcome<Option<Location>>)
    ensures r.Err? ==> DynamicError(r.error)
    decreases MAX_REDIRECTS + 1 - visited
  {
    if at.0 !in isa.spaces then Ok(None)
    else if RedirectAt(isa, at).None? then Ok(if visited == 0 then None else Some(at))
    else if visited >= MAX_REDIRECTS then Err(RedirectTooDeep)
    else
      var next :- NextLocation(isa, at);
      FollowRedirect(isa, next, visited + 1)
  }

  function Resolve(isa: Isa, space: string, name: string, subfield: Option<string>, index: Option<I64>): (r: Outcome<Resolved>)
    ensures r.Err? ==> DynamicError(r.error)
  {
    var alias := if (space, name) in isa.aliasFields then Some(isa.aliasFields[(space, name)]) else None;
    var direct :- ResolveDirect(isa, space, name, subfield, index, alias);
    if direct.Some? then Ok(direct.value)
    else
      var target :- FollowRedirect(isa, (space, name), 0);
      if target.None? then Err(UnknownRegister(space, name))
      else
        var through :- ResolveDirect(isa, target.value.0, target.value.1, subfield, index, alias);
        if through.Some? then Ok(through.value) else Err(UnknownRegister(space, name))
  }

  // ---- Access ----

  function ReadRaw(core: Core, r: Resolved): (raw: Outcome<nat>)
    ensures raw.Err? ==> DynamicError(raw.error)
  {
    var value :- ReadRegister(core, ResolvedName(r));
    if r.meta.bitWidth > 64 then Err(RegisterTooWide) else Ok(value % WORD)
  }

  function ReadField(spec: FieldSpec, bits: nat): I64 {
    ReadSignedMeaning(spec, bits);
    ReadSigned(spec, bits)
  }

  /** `ResolvedRegister::read` */
  function ReadResolved(core: Core, r: Resolved): (v: Outcome<Value>)
    ensures v.Err? ==> DynamicError(v.error)
  {
    var raw :- ReadRaw(core, r);
    Ok(IntValue(if r.field.Some? then ReadField(r.field.value.spec, raw) else ToI64(raw)))
  }

  /** `mask_to_width` */
  function MaskToWidth(value: I64, width: nat): nat {
    if width >= 64 then AsU64(value) else Low(AsU64(value), width)
  }

  /** `ResolvedRegister::write` */
  function WriteResolved(core: Core, r: Resolved, value: I64): (after: Outcome<Core>)
    ensures after.Err? ==> DynamicError(after.error)
    ensures after.Ok? ==> SameShape(core, after.value)
  {
    if r.field.Some? then
      var raw :- ReadRaw(core, r);
      var updated := WriteBits(r.field.value.spec, raw, AsU64(value));
      if updated.Err? then Err(FieldRejected(updated.error))
      else WriteRegister(core, ResolvedName(r), updated.value)
    else WriteRegister(core, ResolvedName(r), MaskToWidth(value, r.meta.bitWidth))
  }
}
