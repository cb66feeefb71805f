/** The document validator and the construction of a machine from the same documents
    (`src/soc/isa/{logic.rs,validator}`, `src/soc/isa/machine/{mod,space}.rs`): documents that the
    validator accepts never fail to build for a reason it is there to rule out. */
module Validation {
  import opened Words
  import opened Results
  import opened BitFields
  import opened Machine
  import opened Numerals
  import Registers

  // ---- Documents ----

  datatype SpaceKind = LogicSpace | RegisterSpace | OtherSpace

  datatype SpaceDecl = SpaceDecl(name: string, kind: SpaceKind, word: Option<nat>, endianness: Endianness, enable: Option<EnableExpr>) {
    predicate Logic() {
      kind.LogicSpace?
    }
  }

  /** A subfield; one whose operations are all functions is no operand. */
  datatype SubfieldDecl = SubfieldDecl(name: string, tokens: seq<Token>, operand: bool)

  datatype FormDecl = FormDecl(space: string, name: string, parent: Option<string>, subfields: seq<SubfieldDecl>)

  /** A register declaration; it is detailed when it has an offset, a size, a reset value or a description. */
  datatype FieldDecl = FieldDecl(
    space: string, name: string, range: Option<(nat, nat)>, detailed: bool, redirect: Option<seq<string>>, subfields: seq<string>)

  /** An item of a document; a loose instruction stands outside every space. */
  datatype Item =
    | SpaceItem(space: SpaceDecl)
    | FormItem(form: FormDecl)
    | FieldItem(field: FieldDecl)
    | InstructionItem(instr: Instruction)
    | LooseInstruction(instr: Instruction)

  // ---- The validator ----

  datatype Diag =
    | DuplicateSpace(name: string)
    | NoWordSize(name: string)
    | FormSpace(name: string)
    | DuplicateForm(name: string)
    | EmptyForm(name: string)
    | MissingParent(name: string)
    | DuplicateSubfield(name: string)
    | EnableOutsideLogic(name: string)
    | FieldSpace(name: string)
    | DuplicateField(name: string)
    | MissingBaseField(name: string)
    | EmptyAppend(name: string)
    | RedirectWithoutField
    | RedirectSpace(name: string)
    | RedirectField(name: string)
    | RedirectSubfield(name: string)
    | RedirectDepth
    | InstructionSpace(name: string)
    | InstructionForm(name: string)
    | MaskFieldUnknown(name: string)

  /** The form tables of a logic space: the subfields each form has, inherited ones included. */
  type FormNames = map<string, set<string>>

  /** The fields of a space and the subfields of each. */
  type FieldNames = map<string, set<string>>

  /** `kinds` says which spaces are logic spaces. */
  datatype Validator = Validator(kinds: map<string, bool>, forms: map<string, FormNames>, fields: map<string, FieldNames>, diags: seq<Diag>)

  const NOTHING_SEEN := Validator(map[], map[], map[], [])

  function Report(v: Validator, d: Diag): Validator {
    v.(diags := v.diags + [d])
  }

  /** `validate_space` */
  function ValidateSpace(v: Validator, d: SpaceDecl): Validator {
    if d.name in v.kinds then Report(v, DuplicateSpace(d.name))
    else
      var known := v.(kinds := v.kinds[d.name := d.Logic()], fields := if d.name in v.fields then v.fields else v.fields[d.name := map[]]);
      if !d.Logic() then if d.enable.Some? then Report(known, EnableOutsideLogic(d.name)) else known
      else if d.word.None? then Report(known, NoWordSize(d.name))
      else known.(forms := known.forms[d.name := map[]])
  }

  /** The subfields of a form added to those it inherits, unless one is there already. */
  function MergeNames(names: set<string>, subfields: seq<SubfieldDecl>): Result<set<string>, Diag>
    decreases |subfields|
  {
    if subfields == [] then Ok(names)
    else if subfields[0].name in names then Err(DuplicateSubfield(subfields[0].name))
    else MergeNames(names + {subfields[0].name}, subfields[1..])
  }

  /** `register_form` */
  function RegisterForm(forms: FormNames, f: FormDecl): Result<FormNames, Diag> {
    if f.name in forms then Err(DuplicateForm(f.name))
    else if f.subfields == [] then Err(EmptyForm(f.name))
    else if f.parent.Some? && f.parent.value !in forms then Err(MissingParent(f.parent.value))
    else
      var merged :- MergeNames(if f.parent.Some? then forms[f.parent.value] else {}, f.subfields);
      Ok(forms[f.name := merged])
  }

  /** `validate_form` */
  function ValidateForm(v: Validator, f: FormDecl): Validator {
    if f.space !in v.kinds || !v.kinds[f.space] || f.space !in v.forms then Report(v, FormSpace(f.name))
    else
      var registered := RegisterForm(v.forms[f.space], f);
      if registered.Err? then Report(v, registered.error)
      else v.(forms := v.forms[f.space := registered.value])
  }

  function UnknownFields(fields: seq<MaskField>, names: set<string>): seq<string> {
    if fields == [] then []
    else
      (if fields[0].selector.FieldSelector? && fields[0].selector.name !in names then [fields[0].selector.name] else [])
      + UnknownFields(fields[1..], names)
  }

  function MaskDiags(names: seq<string>): (r: seq<Diag>)
    ensures |r| == |names|
  {
    if names == [] then [] else [MaskFieldUnknown(names[0])] + MaskDiags(names[1..])
  }

  /** `validate_instruction`: one diagnostic for each unknown field of the mask. */
  function ValidateInstruction(v: Validator, i: Instruction): Validator {
    if i.space !in v.kinds || !v.kinds[i.space] || i.space !in v.forms then Report(v, InstructionSpace(i.name))
    else if i.form.None? || i.form.value !in v.forms[i.space] then Report(v, InstructionForm(i.name))
    else if i.mask.None? then v
    else
      var unknown := UnknownFields(i.mask.value, v.forms[i.space][i.form.value]);
      v.(diags := v.diags + MaskDiags(unknown))
  }

  // ---- Fields ----

  predicate IsAppend(f: FieldDecl) {
    !f.detailed && f.redirect.None?
  }

  predicate IsRedirectOnly(f: FieldDecl) {
    f.redirect.Some? && !f.detailed && f.subfields == []
  }

  function NamesFrom(name: string, first: nat, last: nat): seq<string>
    decreases last - first
  {
    if first > last then [] else [name + Decimal(first)] + NamesFrom(name, first + 1, last)
  }

  /** `expand_field_names` */
  function FieldTargets(f: FieldDecl): seq<string> {
    if f.range.Some? then NamesFrom(f.name, f.range.value.0, f.range.value.1) else [f.name]
  }

  function SubfieldSet(f: FieldDecl): set<string> {
    set name | name in f.subfields
  }

  /** The loop of `register_field`, which may stop half-way. */
  function RegisterTargets(fields: FieldNames, f: FieldDecl, targets: seq<string>): (FieldNames, Option<Diag>)
    decreases |targets|
  {
    if targets == [] then (fields, None)
    else
      var target := targets[0];
      if IsAppend(f) then
        if target !in fields then (fields, Some(MissingBaseField(target)))
        else RegisterTargets(fields[target := fields[target] + SubfieldSet(f)], f, targets[1..])
      else if target in fields then
        if IsRedirectOnly(f) then RegisterTargets(fields, f, targets[1..]) else (fields, Some(DuplicateField(target)))
      else RegisterTargets(fields[target := SubfieldSet(f)], f, targets[1..])
  }

  /** `register_field` */
  function RegisterField(fields: FieldNames, f: FieldDecl): (FieldNames, Option<Diag>) {
    if IsAppend(f) && f.subfields == [] then (fields, Some(EmptyAppend(f.name)))
    else RegisterTargets(fields, f, FieldTargets(f))
  }

  /** `ensure_redirect_target_defined` */
  function RedirectFault(v: Validator, space: string, segments: seq<string>): Option<Diag> {
    var (target, path) := Registers.ReferencePath(space, segments);
    if path == [] then Some(RedirectWithoutField)
    else if target !in v.fields then Some(RedirectSpace(target))
    else if path[0] !in v.fields[target] then Some(RedirectField(path[0]))
    else if |path| > 1 && path[1] !in v.fields[target][path[0]] then Some(RedirectSubfield(path[1]))
    else if |path| > 2 then Some(RedirectDepth)
    else None
  }

  /** `validate_field` */
  function ValidateField(v: Validator, f: FieldDecl): Validator {
    var fault := if f.redirect.Some? then RedirectFault(v, f.space, f.redirect.value) else None;
    var checked := if fault.Some? then Report(v, fault.value) else v;
    if f.space !in v.fields then Report(checked, FieldSpace(f.name))
    else
      var (names, refused) := RegisterField(v.fields[f.space], f);
      var registered := checked.(fields := v.fields[f.space := names]);
      if refused.Some? then Report(registered, refused.value) else registered
  }

  function ValidateItem(v: Validator, item: Item): Validator {
    match item
    case SpaceItem(d) => ValidateSpace(v, d)
    case FormItem(f) => ValidateForm(v, f)
    case FieldItem(f) => ValidateField(v, f)
    case InstructionItem(i) => ValidateInstruction(v, i)
    case LooseInstruction(_) => v
  }

  /** `validate`, item by item */
  function Validate(v: Validator, items: seq<Item>): Validator
    decreases |items|
  {
    if items == [] then v else Validate(ValidateItem(v, items[0]), items[1..])
  }

  // ---- Construction ----

  datatype BuildError =
    | FormInUnknownSpace(name: string)
    | FormWithoutWordSize(name: string)
    | UndefinedParent(name: string)
    | RedeclaredSubfield(name: string)
    | BadBitSpec(name: string, error: FieldError)
    | FieldInUnknownSpace(name: string)
    | BadPattern(pattern: IsaError)

  /** The failures that validation is there to rule out; what remains are bit specs, literals and word widths. */
  predicate Structural(e: BuildError) {
    match e
    case BadBitSpec(_, _) => false
    case BadPattern(error) => !error.NotByteAligned? && !error.InvalidBitExpression? && !error.MaskLiteralDoesNotFit?
    case _ => true
  }

  type Spaces = map<string, Space>

  /** `register_space`: a later space replaces an earlier one of its name. */
  function RegisterSpaces(spaces: Spaces, items: seq<Item>): Spaces
    decreases |items|
  {
    if items == [] then spaces
    else if items[0].SpaceItem? then
      var d := items[0].space;
      RegisterSpaces(spaces[d.name := Space(d.name, d.Logic(), d.word, d.endianness, map[], d.enable)], items[1..])
    else RegisterSpaces(spaces, items[1..])
  }

  /** The subfields of a form, pushed one by one. */
  function PushFields(form: Form, subfields: seq<SubfieldDecl>, wordBits: nat): Result<Form, BuildError>
    decreases |subfields|
  {
    if subfields == [] then Ok(form)
    else
      var sub := subfields[0];
      if sub.name in form.fields then Err(RedeclaredSubfield(sub.name))
      else
        var spec := FromTokens(sub.tokens, wordBits);
        if spec.Err? then Err(BadBitSpec(sub.name, spec.error))
        else
          PushFields(Form(form.fields[sub.name := spec.value],
                          if sub.operand then form.operandOrder + [sub.name] else form.operandOrder), subfields[1..], wordBits)
  }

  /** `register_form` and `add_form` */
  function AddForm(spaces: Spaces, f: FormDecl): Result<Spaces, BuildError> {
    if f.space !in spaces then Err(FormInUnknownSpace(f.name))
    else
      var space := spaces[f.space];
      if !space.logic then Ok(spaces)
      else if space.wordBits.None? then Err(FormWithoutWordSize(f.name))
      else if f.parent.Some? && f.parent.value !in space.forms then Err(UndefinedParent(f.parent.value))
      else
        var form :- PushFields(if f.parent.Some? then space.forms[f.parent.value] else Form(map[], []), f.subfields, space.wordBits.value);
        Ok(spaces[f.space := space.(forms := space.forms[f.name := form])])
  }

  function AddForms(spaces: Spaces, items: seq<Item>): Result<Spaces, BuildError>
    decreases |items|
  {
    if items == [] then Ok(spaces)
    else if items[0].FormItem? then
      var next :- AddForm(spaces, items[0].form);
      AddForms(next, items[1..])
    else AddForms(spaces, items[1..])
  }

  /** Every field of every form fits the word of its space. */
  predicate FormsFit(spaces: Spaces) {
    forall name | name in spaces && spaces[name].wordBits.Some? ::
      forall form | form in spaces[name].forms :: ValidForm(spaces[name].forms[form], spaces[name].wordBits.value)
  }

  /** The checks of `build_pattern` */
  function CheckPattern(spaces: Spaces, i: Instruction): Result<(), BuildError>
    requires FormsFit(spaces)
  {
    if i.mask.None? then Ok(())
    else if i.space !in spaces then Err(BadPattern(UnknownSpace))
    else if !spaces[i.space].logic then Ok(())
    else
      var width := WordWidth(spaces[i.space]);
      if width.Err? then Err(BadPattern(width.error))
      else
        var entries := MaskEntries(i, spaces[i.space], width.value, i.mask.value);
        if entries.Err? then Err(BadPattern(entries.error)) else Ok(())
  }

  function CheckPatterns(spaces: Spaces, items: seq<Item>): Result<(), BuildError>
    requires FormsFit(spaces)
    decreases |items|
  {
    if items == [] then Ok(())
    else if items[0].InstructionItem? || items[0].LooseInstruction? then
      var _ :- CheckPattern(spaces, items[0].instr);
      CheckPatterns(spaces, items[1..])
    else CheckPatterns(spaces, items[1..])
  }

  /** `register_field` fails only on an unknown space. */
  function CheckFields(spaces: Spaces, items: seq<Item>): Result<(), BuildError>
    decreases |items|
  {
    if items == [] then Ok(())
    else if items[0].FieldItem? && items[0].field.space !in spaces then Err(FieldInUnknownSpace(items[0].field.name))
    else CheckFields(spaces, items[1..])
  }

  /** `from_documents` up to the patterns: spaces, forms, fields, patterns. */
  function Construct(items: seq<Item>): Result<Spaces, BuildError> {
    var spaces :- AddForms(RegisterSpaces(map[], items), items);
    var _ :- CheckFields(spaces, items);
    AddFormsFit(RegisterSpaces(map[], items), items);
    var _ :- CheckPatterns(spaces, items);
    Ok(spaces)
  }

  // ---- Forms fit their words ----

  lemma {:induction false} PushFieldsFit(form: Form, subfields: seq<SubfieldDecl>, wordBits: nat)
    requires ValidForm(form, wordBits) && PushFields(form, subfields, wordBits).Ok?
    ensures ValidForm(PushFields(form, subfields, wordBits).value, wordBits)
    decreases |subfields|
  {
    if subfields != [] {
      var sub := subfields[0];
      var spec := FromTokens(sub.tokens, wordBits).value;
      TokensFit(sub.tokens, wordBits);
      PushFieldsFit(Form(form.fields[sub.name := spec],
                         if sub.operand then form.operandOrder + [sub.name] else form.operandOrder), subfields[1..], wordBits);
    }
  }

  lemma TokensFit(tokens: seq<Token>, wordBits: nat)
    requires FromTokens(tokens, wordBits).Ok?
    ensures FieldInWord(FromTokens(tokens, wordBits).value, wordBits)
  {
    var nothing := Space("", true, Some(wordBits), Little, map[], None);
    SelectorIsValid(Instruction("", "", None, [], None), nothing, wordBits, BitSelector(tokens));
  }

  lemma {:induction false} RegisteredFit(spaces: Spaces, items: seq<Item>)
    requires FormsFit(spaces)
    ensures FormsFit(RegisterSpaces(spaces, items))
    decreases |items|
  {
    if items != [] {
      if items[0].SpaceItem? {
        var d := items[0].space;
        RegisteredFit(spaces[d.name := Space(d.name, d.Logic(), d.word, d.endianness, map[], d.enable)], items[1..]);
      } else {
        RegisteredFit(spaces, items[1..]);
      }
    }
  }

  lemma AddFormFits(spaces: Spaces, f: FormDecl)
    requires FormsFit(spaces) && AddForm(spaces, f).Ok?
    ensures FormsFit(AddForm(spaces, f).value)
  {
    var space := spaces[f.space];
    if space.logic {
      PushFieldsFit(if f.parent.Some? then space.forms[f.parent.value] else Form(map[], []), f.subfields, space.wordBits.value);
    }
  }

  lemma {:induction false} AddFormsFitFrom(spaces: Spaces, items: seq<Item>)
    requires FormsFit(spaces) && AddForms(spaces, items).Ok?
    ensures FormsFit(AddForms(spaces, items).value)
    decreases |items|
  {
    if items != [] {
      if items[0].FormItem? {
        AddFormFits(spaces, items[0].form);
        AddFormsFitFrom(AddForm(spaces, items[0].form).value, items[1..]);
      } else {
        AddFormsFitFrom(spaces, items[1..]);
      }
    }
  }

  lemma AddFormsFit(spaces: Spaces, items: seq<Item>)
    requires spaces == RegisterSpaces(map[], items) && AddForms(spaces, items).Ok?
    ensures FormsFit(AddForms(spaces, items).value)
  {
    RegisteredFit(map[], items);
    AddFormsFitFrom(spaces, items);
  }

  // ---- The simulation ----

  lemma SpaceReports(v: Validator, d: SpaceDecl)
    ensures v.diags <= ValidateSpace(v, d).diags
  {}

  lemma FormReports(v: Validator, f: FormDecl)
    ensures v.diags <= ValidateForm(v, f).diags
  {}

  lemma FieldReports(v: Validator, f: FieldDecl)
    ensures v.diags <= ValidateField(v, f).diags
  {}

  lemma InstructionReports(v: Validator, i: Instruction)
    ensures v.diags <= ValidateInstruction(v, i).diags
  {}

  /** Diagnostics are only added. */
  lemma ItemReports(v: Validator, item: Item)
    ensures v.diags <= ValidateItem(v, item).diags
  {
    match item
    case SpaceItem(d) => SpaceReports(v, d);
    case FormItem(f) => FormReports(v, f);
    case FieldItem(f) => FieldReports(v, f);
    case InstructionItem(i) => InstructionReports(v, i);
    case LooseInstruction(_) =>
  }

  lemma {:induction false} DiagsStay(v: Validator, items: seq<Item>)
    ensures |v.diags| <= |Validate(v, items).diags|
    decreases |items|
  {
    if items != [] {
      ItemReports(v, items[0]);
      DiagsStay(ValidateItem(v, items[0]), items[1..]);
    }
  }

  /** Nothing is reported for the first item. */
  lemma QuietHead(v: Validator, items: seq<Item>)
    requires items != [] && Validate(v, items).diags == []
    ensures v.diags == [] && ValidateItem(v, items[0]).diags == []
  {
    ItemReports(v, items[0]);
    DiagsStay(ValidateItem(v, items[0]), items[1..]);
  }

  /** The machine has the space as it is declared. */
  predicate Declared(spaces: Spaces, d: SpaceDecl) {
    d.name in spaces && spaces[d.name].logic == d.Logic() && spaces[d.name].wordBits == d.word
  }

  predicate AllDeclared(spaces: Spaces, items: seq<Item>) {
    forall k | 0 <= k < |items| :: items[k].SpaceItem? ==> Declared(spaces, items[k].space)
  }

  lemma {:induction false} FirstSpaceStays(v: Validator, spaces: Spaces, items: seq<Item>, name: string)
    requires Validate(v, items).diags == [] && name in v.kinds && name in spaces
    ensures name in RegisterSpaces(spaces, items) && RegisterSpaces(spaces, items)[name] == spaces[name]
    decreases |items|
  {
    if items != [] {
      QuietHead(v, items);
      if items[0].SpaceItem? {
        var d := items[0].space;
        FirstSpaceStays(ValidateItem(v, items[0]), spaces[d.name := Space(d.name, d.Logic(), d.word, d.endianness, map[], d.enable)], items[1..], name);
      } else {
        FirstSpaceStays(ValidateItem(v, items[0]), spaces, items[1..], name);
      }
    }
  }

  lemma {:induction false} SpacesDeclared(v: Validator, spaces: Spaces, items: seq<Item>)
    requires Validate(v, items).diags == []
    ensures AllDeclared(RegisterSpaces(spaces, items), items)
    decreases |items|
  {
    if items != [] {
      QuietHead(v, items);
      var next := ValidateItem(v, items[0]);
      var result := RegisterSpaces(spaces, items);
      if items[0].SpaceItem? {
        var d := items[0].space;
        var after := spaces[d.name := Space(d.name, d.Logic(), d.word, d.endianness, map[], d.enable)];
        FirstSpaceStays(next, after, items[1..], d.name);
        SpacesDeclared(next, after, items[1..]);
      } else {
        SpacesDeclared(next, spaces, items[1..]);
      }
      forall k | 0 <= k < |items| && items[k].SpaceItem? ensures Declared(result, items[k].space) {
        if k > 0 { assert items[1..][k - 1] == items[k]; }
      }
    }
  }

  lemma {:induction false} EmptyForms(spaces: Spaces, items: seq<Item>)
    requires forall name | name in spaces :: spaces[name].forms == map[]
    ensures forall name | name in RegisterSpaces(spaces, items) :: RegisterSpaces(spaces, items)[name].forms == map[]
    decreases |items|
  {
    if items != [] {
      if items[0].SpaceItem? {
        var d := items[0].space;
        EmptyForms(spaces[d.name := Space(d.name, d.Logic(), d.word, d.endianness, map[], d.enable)], items[1..]);
      } else {
        EmptyForms(spaces, items[1..]);
      }
    }
  }

  /** The validator's table of a space lists the machine's forms and their fields. */
  predicate SameForms(names: FormNames, forms: map<string, Form>) {
    names.Keys == forms.Keys && forall form | form in names :: names[form] == forms[form].fields.Keys
  }

  predicate Agrees(v: Validator, name: string, space: Space) {
    if name in v.forms then space.wordBits.Some? && SameForms(v.forms[name], space.forms) else space.forms == map[]
  }

  predicate KindsMatch(v: Validator, spaces: Spaces) {
    && v.fields.Keys == v.kinds.Keys && v.kinds.Keys <= spaces.Keys && v.forms.Keys <= v.kinds.Keys
    && (forall name | name in v.kinds :: spaces[name].logic == v.kinds[name])
    && (forall name | name in v.forms :: v.kinds[name])
  }

  predicate FormsMatch(v: Validator, spaces: Spaces) {
    forall name | name in spaces :: Agrees(v, name, spaces[name])
  }

  /** The two tables agree on every space: the validator knows what the machine has, space by space. */
  predicate Simulates(v: Validator, spaces: Spaces) {
    KindsMatch(v, spaces) && FormsMatch(v, spaces)
  }

  lemma {:induction false} MergeSimulates(names: set<string>, form: Form, subfields: seq<SubfieldDecl>, wordBits: nat)
    requires names == form.fields.Keys && MergeNames(names, subfields).Ok?
    ensures var pushed := PushFields(form, subfields, wordBits);
      (pushed.Err? ==> !Structural(pushed.error)) && (pushed.Ok? ==> pushed.value.fields.Keys == MergeNames(names, subfields).value)
    decreases |subfields|
  {
    if subfields != [] {
      var sub := subfields[0];
      var spec := FromTokens(sub.tokens, wordBits);
      if spec.Ok? {
        var next := Form(form.fields[sub.name := spec.value],
                         if sub.operand then form.operandOrder + [sub.name] else form.operandOrder);
        assert next.fields.Keys == names + {sub.name};
        MergeSimulates(names + {sub.name}, next, subfields[1..], wordBits);
      }
    }
  }

  /** What a quiet form declaration adds to the tables. */
  lemma FormAdds(v: Validator, f: FormDecl)
    requires v.diags == [] && ValidateForm(v, f).diags == []
    ensures f.space in v.kinds && v.kinds[f.space] && f.space in v.forms && f.name !in v.forms[f.space]
    ensures f.parent.Some? ==> f.parent.value in v.forms[f.space]
    ensures var inherited := if f.parent.Some? then v.forms[f.space][f.parent.value] else {};
      && MergeNames(inherited, f.subfields).Ok?
      && ValidateForm(v, f) == v.(forms := v.forms[f.space := v.forms[f.space][f.name := MergeNames(inherited, f.subfields).value]])
  {
    var registered := RegisterForm(v.forms[f.space], f);
    assert registered.Ok?;
  }

  /** The machine's side of it: a new form, or a bad bit spec. */
  lemma FormBuilds(space: Space, names: FormNames, f: FormDecl, spaces: Spaces)
    requires f.space in spaces && spaces[f.space] == space && space.logic && space.wordBits.Some? && SameForms(names, space.forms)
    requires f.parent.Some? ==> f.parent.value in names
    requires MergeNames(if f.parent.Some? then names[f.parent.value] else {}, f.subfields).Ok?
    ensures var added := AddForm(spaces, f);
      && (added.Err? ==> !Structural(added.error))
      && (added.Ok? ==> exists form: Form | form.fields.Keys == MergeNames(if f.parent.Some? then names[f.parent.value] else {}, f.subfields).value ::
            added.value == spaces[f.space := space.(forms := space.forms[f.name := form])])
  {
    var inherited := if f.parent.Some? then names[f.parent.value] else {};
    var base := if f.parent.Some? then space.forms[f.parent.value] else Form(map[], []);
    MergeSimulates(inherited, base, f.subfields, space.wordBits.value);
    var pushed := PushFields(base, f.subfields, space.wordBits.value);
    if pushed.Ok? {
      assert AddForm(spaces, f).value == spaces[f.space := space.(forms := space.forms[f.name := pushed.value])];
    }
  }

  /** A form that the validator registers is added, or its bit specs are bad. */
  lemma FormSimulates(v: Validator, spaces: Spaces, f: FormDecl)
    requires Simulates(v, spaces) && v.diags == [] && ValidateForm(v, f).diags == []
    ensures var added := AddForm(spaces, f);
      (added.Err? ==> !Structural(added.error)) && (added.Ok? ==> Simulates(ValidateForm(v, f), added.value))
  {
    FormAdds(v, f);
    var names, space := v.forms[f.space], spaces[f.space];
    assert Agrees(v, f.space, space);
    FormBuilds(space, names, f, spaces);
    var added, w := AddForm(spaces, f), ValidateForm(v, f);
    if added.Ok? {
      forall name | name in added.value ensures Agrees(w, name, added.value[name]) {
        assert Agrees(v, name, spaces[name]);
      }
    }
  }

  /** A field declaration touches the field tables only, and is quiet only in a space that exists. */
  lemma FieldKeeps(v: Validator, f: FieldDecl)
    ensures var w := ValidateField(v, f);
      w.kinds == v.kinds && w.forms == v.forms && w.fields.Keys == v.fields.Keys && (w.diags == [] ==> f.space in v.fields)
  {}

  lemma InstructionKeeps(v: Validator, i: Instruction)
    requires ValidateInstruction(v, i).diags == []
    ensures ValidateInstruction(v, i) == v
  {}

  /** What a quiet space declaration adds to the tables. */
  lemma SpaceAdds(v: Validator, d: SpaceDecl)
    requires ValidateSpace(v, d).diags == []
    ensures var w := ValidateSpace(v, d);
      && d.name !in v.kinds && w.kinds == v.kinds[d.name := d.Logic()]
      && w.forms == (if d.Logic() then v.forms[d.name := map[]] else v.forms)
      && w.fields.Keys == v.fields.Keys + {d.name} && (d.Logic() ==> d.word.Some?)
  {}

  lemma NewSpaceKinds(v: Validator, w: Validator, spaces: Spaces, d: SpaceDecl)
    requires KindsMatch(v, spaces) && Declared(spaces, d)
    requires w.kinds == v.kinds[d.name := d.Logic()] && w.fields.Keys == v.fields.Keys + {d.name}
    requires w.forms.Keys == v.forms.Keys + (if d.Logic() then {d.name} else {}) && d.name !in v.kinds
    ensures KindsMatch(w, spaces)
  {
    assert w.kinds.Keys == v.kinds.Keys + {d.name};
  }

  lemma NewSpaceForms(v: Validator, w: Validator, spaces: Spaces, d: SpaceDecl)
    requires FormsMatch(v, spaces) && Declared(spaces, d) && d.name !in v.forms && (d.Logic() ==> d.word.Some?)
    requires w.forms == (if d.Logic() then v.forms[d.name := map[]] else v.forms)
    ensures FormsMatch(w, spaces)
  {
    forall name | name in spaces ensures Agrees(w, name, spaces[name]) { NewSpaceAgrees(v, w, d, name, spaces[name]); }
  }

  lemma NewSpaceAgrees(v: Validator, w: Validator, d: SpaceDecl, name: string, space: Space)
    requires Agrees(v, name, space) && d.name !in v.forms && (name == d.name && d.Logic() ==> space.wordBits.Some?)
    requires w.forms == (if d.Logic() then v.forms[d.name := map[]] else v.forms)
    ensures Agrees(w, name, space)
  {}

  lemma SpaceSimulates(v: Validator, spaces: Spaces, d: SpaceDecl)
    requires Simulates(v, spaces) && ValidateSpace(v, d).diags == [] && Declared(spaces, d)
    ensures Simulates(ValidateSpace(v, d), spaces)
  {
    SpaceAdds(v, d);
    var w := ValidateSpace(v, d);
    assert w.forms.Keys == v.forms.Keys + (if d.Logic() then {d.name} else {});
    NewSpaceKinds(v, w, spaces, d);
    NewSpaceForms(v, w, spaces, d);
  }

  lemma ItemSimulates(v: Validator, spaces: Spaces, item: Item)
    requires Simulates(v, spaces) && v.diags == [] && ValidateItem(v, item).diags == [] && !item.FormItem?
    requires item.SpaceItem? ==> Declared(spaces, item.space)
    ensures Simulates(ValidateItem(v, item), spaces)
  {
    match item
    case SpaceItem(d) => SpaceSimulates(v, spaces, d);
    case FieldItem(f) => FieldKeeps(v, f);
    case InstructionItem(i) => InstructionKeeps(v, i);
    case _ =>
  }

  lemma AddFormDeclared(spaces: Spaces, f: FormDecl, items: seq<Item>)
    requires AllDeclared(spaces, items) && AddForm(spaces, f).Ok?
    ensures AllDeclared(AddForm(spaces, f).value, items)
  {
    forall k | 0 <= k < |items| && items[k].SpaceItem? ensures Declared(AddForm(spaces, f).value, items[k].space) {
      assert Declared(spaces, items[k].space);
    }
  }

  /** Adding the forms of quiet documents fails only on bit specs, and keeps the tables alike. */
  lemma {:induction false} FormsSimulate(v: Validator, spaces: Spaces, items: seq<Item>)
    requires Validate(v, items).diags == [] && Simulates(v, spaces) && AllDeclared(spaces, items)
    ensures var added := AddForms(spaces, items);
      (added.Err? ==> !Structural(added.error)) && (added.Ok? ==> Simulates(Validate(v, items), added.value))
    decreases |items|
  {
    if items != [] {
      QuietHead(v, items);
      var next := ValidateItem(v, items[0]);
      assert forall k | 0 <= k < |items[1..]| :: items[1..][k] == items[k + 1];
      if items[0].FormItem? {
        FormSimulates(v, spaces, items[0].form);
        var added := AddForm(spaces, items[0].form);
        if added.Ok? {
          AddFormDeclared(spaces, items[0].form, items);
          FormsSimulate(next, added.value, items[1..]);
        }
      } else {
        ItemSimulates(v, spaces, items[0]);
        FormsSimulate(next, spaces, items[1..]);
      }
    }
  }

  // ---- Instructions and fields ----

  /** The tables of the validator list spaces that it has seen, every logic space among them. */
  predicate Tabled(v: Validator) {
    && v.fields.Keys == v.kinds.Keys && (forall name | name in v.forms :: name in v.kinds)
    && forall name | name in v.kinds && v.kinds[name] :: name in v.forms
  }

  /** What the validator knows stays known. */
  predicate Grows(v: Validator, w: Validator) {
    && (forall name | name in v.kinds :: name in w.kinds && w.kinds[name] == v.kinds[name])
    && (forall space, form | space in v.forms && form in v.forms[space] ::
          space in w.forms && form in w.forms[space] && w.forms[space][form] == v.forms[space][form])
    && (forall space | space in v.forms :: space in w.forms)
  }

  lemma SpaceGrows(v: Validator, d: SpaceDecl)
    requires ValidateSpace(v, d).diags == [] && Tabled(v)
    ensures Grows(v, ValidateSpace(v, d)) && Tabled(ValidateSpace(v, d))
  {
    SpaceAdds(v, d);
  }

  lemma FormGrows(v: Validator, f: FormDecl)
    requires v.diags == [] && ValidateForm(v, f).diags == [] && Tabled(v)
    ensures Grows(v, ValidateForm(v, f)) && Tabled(ValidateForm(v, f))
  {
    var registered := RegisterForm(v.forms[f.space], f);
    assert registered.Ok? && f.name !in v.forms[f.space];
  }

  lemma ItemGrows(v: Validator, item: Item)
    requires v.diags == [] && ValidateItem(v, item).diags == []
    requires Tabled(v)
    ensures Grows(v, ValidateItem(v, item)) && Tabled(ValidateItem(v, item))
  {
    match item
    case SpaceItem(d) => SpaceGrows(v, d);
    case FormItem(f) => FormGrows(v, f);
    case FieldItem(f) => FieldKeeps(v, f);
    case InstructionItem(i) => InstructionKeeps(v, i);
    case _ =>
  }

  lemma {:induction false} RunGrows(v: Validator, items: seq<Item>)
    requires Validate(v, items).diags == [] && Tabled(v)
    ensures Grows(v, Validate(v, items)) && Tabled(Validate(v, items))
    decreases |items|
  {
    if items != [] {
      QuietHead(v, items);
      ItemGrows(v, items[0]);
      RunGrows(ValidateItem(v, items[0]), items[1..]);
    }
  }

  /** The fields of the form that an instruction names, none when there is no such form. */
  function FormFields(forms: map<string, Form>, form: Option<string>): set<string> {
    if form.Some? && form.value in forms then forms[form.value].fields.Keys else {}
  }

  /** A mask fails for want of a field exactly when a field selector names none of its form. */
  lemma {:induction false} MaskFieldsIff(i: Instruction, space: Space, wordBits: nat, fields: seq<MaskField>)
    requires forall name | name in space.forms :: ValidForm(space.forms[name], wordBits)
    ensures var entries, unknown := MaskEntries(i, space, wordBits, fields), UnknownFields(fields, FormFields(space.forms, i.form));
      (unknown == [] && entries.Err? ==> !Structural(BadPattern(entries.error))) && (unknown != [] ==> entries.Err?)
  {
    if fields != [] { MaskFieldsIff(i, space, wordBits, fields[1..]); }
  }

  /** The names that the validator's tables have for the form of an instruction. */
  function KnownFields(v: Validator, i: Instruction): set<string> {
    if i.space in v.forms && i.form.Some? && i.form.value in v.forms[i.space] then v.forms[i.space][i.form.value] else {}
  }

  /** The mask of the instruction cannot be built: its space is not declared, or is a logic space and a field selector
      names no field of its form. */
  predicate Uncovered(v: Validator, i: Instruction) {
    i.mask.Some? && (i.space !in v.kinds || (v.kinds[i.space] && UnknownFields(i.mask.value, KnownFields(v, i)) != []))
  }

  /** A pattern fails for a reason that validation is there to rule out only if the mask is uncovered, and fails when
      it is. */
  lemma PatternCoveredIff(w: Validator, spaces: Spaces, i: Instruction)
    requires FormsFit(spaces) && Simulates(w, spaces) && Tabled(w) && (forall name | name in spaces :: name in w.kinds)
    ensures var checked := CheckPattern(spaces, i);
      (!Uncovered(w, i) && checked.Err? ==> !Structural(checked.error)) && (Uncovered(w, i) ==> checked.Err?)
  {
    if i.mask.Some? && i.space in spaces && spaces[i.space].logic {
      var space := spaces[i.space];
      assert Agrees(w, i.space, space);
      assert FormFields(space.forms, i.form) == KnownFields(w, i);
      if WordWidth(space).Ok? {
        MaskFieldsIff(i, space, space.wordBits.value, i.mask.value);
      }
    }
  }

  /** What a quiet instruction in a space has is covered at the end. */
  lemma ValidatedIsCovered(v: Validator, w: Validator, i: Instruction)
    requires v.diags == [] && ValidateInstruction(v, i).diags == [] && Grows(v, w)
    ensures !Uncovered(w, i)
  {
    assert w.forms[i.space][i.form.value] == v.forms[i.space][i.form.value];
  }

  predicate NoLoose(items: seq<Item>) {
    forall k | 0 <= k < |items| :: !items[k].LooseInstruction?
  }

  /** Item k is a loose instruction that the finished tables do not cover. */
  predicate UncoveredAt(items: seq<Item>, w: Validator, k: nat)
    requires k < |items|
  {
    items[k].LooseInstruction? && Uncovered(w, items[k].instr)
  }

  predicate AllCovered(items: seq<Item>, w: Validator) {
    forall k | 0 <= k < |items| :: !UncoveredAt(items, w, k)
  }

  lemma CoveredTail(items: seq<Item>, w: Validator)
    requires items != []
    ensures AllCovered(items, w) <==> !UncoveredAt(items, w, 0) && AllCovered(items[1..], w)
  {
    assert forall k | 0 <= k < |items[1..]| :: UncoveredAt(items[1..], w, k) == UncoveredAt(items, w, k + 1);
    if !UncoveredAt(items, w, 0) && AllCovered(items[1..], w) {
      forall k | 0 <= k < |items| ensures !UncoveredAt(items, w, k) {
        if k > 0 { assert !UncoveredAt(items[1..], w, k - 1); }
      }
    }
  }

  lemma {:induction false} PatternsBuild(v: Validator, spaces: Spaces, items: seq<Item>)
    requires FormsFit(spaces) && Validate(v, items).diags == [] && Simulates(Validate(v, items), spaces)
    requires Tabled(v) && forall name | name in spaces :: name in Validate(v, items).kinds
    ensures var checked, w := CheckPatterns(spaces, items), Validate(v, items);
      (AllCovered(items, w) && checked.Err? ==> !Structural(checked.error)) && (!AllCovered(items, w) ==> checked.Err?)
    ensures CheckFields(spaces, items).Ok?
    decreases |items|
  {
    if items != [] {
      var w := Validate(v, items);
      QuietHead(v, items);
      RunGrows(v, items);
      ItemGrows(v, items[0]);
      CoveredTail(items, w);
      if items[0].FieldItem? { FieldKeeps(v, items[0].field); }
      if items[0].InstructionItem? { ValidatedIsCovered(v, w, items[0].instr); }
      if items[0].InstructionItem? || items[0].LooseInstruction? { PatternCoveredIff(w, spaces, items[0].instr); }
      PatternsBuild(ValidateItem(v, items[0]), spaces, items[1..]);
    }
  }

  /** The validator has seen every space of the machine. */
  lemma {:induction false} SpacesSeen(v: Validator, spaces: Spaces, items: seq<Item>)
    requires Validate(v, items).diags == [] && Tabled(v) && forall name | name in spaces :: name in v.kinds
    ensures forall name | name in RegisterSpaces(spaces, items) :: name in Validate(v, items).kinds
    decreases |items|
  {
    if items != [] {
      QuietHead(v, items);
      ItemGrows(v, items[0]);
      if items[0].SpaceItem? {
        var d := items[0].space;
        SpaceAdds(v, d);
        SpacesSeen(ValidateItem(v, items[0]), spaces[d.name := Space(d.name, d.Logic(), d.word, d.endianness, map[], d.enable)], items[1..]);
      } else {
        SpacesSeen(ValidateItem(v, items[0]), spaces, items[1..]);
      }
    }
  }

  lemma {:induction false} FormsAddNoSpace(spaces: Spaces, items: seq<Item>)
    requires AddForms(spaces, items).Ok?
    ensures AddForms(spaces, items).value.Keys == spaces.Keys
    decreases |items|
  {
    if items != [] {
      FormsAddNoSpace(if items[0].FormItem? then AddForm(spaces, items[0].form).value else spaces, items[1..]);
    }
  }

  /** Documents that the validator accepts, loose instructions included: when every loose mask is covered they build, or
      fail on a bit spec, a mask literal or a word width only; when one is not they fail. */
  lemma ValidatedBuildsIff(items: seq<Item>)
    requires Validate(NOTHING_SEEN, items).diags == []
    ensures var built, w := Construct(items), Validate(NOTHING_SEEN, items);
      && (AllCovered(items, w) && built.Err? ==> !Structural(built.error))
      && (!AllCovered(items, w) ==> built.Err?)
  {
    var spaces := RegisterSpaces(map[], items);
    SpacesDeclared(NOTHING_SEEN, map[], items);
    EmptyForms(map[], items);
    SpacesSeen(NOTHING_SEEN, map[], items);
    FormsSimulate(NOTHING_SEEN, spaces, items);
    var added := AddForms(spaces, items);
    if added.Ok? {
      AddFormsFit(spaces, items);
      FormsAddNoSpace(spaces, items);
      PatternsBuild(NOTHING_SEEN, added.value, items);
    }
  }

  /** Documents that the validator accepts, with every instruction inside a space, build their spaces, forms, fields
      and patterns, or fail on a bit spec, a mask literal or a word width, and on nothing else. */
  lemma ValidatedBuilds(items: seq<Item>)
    requires Validate(NOTHING_SEEN, items).diags == [] && NoLoose(items)
    ensures var built := Construct(items); built.Err? ==> !Structural(built.error)
  {
    ValidatedBuildsIff(items);
  }

  /** Why instructions have to stand in a space: a loose one is not looked at, and one whose mask names a field without
      a form is accepted and fails to build, although its space exists. */
  lemma LooseInstructionUnchecked()
    ensures var items := [
      SpaceItem(SpaceDecl("L", LogicSpace, Some(32), Big, None)),
      LooseInstruction(Instruction("L", "x", None, [], Some([MaskField(FieldSelector("f"), 0)])))];
      && Validate(NOTHING_SEEN, items).diags == []
      && Construct(items) == Err(BadPattern(MaskWithoutForm)) && Structural(BadPattern(MaskWithoutForm))
  {
    var d := SpaceDecl("L", LogicSpace, Some(32), Big, None);
    var field := MaskField(FieldSelector("f"), 0);
    var i := Instruction("L", "x", None, [], Some([field]));
    var items := [SpaceItem(d), LooseInstruction(i)];
    var space := Space("L", true, Some(32), Big, map[], None);
    var v := ValidateSpace(NOTHING_SEEN, d);
    assert items[1..] == [LooseInstruction(i)] && items[1..][1..] == [];
    assert Validate(v, items[1..]) == Validate(v, items[1..][1..]) == v;
    assert RegisterSpaces(map["L" := space], items[1..]) == RegisterSpaces(map["L" := space], []) == map["L" := space];
    assert RegisterSpaces(map[], items) == map["L" := space];
    assert AddForms(map["L" := space], items[1..]) == AddForms(map["L" := space], []);
    assert CheckFields(map["L" := space], items[1..]) == CheckFields(map["L" := space], []);
    assert MaskEntry(i, space, 32, field) == Err(MaskWithoutForm);
    assert CheckPattern(map["L" := space], i) == Err(BadPattern(MaskWithoutForm));
    assert CheckPatterns(map["L" := space], items) == CheckPatterns(map["L" := space], items[1..]);
  }

  // ---- Operands of built forms ----

  /** Every operand of the form is one of its subfields. */
  predicate OperandsIn(form: Form) {
    forall name | name in form.operandOrder :: name in form.fields
  }

  predicate OperandsAreFields(spaces: Spaces) {
    forall name | name in spaces :: forall form | form in spaces[name].forms :: OperandsIn(spaces[name].forms[form])
  }

  lemma {:induction false} PushKeepsOperands(form: Form, subfields: seq<SubfieldDecl>, wordBits: nat)
    requires OperandsIn(form) && PushFields(form, subfields, wordBits).Ok?
    ensures OperandsIn(PushFields(form, subfields, wordBits).value)
    decreases |subfields|
  {
    if subfields != [] {
      var sub := subfields[0];
      PushKeepsOperands(Form(form.fields[sub.name := FromTokens(sub.tokens, wordBits).value],
                             if sub.operand then form.operandOrder + [sub.name] else form.operandOrder), subfields[1..], wordBits);
    }
  }

  lemma {:induction false} AddFormsKeepOperands(spaces: Spaces, items: seq<Item>)
    requires OperandsAreFields(spaces) && AddForms(spaces, items).Ok?
    ensures OperandsAreFields(AddForms(spaces, items).value)
    decreases |items|
  {
    if items != [] {
      if items[0].FormItem? {
        var f := items[0].form;
        if spaces[f.space].logic {
          var base := if f.parent.Some? then spaces[f.space].forms[f.parent.value] else Form(map[], []);
          PushKeepsOperands(base, f.subfields, spaces[f.space].wordBits.value);
        }
        AddFormsKeepOperands(AddForm(spaces, f).value, items[1..]);
      } else {
        AddFormsKeepOperands(spaces, items[1..]);
      }
    }
  }

  /** In every machine that is built, forms fit the words of their spaces and operands are subfields. */
  lemma BuiltForms(items: seq<Item>)
    requires Construct(items).Ok?
    ensures FormsFit(Construct(items).value) && OperandsAreFields(Construct(items).value)
  {
    AddFormsFit(RegisterSpaces(map[], items), items);
    EmptyForms(map[], items);
    AddFormsKeepOperands(RegisterSpaces(map[], items), items);
  }

  // ---- Subfields of built forms ----

  function OperandNames(subfields: seq<SubfieldDecl>): seq<string> {
    if subfields == [] then []
    else (if subfields[0].operand then [subfields[0].name] else []) + OperandNames(subfields[1..])
  }

  /** Each declared subfield is the field its own bit spec denotes. */
  predicate DeclaredFields(form: Form, subfields: seq<SubfieldDecl>, wordBits: nat) {
    forall sub | sub in subfields :: sub.name in form.fields && FromTokens(sub.tokens, wordBits) == Ok(form.fields[sub.name])
  }

  /** The fields of the one form are fields of the other, under the same names. */
  predicate Inherits(form: Form, parent: Form) {
    forall name | name in parent.fields :: name in form.fields && form.fields[name] == parent.fields[name]
  }

  /** A form keeps the fields it inherits, has the declared subfields and no others, and its operands are those it
      inherits, then its own in the order of their declaration. */
  lemma {:induction false} PushedFields(form: Form, subfields: seq<SubfieldDecl>, wordBits: nat)
    requires PushFields(form, subfields, wordBits).Ok?
    ensures var r := PushFields(form, subfields, wordBits).value;
      && Inherits(r, form) && DeclaredFields(r, subfields, wordBits)
      && (forall name | name in r.fields :: name in form.fields || exists sub | sub in subfields :: sub.name == name)
      && r.operandOrder == form.operandOrder + OperandNames(subfields)
    decreases |subfields|
  {
    if subfields != [] {
      var sub := subfields[0];
      var spec := FromTokens(sub.tokens, wordBits).value;
      var next := Form(form.fields[sub.name := spec], if sub.operand then form.operandOrder + [sub.name] else form.operandOrder);
      PushedFields(next, subfields[1..], wordBits);
      assert subfields == [sub] + subfields[1..];
      var r := PushFields(form, subfields, wordBits).value;
      assert sub.name in next.fields && r.fields[sub.name] == spec;
      forall name | name in form.fields ensures name in r.fields && r.fields[name] == form.fields[name] { assert name in next.fields; }
      OperandAppended(form.operandOrder, sub.operand, sub.name, OperandNames(subfields[1..]));
    }
  }

  lemma OperandAppended(order: seq<string>, operand: bool, name: string, rest: seq<string>)
    ensures (if operand then order + [name] else order) + rest == order + ((if operand then [name] else []) + rest)
  {}

  /** The space has this form, under this word size. */
  predicate HasForm(spaces: Spaces, space: string, name: string, wordBits: nat, form: Form) {
    && space in spaces && spaces[space].logic && spaces[space].wordBits == Some(wordBits)
    && name in spaces[space].forms && spaces[space].forms[name] == form
  }

  predicate Declares(item: Item, space: string, name: string) {
    item.FormItem? && item.form.space == space && item.form.name == name
  }

  lemma {:induction false} LaterFormsKeep(spaces: Spaces, items: seq<Item>, space: string, name: string, wordBits: nat, form: Form)
    requires HasForm(spaces, space, name, wordBits, form) && AddForms(spaces, items).Ok?
    requires forall item | item in items :: !Declares(item, space, name)
    ensures HasForm(AddForms(spaces, items).value, space, name, wordBits, form)
    decreases |items|
  {
    if items != [] {
      var next := if items[0].FormItem? then AddForm(spaces, items[0].form).value else spaces;
      assert !Declares(items[0], space, name);
      LaterFormsKeep(next, items[1..], space, name, wordBits, form);
    }
  }

  lemma {:induction false} FormIsBuilt(spaces: Spaces, items: seq<Item>, k: nat) returns (wordBits: nat, form: Form)
    requires k < |items| && items[k].FormItem? && AddForms(spaces, items).Ok?
    requires items[k].form.space in spaces && spaces[items[k].form.space].logic
    requires forall j | k < j < |items| :: !Declares(items[j], items[k].form.space, items[k].form.name)
    ensures HasForm(AddForms(spaces, items).value, items[k].form.space, items[k].form.name, wordBits, form)
    ensures DeclaredFields(form, items[k].form.subfields, wordBits)
    decreases |items|
  {
    var f := items[k].form;
    var next := if items[0].FormItem? then AddForm(spaces, items[0].form).value else spaces;
    if k == 0 {
      var space := spaces[f.space];
      wordBits := space.wordBits.value;
      var base := if f.parent.Some? then space.forms[f.parent.value] else Form(map[], []);
      form := PushFields(base, f.subfields, wordBits).value;
      PushedFields(base, f.subfields, wordBits);
      LaterFormsKeep(next, items[1..], f.space, f.name, wordBits, form);
    } else {
      wordBits, form := FormIsBuilt(next, items[1..], k - 1);
    }
  }

  /** In every machine that is built, a form of a logic space, not declared again later, has each of its subfields where
      the subfield's bit spec says, counted in the words of the space. */
  lemma BuiltSubfields(items: seq<Item>, k: nat) returns (wordBits: nat, form: Form)
    requires Construct(items).Ok? && k < |items| && items[k].FormItem?
    requires items[k].form.space in Construct(items).value && Construct(items).value[items[k].form.space].logic
    requires forall j | k < j < |items| :: !Declares(items[j], items[k].form.space, items[k].form.name)
    ensures HasForm(Construct(items).value, items[k].form.space, items[k].form.name, wordBits, form)
    ensures DeclaredFields(form, items[k].form.subfields, wordBits)
  {
    var spaces := RegisterSpaces(map[], items);
    FormsKeepSpaces(spaces, items);
    wordBits, form := FormIsBuilt(spaces, items, k);
  }

  lemma {:induction false} FormsKeepSpaces(spaces: Spaces, items: seq<Item>)
    requires AddForms(spaces, items).Ok?
    ensures AddForms(spaces, items).value.Keys == spaces.Keys
    ensures forall name | name in spaces :: AddForms(spaces, items).value[name].logic == spaces[name].logic
    decreases |items|
  {
    if items != [] {
      var next := if items[0].FormItem? then AddForm(spaces, items[0].form).value else spaces;
      FormsKeepSpaces(next, items[1..]);
    }
  }

  // ---- What the validator accepts ----

  predicate Quiet(v: Validator, item: Item) {
    ValidateItem(v, item).diags == v.diags
  }

  /** A space is accepted once, with a word size if it is a logic space, and without an enable expression if it is not. */
  lemma SpaceQuietIff(v: Validator, d: SpaceDecl)
    ensures Quiet(v, SpaceItem(d)) <==>
      d.name !in v.kinds && (if d.kind.LogicSpace? then d.word.Some? else d.enable.None?)
  {}

  /** New names, each given once. */
  predicate NewNames(names: set<string>, subfields: seq<SubfieldDecl>) {
    && (forall k | 0 <= k < |subfields| :: subfields[k].name !in names)
    && (forall j, k | 0 <= j < k < |subfields| :: subfields[j].name != subfields[k].name)
  }

  lemma {:induction false} MergeIff(names: set<string>, subfields: seq<SubfieldDecl>)
    ensures MergeNames(names, subfields).Ok? <==> NewNames(names, subfields)
    ensures MergeNames(names, subfields).Ok? ==>
      forall name :: name in MergeNames(names, subfields).value <==> name in names || exists sub | sub in subfields :: sub.name == name
    decreases |subfields|
  {
    if subfields != [] {
      var head, tail := subfields[0], subfields[1..];
      assert subfields == [head] + tail;
      MergeIff(names + {head.name}, tail);
      if NewNames(names, subfields) {
        forall k | 0 <= k < |tail| ensures tail[k].name !in names + {head.name} { assert tail[k] == subfields[k + 1]; }
        forall j, k | 0 <= j < k < |tail| ensures tail[j].name != tail[k].name { assert tail[j] == subfields[j + 1] && tail[k] == subfields[k + 1]; }
      }
      if head.name !in names && NewNames(names + {head.name}, tail) {
        forall k | 0 <= k < |subfields| ensures subfields[k].name !in names { if k > 0 { assert subfields[k] == tail[k - 1]; } }
        forall j, k | 0 <= j < k < |subfields| ensures subfields[j].name != subfields[k].name {
          assert subfields[k] == tail[k - 1];
          if j > 0 { assert subfields[j] == tail[j - 1]; }
        }
      }
    }
  }

  /** A form is accepted in a known logic space, with a new name, a parent that is there, and at least one subfield, all
      of them new to it and to its parent; it then has the subfields of both. */
  lemma FormQuietIff(v: Validator, f: FormDecl)
    ensures Quiet(v, FormItem(f)) <==>
      && f.space in v.kinds && v.kinds[f.space] && f.space in v.forms && f.name !in v.forms[f.space]
      && f.subfields != [] && (f.parent.Some? ==> f.parent.value in v.forms[f.space])
      && NewNames(if f.parent.Some? then v.forms[f.space][f.parent.value] else {}, f.subfields)
    ensures Quiet(v, FormItem(f)) ==>
      var after := ValidateItem(v, FormItem(f)).forms[f.space];
      f.name in after && forall name :: name in after[f.name] <==>
        (f.parent.Some? && name in v.forms[f.space][f.parent.value]) || exists sub | sub in f.subfields :: sub.name == name
  {
    if f.space in v.forms && (f.parent.Some? ==> f.parent.value in v.forms[f.space]) {
      MergeIff(if f.parent.Some? then v.forms[f.space][f.parent.value] else {}, f.subfields);
    }
  }

  lemma {:induction false} UnknownIff(fields: seq<MaskField>, names: set<string>)
    ensures UnknownFields(fields, names) == [] <==> forall f | f in fields :: f.selector.FieldSelector? ==> f.selector.name in names
  {
    if fields != [] {
      assert fields == [fields[0]] + fields[1..];
      UnknownIff(fields[1..], names);
    }
  }

  /** An instruction is accepted with a form of its logic space, when the named fields of its mask are among the form's. */
  lemma InstructionQuietIff(v: Validator, i: Instruction)
    ensures Quiet(v, InstructionItem(i)) <==>
      && i.space in v.kinds && v.kinds[i.space] && i.space in v.forms && i.form.Some? && i.form.value in v.forms[i.space]
      && (i.mask.Some? ==> forall f | f in i.mask.value :: f.selector.FieldSelector? ==> f.selector.name in v.forms[i.space][i.form.value])
  {
    if i.space in v.forms && i.form.Some? && i.form.value in v.forms[i.space] && i.mask.Some? {
      UnknownIff(i.mask.value, v.forms[i.space][i.form.value]);
      var unknown := UnknownFields(i.mask.value, v.forms[i.space][i.form.value]);
      assert unknown == [] ==> v.diags + MaskDiags(unknown) == v.diags;
      assert |v.diags + MaskDiags(unknown)| == |v.diags| + |unknown|;
    }
  }

  /** No name twice, and none that is there. */
  predicate FreshTargets(fields: FieldNames, targets: seq<string>) {
    && (forall t | t in targets :: t !in fields)
    && (forall j, k | 0 <= j < k < |targets| :: targets[j] != targets[k])
  }

  lemma FreshCons(fields: FieldNames, targets: seq<string>, names: set<string>)
    requires targets != []
    ensures FreshTargets(fields, targets) <==>
      targets[0] !in fields && FreshTargets(fields[targets[0] := names], targets[1..])
  {
    var tail := targets[1..];
    assert targets == [targets[0]] + tail;
    if FreshTargets(fields, targets) {
      forall k | 0 <= k < |tail| ensures tail[k] !in fields[targets[0] := names] { assert tail[k] == targets[k + 1] && targets[0] != targets[k + 1]; }
      forall j, k | 0 <= j < k < |tail| ensures tail[j] != tail[k] { assert tail[j] == targets[j + 1] && tail[k] == targets[k + 1]; }
    }
    if targets[0] !in fields && FreshTargets(fields[targets[0] := names], tail) {
      forall j, k | 0 <= j < k < |targets| ensures targets[j] != targets[k] {
        assert targets[k] == tail[k - 1] && tail[k - 1] in tail;
        if j > 0 { assert targets[j] == tail[j - 1]; }
      }
    }
  }

  /** A declaration without details adds subfields to registers that are there; one with details makes new registers; one
      that only redirects may name them again. */
  lemma {:induction false} TargetsIff(fields: FieldNames, f: FieldDecl, targets: seq<string>)
    ensures var refused := RegisterTargets(fields, f, targets).1;
      refused.None? <==>
        if !f.detailed && f.redirect.None? then forall t | t in targets :: t in fields
        else if f.redirect.Some? && !f.detailed && f.subfields == [] then true
        else FreshTargets(fields, targets)
    decreases |targets|
  {
    if targets != [] {
      var target, tail := targets[0], targets[1..];
      assert targets == [target] + tail;
      if IsAppend(f) {
        if target in fields { TargetsIff(fields[target := fields[target] + SubfieldSet(f)], f, tail); }
      } else {
        FreshCons(fields, targets, SubfieldSet(f));
        if target in fields { TargetsIff(fields, f, tail); } else { TargetsIff(fields[target := SubfieldSet(f)], f, tail); }
      }
    }
  }

  /** A redirect is accepted to a register that is declared by then, or to one of its subfields. */
  lemma RedirectAccepted(v: Validator, space: string, segments: seq<string>)
    ensures RedirectFault(v, space, segments).None? <==>
      var (target, path) := Registers.ReferencePath(space, segments);
      && 1 <= |path| <= 2 && target in v.fields && path[0] in v.fields[target]
      && (|path| == 2 ==> path[1] in v.fields[target][path[0]])
  {}

  /** A range declares its registers from the first index to the last, both included, by the name with the index behind
      it; without a range the name is the register. */
  lemma {:induction false} RangeNames(name: string, first: nat, last: nat, k: nat)
    ensures |NamesFrom(name, first, last)| == if first <= last then last - first + 1 else 0
    ensures first + k <= last ==> NamesFrom(name, first, last)[k] == name + Decimal(first + k)
    decreases last - first
  {
    if first <= last { RangeNames(name, first + 1, last, if k > 0 then k - 1 else 0); }
  }

  lemma DeclaredNames(f: FieldDecl, k: nat)
    ensures f.range.None? ==> FieldTargets(f) == [f.name]
    ensures f.range.Some? ==> var (first, last) := f.range.value;
      && |FieldTargets(f)| == (if first <= last then last - first + 1 else 0)
      && (first + k <= last ==> FieldTargets(f)[k] == f.name + Decimal(first + k))
  {
    if f.range.Some? { RangeNames(f.name, f.range.value.0, f.range.value.1, k); }
  }
}
