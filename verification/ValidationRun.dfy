/** The validator and the machine builder as they run: tables that are inserted into and diagnostics that
    are pushed, proved to compute `Validate` and the form tables of `Construct`
    (`src/soc/isa/{logic.rs,validator}`, `src/soc/isa/machine/space.rs`). */
module ValidationRun {
  import opened Results
  import opened Seqs
  import opened BitFields
  import opened Machine
  import opened Validation
  import Registers

  class DocumentValidator {
    var kinds: map<string, bool>
    var forms: map<string, FormNames>
    var fields: map<string, FieldNames>
    var diags: seq<Diag>

    constructor ()
      ensures Contents() == NOTHING_SEEN
    {
      kinds, forms, fields, diags := map[], map[], map[], [];
    }

    ghost function Contents(): Validator
      reads this
    {
      Validator(kinds, forms, fields, diags)
    }

    method Push(d: Diag)
      modifies this`diags
      ensures Contents() == Report(old(Contents()), d)
    {
      diags := diags + [d];
    }

    method CheckSpace(d: SpaceDecl)
      modifies this
      ensures Contents() == ValidateSpace(old(Contents()), d)
    {
      if d.name in kinds {
        Push(DuplicateSpace(d.name));
        return;
      }
      kinds := kinds[d.name := d.Logic()];
      if d.name !in fields { fields := fields[d.name := map[]]; }
      if d.Logic() {
        if d.word.Some? { forms := forms[d.name := map[]]; } else { Push(NoWordSize(d.name)); }
      } else if d.enable.Some? {
        Push(EnableOutsideLogic(d.name));
      }
    }

    method CheckRedirect(f: FieldDecl, segments: seq<string>)
      modifies this`diags
      ensures var fault := RedirectFault(old(Contents()), f.space, segments);
        Contents() == if fault.Some? then Report(old(Contents()), fault.value) else old(Contents())
    {
      var (target, path) := Registers.ReferencePath(f.space, segments);
      if path == [] {
        Push(RedirectWithoutField);
        return;
      }
      if target !in fields {
        Push(RedirectSpace(target));
        return;
      }
      if path[0] !in fields[target] {
        Push(RedirectField(path[0]));
        return;
      }
      if |path| > 1 {
        if path[1] !in fields[target][path[0]] {
          Push(RedirectSubfield(path[1]));
          return;
        }
        if |path| > 2 { Push(RedirectDepth); }
      }
    }

    method CheckField(f: FieldDecl)
      modifies this
      ensures Contents() == ValidateField(old(Contents()), f)
    {
      if f.redirect.Some? { CheckRedirect(f, f.redirect.value); }
      if f.space !in fields {
        Push(FieldSpace(f.name));
        return;
      }
      var names, refused := RegisterNames(fields[f.space], f);
      fields := fields[f.space := names];
      if refused.Some? { Push(refused.value); }
    }

    method CheckForm(f: FormDecl)
      modifies this
      ensures Contents() == ValidateForm(old(Contents()), f)
    {
      if f.space !in kinds || !kinds[f.space] || f.space !in forms {
        Push(FormSpace(f.name));
        return;
      }
      var table := forms[f.space];
      if f.name in table {
        Push(DuplicateForm(f.name));
        return;
      }
      if f.subfields == [] {
        Push(EmptyForm(f.name));
        return;
      }
      if f.parent.Some? && f.parent.value !in table {
        Push(MissingParent(f.parent.value));
        return;
      }
      var merged := MergeSubfields(if f.parent.Some? then table[f.parent.value] else {}, f.subfields);
      if merged.Err? { Push(merged.error); } else { forms := forms[f.space := table[f.name := merged.value]]; }
    }

    method CheckInstruction(i: Instruction)
      modifies this
      ensures Contents() == ValidateInstruction(old(Contents()), i)
    {
      if i.space !in kinds || !kinds[i.space] || i.space !in forms {
        Push(InstructionSpace(i.name));
        return;
      }
      if i.form.None? || i.form.value !in forms[i.space] {
        Push(InstructionForm(i.name));
        return;
      }
      if i.mask.Some? {
        var unknown := CollectUnknown(i.mask.value, forms[i.space][i.form.value]);
        PushAll(unknown);
      }
    }

    /** One diagnostic for each unknown field. */
    method PushAll(names: seq<string>)
      modifies this`diags
      ensures diags == old(diags) + MaskDiags(names)
    {
      DropWhole(names);
      var k := 0;
      while k < |names|
        invariant 0 <= k <= |names|
        invariant diags + MaskDiags(names[k..]) == old(diags) + MaskDiags(names)
      {
        DropDrop(names, k, 1);
        AppendAssoc(diags, [MaskFieldUnknown(names[k])], MaskDiags(names[k + 1..]));
        diags := diags + [MaskFieldUnknown(names[k])];
        k := k + 1;
      }
      assert diags + [] == diags;
    }

    /** `validate`: one pass over the items. */
    method CheckAll(items: seq<Item>)
      modifies this
      ensures Contents() == Validate(old(Contents()), items)
    {
      DropWhole(items);
      var k := 0;
      while k < |items|
        invariant 0 <= k <= |items|
        invariant Validate(old(Contents()), items) == Validate(Contents(), items[k..])
      {
        DropDrop(items, k, 1);
        match items[k] {
          case SpaceItem(d) => CheckSpace(d);
          case FormItem(f) => CheckForm(f);
          case FieldItem(f) => CheckField(f);
          case InstructionItem(i) => CheckInstruction(i);
          case LooseInstruction(_) =>
        }
        k := k + 1;
      }
    }
  }

  /** The loop of `register_field` over the expanded names. */
  method RegisterNames(known: FieldNames, f: FieldDecl) returns (names: FieldNames, refused: Option<Diag>)
    ensures (names, refused) == RegisterField(known, f)
  {
    names := known;
    if IsAppend(f) && f.subfields == [] { return names, Some(EmptyAppend(f.name)); }
    var targets := FieldTargets(f);
    DropWhole(targets);
    var k := 0;
    while k < |targets|
      invariant 0 <= k <= |targets|
      invariant RegisterTargets(known, f, targets) == RegisterTargets(names, f, targets[k..])
    {
      DropDrop(targets, k, 1);
      var target := targets[k];
      if IsAppend(f) {
        if target !in names { return names, Some(MissingBaseField(target)); }
        names := names[target := names[target] + SubfieldSet(f)];
      } else if target !in names {
        names := names[target := SubfieldSet(f)];
      } else if !IsRedirectOnly(f) {
        return names, Some(DuplicateField(target));
      }
      k := k + 1;
    }
    refused := None;
  }

  /** The loop of `register_form`. */
  method MergeSubfields(inherited: set<string>, subfields: seq<SubfieldDecl>) returns (r: Result<set<string>, Diag>)
    ensures r == MergeNames(inherited, subfields)
  {
    var merged := inherited;
    DropWhole(subfields);
    var k := 0;
    while k < |subfields|
      invariant 0 <= k <= |subfields|
      invariant MergeNames(inherited, subfields) == MergeNames(merged, subfields[k..])
    {
      DropDrop(subfields, k, 1);
      if subfields[k].name in merged { return Err(DuplicateSubfield(subfields[k].name)); }
      merged := merged + {subfields[k].name};
      k := k + 1;
    }
    r := Ok(merged);
  }

  /** The fields a mask names that the form does not have. */
  method CollectUnknown(fields: seq<MaskField>, names: set<string>) returns (unknown: seq<string>)
    ensures unknown == UnknownFields(fields, names)
  {
    unknown := [];
    DropWhole(fields);
    assert [] + UnknownFields(fields, names) == UnknownFields(fields, names);
    var k := 0;
    while k < |fields|
      invariant 0 <= k <= |fields|
      invariant unknown + UnknownFields(fields[k..], names) == UnknownFields(fields, names)
    {
      DropDrop(fields, k, 1);
      var selector := fields[k].selector;
      ghost var rest := UnknownFields(fields[k + 1..], names);
      AppendMaybe(unknown, selector.FieldSelector? && selector.name !in names, if selector.FieldSelector? then selector.name else "", rest);
      if selector.FieldSelector? && selector.name !in names { unknown := unknown + [selector.name]; }
      k := k + 1;
    }
    assert unknown + [] == unknown;
  }

  /** A form under construction: `push_field` appends to its order and its index. */
  class FormInfo {
    var fields: map<string, Spec>
    var operandOrder: seq<string>

    constructor (inherited: Form)
      ensures Contents() == inherited
    {
      fields, operandOrder := inherited.fields, inherited.operandOrder;
    }

    ghost function Contents(): Form
      reads this
    {
      Form(fields, operandOrder)
    }

    method PushField(sub: SubfieldDecl, spec: Spec)
      modifies this
      ensures Contents() == Form(old(fields)[sub.name := spec], if sub.operand then old(operandOrder) + [sub.name] else old(operandOrder))
    {
      if sub.operand { operandOrder := operandOrder + [sub.name]; }
      fields := fields[sub.name := spec];
    }
  }

  /** `add_form`: the subfields pushed onto a copy of the parent. */
  method BuildForm(inherited: Form, subfields: seq<SubfieldDecl>, wordBits: nat) returns (r: Result<Form, BuildError>)
    ensures r == PushFields(inherited, subfields, wordBits)
  {
    var info := new FormInfo(inherited);
    DropWhole(subfields);
    var k := 0;
    while k < |subfields|
      invariant 0 <= k <= |subfields|
      invariant PushFields(inherited, subfields, wordBits) == PushFields(info.Contents(), subfields[k..], wordBits)
    {
      DropDrop(subfields, k, 1);
      var sub := subfields[k];
      if sub.name in info.fields { return Err(RedeclaredSubfield(sub.name)); }
      var spec := FromTokens(sub.tokens, wordBits);
      if spec.Err? { return Err(BadBitSpec(sub.name, spec.error)); }
      info.PushField(sub, spec.value);
      k := k + 1;
    }
    r := Ok(Form(info.fields, info.operandOrder));
  }
}
