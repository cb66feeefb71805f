/** Redirects of a whole document: the register tables that the machine builds from its field declarations, and the
    order in which the validator makes redirects point backwards (`src/soc/isa/validator/fields.rs`,
    `src/soc/isa/space.rs`, `src/soc/isa/machine/space.rs`, `src/soc/isa/semantics/register.rs`). */
module DeclaredRedirects {
  import opened Results
  import opened Semantics
  import opened Registers
  import opened Redirects
  import opened Validation
  import Numerals
  import Machine
  type Instruction = Machine.Instruction

  // ---- The machine's register tables ----

  /** A space of the machine: whether it holds registers, and the registers declared in it. */
  datatype Table = Table(isRegister: bool, registers: map<string, RegisterDecl>)

  type Tables = map<string, Table>

  function DeclareSpaces(tables: Tables, items: seq<Item>): Tables
    decreases |items|
  {
    if items == [] then tables
    else if items[0].SpaceItem? then
      DeclareSpaces(tables[items[0].space.name := Table(items[0].space.kind.RegisterSpace?, map[])], items[1..])
    else DeclareSpaces(tables, items[1..])
  }

  /** `add_register_field`: a later declaration of a tag replaces the earlier one. */
  function AddField(tables: Tables, f: FieldDecl): Tables {
    if f.space !in tables || !tables[f.space].isRegister then tables
    else
      var table := tables[f.space];
      tables[f.space := table.(registers := table.registers[f.name := RegisterDecl(f.redirect, f.subfields)])]
  }

  /** The fields of the first n items added. */
  function AddFields(tables: Tables, items: seq<Item>, n: nat): Tables
    requires n <= |items|
  {
    if n == 0 then tables
    else
      var earlier := AddFields(tables, items, n - 1);
      if items[n - 1].FieldItem? then AddField(earlier, items[n - 1].field) else earlier
  }

  /** `from_documents`: all spaces first, then all fields. */
  function RegisterTables(items: seq<Item>): Tables {
    AddFields(DeclareSpaces(map[], items), items, |items|)
  }

  /** The machine's spaces are the ones built from the documents. */
  predicate BuiltFrom(isa: Isa, items: seq<Item>) {
    var tables := RegisterTables(items);
    isa.spaces.Keys == tables.Keys && forall s | s in tables ::
      isa.spaces[s].isRegister == tables[s].isRegister && isa.spaces[s].registers == tables[s].registers
  }

  // ---- The documents in order ----

  /** What the validator knows before item n. */
  function Before(items: seq<Item>, n: nat): Validator
    requires n <= |items|
  {
    if n == 0 then NOTHING_SEEN else ValidateItem(Before(items, n - 1), items[n - 1])
  }

  lemma {:induction false} ValidateFrom(items: seq<Item>, n: nat)
    requires n <= |items|
    ensures Validate(Before(items, n), items[n..]) == Validate(NOTHING_SEEN, items)
  {
    if n == 0 {
      assert items[0..] == items;
    } else {
      ValidateFrom(items, n - 1);
      assert items[n - 1..][0] == items[n - 1] && items[n - 1..][1..] == items[n..];
    }
  }

  predicate Accepted(items: seq<Item>) {
    Validate(NOTHING_SEEN, items).diags == []
  }

  lemma AcceptedBefore(items: seq<Item>, n: nat)
    requires Accepted(items) && n <= |items|
    ensures Before(items, n).diags == []
  {
    ValidateFrom(items, n);
    DiagsStay(Before(items, n), items[n..]);
  }

  /** The validator knows a field of this name in this space before item n. */
  predicate Known(items: seq<Item>, n: nat, at: Location)
    requires n <= |items|
  {
    var fields := Before(items, n).fields;
    at.0 in fields && at.1 in fields[at.0]
  }

  lemma {:induction false} TargetsStay(fields: FieldNames, f: FieldDecl, targets: seq<string>)
    ensures fields.Keys <= RegisterTargets(fields, f, targets).0.Keys
    decreases |targets|
  {
    if targets != [] {
      var target := targets[0];
      if IsAppend(f) {
        if target in fields { TargetsStay(fields[target := fields[target] + SubfieldSet(f)], f, targets[1..]); }
      } else if target in fields {
        if IsRedirectOnly(f) { TargetsStay(fields, f, targets[1..]); }
      } else {
        TargetsStay(fields[target := SubfieldSet(f)], f, targets[1..]);
      }
    }
  }

  lemma ItemKeepsKnown(v: Validator, item: Item, at: Location)
    requires at.0 in v.fields && at.1 in v.fields[at.0]
    ensures var w := ValidateItem(v, item); at.0 in w.fields && at.1 in w.fields[at.0]
  {
    if item.FieldItem? && item.field.space in v.fields {
      TargetsStay(v.fields[item.field.space], item.field, FieldTargets(item.field));
    }
  }

  lemma {:induction false} KnownStays(items: seq<Item>, m: nat, n: nat, at: Location)
    requires m <= n <= |items| && Known(items, m, at)
    ensures Known(items, n, at)
    decreases n
  {
    if m < n {
      KnownStays(items, m, n - 1, at);
      ItemKeepsKnown(Before(items, n - 1), items[n - 1], at);
    }
  }

  // ---- Where a redirect comes from ----

  predicate Redirecting(items: seq<Item>, k: nat)
    requires k < |items|
  {
    items[k].FieldItem? && items[k].field.redirect.Some?
  }

  function TagAt(items: seq<Item>, k: nat): Location
    requires k < |items| && items[k].FieldItem?
  {
    (items[k].field.space, items[k].field.name)
  }

  /** A redirect of the tables comes from a declaration of that tag. */
  lemma {:induction false} RedirectDeclared(tables: Tables, items: seq<Item>, n: nat, at: Location) returns (k: nat)
    requires n <= |items| && forall s | s in tables :: tables[s].registers == map[]
    requires var built := AddFields(tables, items, n);
      at.0 in built && at.1 in built[at.0].registers && built[at.0].registers[at.1].redirect.Some?
    ensures k < n && Redirecting(items, k) && TagAt(items, k) == at
    ensures AddFields(tables, items, n)[at.0].registers[at.1].redirect == items[k].field.redirect
  {
    var earlier := AddFields(tables, items, n - 1);
    if items[n - 1].FieldItem? && TagAt(items, n - 1) == at && at.0 in earlier && earlier[at.0].isRegister {
      k := n - 1;
    } else {
      k := RedirectDeclared(tables, items, n - 1, at);
    }
  }

  lemma {:induction false} NoRegistersYet(tables: Tables, items: seq<Item>)
    requires forall s | s in tables :: tables[s].registers == map[]
    ensures forall s | s in DeclareSpaces(tables, items) :: DeclareSpaces(tables, items)[s].registers == map[]
    decreases |items|
  {
    if items != [] {
      if items[0].SpaceItem? {
        NoRegistersYet(tables[items[0].space.name := Table(items[0].space.kind.RegisterSpace?, map[])], items[1..]);
      } else {
        NoRegistersYet(tables, items[1..]);
      }
    }
  }

  lemma DeclarationOf(isa: Isa, items: seq<Item>, at: Location) returns (k: nat)
    requires BuiltFrom(isa, items) && Redirected(isa, at)
    ensures k < |items| && Redirecting(items, k) && TagAt(items, k) == at
    ensures RedirectAt(isa, at) == items[k].field.redirect
  {
    NoRegistersYet(map[], items);
    k := RedirectDeclared(DeclareSpaces(map[], items), items, |items|, at);
  }

  // ---- Redirects point backwards ----

  /** No declaration with a redirect names a field that the space has already. */
  predicate NoReopened(items: seq<Item>) {
    forall k | 0 <= k < |items| && Redirecting(items, k) :: !Known(items, k, TagAt(items, k))
  }

  /** Item j declares this name in this space, alone or as an element of a range. */
  predicate Declares(items: seq<Item>, j: nat, at: Location)
    requires j < |items|
  {
    items[j].FieldItem? && items[j].field.space == at.0 && at.1 in FieldTargets(items[j].field)
  }

  lemma {:induction false} TargetsAdd(fields: FieldNames, f: FieldDecl, targets: seq<string>)
    requires RegisterTargets(fields, f, targets).1.None?
    ensures RegisterTargets(fields, f, targets).0.Keys == fields.Keys + set t | t in targets
    decreases |targets|
  {
    if targets != [] {
      var target := targets[0];
      var next := if IsAppend(f) then fields[target := fields[target] + SubfieldSet(f)]
                  else if target in fields then fields else fields[target := SubfieldSet(f)];
      TargetsAdd(next, f, targets[1..]);
      assert targets == [target] + targets[1..];
      assert next.Keys == fields.Keys + {target};
    }
  }

  lemma FieldAdds(v: Validator, f: FieldDecl)
    requires v.diags == [] && ValidateField(v, f).diags == []
    ensures f.space in v.fields
    ensures ValidateField(v, f).fields.Keys == v.fields.Keys
    ensures forall s | s in v.fields ::
      ValidateField(v, f).fields[s].Keys == v.fields[s].Keys + (if s == f.space then set t | t in FieldTargets(f) else {})
  {
    TargetsAdd(v.fields[f.space], f, FieldTargets(f));
  }

  lemma ItemAdds(v: Validator, item: Item, at: Location)
    requires v.diags == [] && ValidateItem(v, item).diags == []
    ensures var w := ValidateItem(v, item);
      (at.0 in w.fields && at.1 in w.fields[at.0]) <==>
        (at.0 in v.fields && at.1 in v.fields[at.0]) || (item.FieldItem? && item.field.space == at.0 && at.1 in FieldTargets(item.field))
  {
    match item
    case SpaceItem(_) =>
    case FieldItem(f) => FieldAdds(v, f);
    case FormItem(f) => FormKeepsFields(v, f);
    case InstructionItem(i) => InstructionKeepsFields(v, i);
    case LooseInstruction(_) =>
  }

  lemma KnownStep(items: seq<Item>, n: nat, at: Location)
    requires Accepted(items) && n < |items|
    ensures Known(items, n + 1, at) <==> Known(items, n, at) || Declares(items, n, at)
  {
    AcceptedBefore(items, n);
    AcceptedBefore(items, n + 1);
    ItemAdds(Before(items, n), items[n], at);
  }

  ghost predicate DeclaredBefore(items: seq<Item>, n: nat, at: Location)
    requires n <= |items|
  {
    exists j: nat | j < n :: Declares(items, j, at)
  }

  lemma DeclaredStep(items: seq<Item>, n: nat, at: Location)
    requires n < |items|
    ensures DeclaredBefore(items, n + 1, at) <==> DeclaredBefore(items, n, at) || Declares(items, n, at)
  {}

  /** In an accepted document the known names are those declared before. */
  lemma {:induction false} KnownIsDeclared(items: seq<Item>, n: nat, at: Location)
    requires Accepted(items) && n <= |items|
    ensures Known(items, n, at) <==> DeclaredBefore(items, n, at)
    decreases n
  {
    if n > 0 {
      KnownIsDeclared(items, n - 1, at);
      KnownStep(items, n - 1, at);
      DeclaredStep(items, n - 1, at);
    }
  }

  /** In an accepted document no tag is reopened exactly when no declaration with a redirect repeats a name, a tag or
      an element of a range, that the same space declares before. */
  lemma NoReopenedIff(items: seq<Item>)
    requires Accepted(items)
    ensures NoReopened(items) <==>
      forall k, j: nat | 0 <= j < k < |items| && Redirecting(items, k) :: !Declares(items, j, TagAt(items, k))
  {
    forall k | 0 <= k < |items| && Redirecting(items, k)
      ensures Known(items, k, TagAt(items, k)) <==> DeclaredBefore(items, k, TagAt(items, k))
    {
      KnownIsDeclared(items, k, TagAt(items, k));
    }
  }

  /** What an accepted redirect leads to is known before it. */
  lemma TargetKnown(items: seq<Item>, k: nat)
    requires Accepted(items) && k < |items| && Redirecting(items, k)
    ensures var (space, path) := ReferencePath(items[k].field.space, items[k].field.redirect.value);
      1 <= |path| <= 2 && Known(items, k, (space, path[0]))
  {
    AcceptedBefore(items, k);
    AcceptedBefore(items, k + 1);
    var v := Before(items, k);
    assert Before(items, k + 1) == ValidateField(v, items[k].field);
  }

  /** The item whose declaration gives the location its redirect; nothing declared later leads to it. */
  ghost predicate DeclaredBy(isa: Isa, items: seq<Item>, at: Location, k: nat) {
    k < |items| && Redirecting(items, k) && TagAt(items, k) == at && RedirectAt(isa, at) == items[k].field.redirect
  }

  /** In an accepted document a redirect's target is declared strictly earlier than the redirect. */
  lemma TargetIsEarlier(isa: Isa, items: seq<Item>, at: Location, k: nat, next: Location, j: nat)
    requires Accepted(items) && NoReopened(items)
    requires DeclaredBy(isa, items, at, k) && NextLocation(isa, at) == Ok(next) && DeclaredBy(isa, items, next, j)
    ensures j < k
  {
    TargetKnown(items, k);
    if k <= j { KnownStays(items, k, j, next); }
  }

  /** Following a chain goes back in the documents. */
  lemma {:induction false} ChainGoesBack(isa: Isa, items: seq<Item>, at: Location, k: nat, n: nat, end: Location) returns (j: nat)
    requires BuiltFrom(isa, items) && Accepted(items) && NoReopened(items)
    requires DeclaredBy(isa, items, at, k) && Hop(isa, at, n) == Some(end) && Redirected(isa, end)
    ensures DeclaredBy(isa, items, end, j) && j + n <= k
    decreases n
  {
    if n == 0 {
      j := k;
    } else {
      var next := NextLocation(isa, at).value;
      HopPrefix(isa, next, n - 1, 0);
      var m := DeclarationOf(isa, items, next);
      TargetIsEarlier(isa, items, at, k, next, m);
      j := ChainGoesBack(isa, items, next, m, n - 1, end);
    }
  }

  /** In an accepted document without reopened tags no register redirects to itself, directly or round a cycle: each
      hop leads to a strictly earlier declaration. */
  lemma RedirectsAreAcyclic(isa: Isa, items: seq<Item>, at: Location, n: nat)
    requires BuiltFrom(isa, items) && Accepted(items) && NoReopened(items) && n > 0
    ensures Hop(isa, at, n) != Some(at)
  {
    if Hop(isa, at, n) == Some(at) {
      HopPrefix(isa, at, n, 0);
      var k := DeclarationOf(isa, items, at);
      CycleRepeats(isa, at, n, |items|);
      var j := ChainGoesBack(isa, items, at, k, |items| * n, at);
      AtLeast(|items|, n);
    }
  }

  lemma AtLeast(a: nat, n: nat)
    requires n > 0
    ensures a * n >= a
  {}

  // ---- Exactly when redirects are acyclic ----

  /** The redirect of the location comes from a declaration of a name that the space has already. */
  ghost predicate Reopened(isa: Isa, items: seq<Item>, at: Location) {
    exists k | 0 <= k < |items| :: DeclaredBy(isa, items, at, k) && Known(items, k, at)
  }

  ghost predicate OnCycle(isa: Isa, at: Location) {
    exists n: nat :: n > 0 && Hop(isa, at, n) == Some(at)
  }

  ghost predicate Acyclic(isa: Isa) {
    forall at: Location :: !OnCycle(isa, at)
  }

  /** Of a location on a cycle every later one is on it too. */
  lemma CycleGoesOn(isa: Isa, at: Location, n: nat, m: nat)
    requires n > 0 && Hop(isa, at, n) == Some(at) && Hop(isa, at, m).Some?
    ensures OnCycle(isa, Hop(isa, at, m).value)
  {
    var b := Hop(isa, at, m).value;
    HopAdd(isa, at, n, m);
    HopAdd(isa, at, m, n);
    assert Hop(isa, b, n) == Some(b);
  }

  /** Following a chain goes back in the documents, or meets a reopened name. */
  lemma {:induction false} ChainGoesBackOrReopens(isa: Isa, items: seq<Item>, at: Location, k: nat, n: nat, end: Location) returns (j: nat, m: nat)
    requires BuiltFrom(isa, items) && Accepted(items)
    requires DeclaredBy(isa, items, at, k) && Hop(isa, at, n) == Some(end) && Redirected(isa, end)
    ensures (m <= n && Hop(isa, at, m).Some? && Reopened(isa, items, Hop(isa, at, m).value))
            || (DeclaredBy(isa, items, end, j) && j + n <= k)
    decreases n
  {
    j, m := k, 0;
    if n > 0 {
      var next := NextLocation(isa, at).value;
      HopPrefix(isa, next, n - 1, 0);
      var i := DeclarationOf(isa, items, next);
      TargetKnown(items, k);
      if k <= i {
        KnownStays(items, k, i, next);
        m := 1;
        assert Hop(isa, next, 0) == Some(next) && Reopened(isa, items, next);
      } else {
        j, m := ChainGoesBackOrReopens(isa, items, next, i, n - 1, end);
        m := m + 1;
      }
    }
  }

  /** Every cycle goes through a reopened name. */
  lemma CycleReopens(isa: Isa, items: seq<Item>, at: Location, n: nat) returns (b: Location)
    requires BuiltFrom(isa, items) && Accepted(items) && n > 0 && Hop(isa, at, n) == Some(at)
    ensures Reopened(isa, items, b) && OnCycle(isa, b)
  {
    HopPrefix(isa, at, n, 0);
    var k := DeclarationOf(isa, items, at);
    CycleRepeats(isa, at, n, |items|);
    AtLeast(|items|, n);
    var j, m := ChainGoesBackOrReopens(isa, items, at, k, |items| * n, at);
    b := Hop(isa, at, m).value;
    CycleGoesOn(isa, at, n, m);
  }

  /** The redirects of an accepted document are acyclic exactly when no reopened name's chain leads back to it. */
  lemma AcyclicIff(isa: Isa, items: seq<Item>)
    requires BuiltFrom(isa, items) && Accepted(items)
    ensures Acyclic(isa) <==> forall at: Location | Reopened(isa, items, at) :: !OnCycle(isa, at)
  {
    if !Acyclic(isa) {
      var at: Location :| OnCycle(isa, at);
      var n: nat :| n > 0 && Hop(isa, at, n) == Some(at);
      var b := CycleReopens(isa, items, at, n);
    }
  }

  // ---- What following a redirect then gives ----

  lemma {:induction false} SeenIsDeclared(items: seq<Item>, n: nat, space: string)
    requires n <= |items| && space in Before(items, n).fields
    ensures exists k | 0 <= k < n :: items[k].SpaceItem? && items[k].space.name == space
  {
    if n > 0 && space !in Before(items, n - 1).fields {
      FieldSpacesGrow(Before(items, n - 1), items[n - 1], space);
    } else if n > 0 {
      SeenIsDeclared(items, n - 1, space);
    }
  }

  lemma FieldSpacesGrow(v: Validator, item: Item, space: string)
    requires space !in v.fields && space in ValidateItem(v, item).fields
    ensures item.SpaceItem? && item.space.name == space
  {
    match item
    case SpaceItem(d) => SpaceAddsField(v, d);
    case FieldItem(f) => FieldKeeps(v, f);
    case FormItem(f) => FormKeepsFields(v, f);
    case InstructionItem(i) => InstructionKeepsFields(v, i);
    case LooseInstruction(_) =>
  }

  lemma SpaceAddsField(v: Validator, d: SpaceDecl)
    ensures ValidateSpace(v, d).fields.Keys <= v.fields.Keys + {d.name}
  {}

  lemma FormKeepsFields(v: Validator, f: FormDecl)
    ensures ValidateForm(v, f).fields == v.fields
  {}

  lemma InstructionKeepsFields(v: Validator, i: Instruction)
    ensures ValidateInstruction(v, i).fields == v.fields
  {}

  lemma {:induction false} DeclaredIsTabled(tables: Tables, items: seq<Item>, space: string)
    requires space in tables || exists k | 0 <= k < |items| :: items[k].SpaceItem? && items[k].space.name == space
    ensures space in DeclareSpaces(tables, items)
    decreases |items|
  {
    if items != [] {
      if space !in tables {
        var k :| 0 <= k < |items| && items[k].SpaceItem? && items[k].space.name == space;
        assert k > 0 ==> items[1..][k - 1] == items[k];
      }
      if items[0].SpaceItem? {
        DeclaredIsTabled(tables[items[0].space.name := Table(items[0].space.kind.RegisterSpace?, map[])], items[1..], space);
      } else {
        DeclaredIsTabled(tables, items[1..], space);
      }
    }
  }

  lemma {:induction false} FieldsKeepSpaces(tables: Tables, items: seq<Item>, n: nat)
    requires n <= |items|
    ensures AddFields(tables, items, n).Keys == tables.Keys
  {
    if n > 0 { FieldsKeepSpaces(tables, items, n - 1); }
  }

  lemma KnownSpaceIsBuilt(isa: Isa, items: seq<Item>, n: nat, at: Location)
    requires BuiltFrom(isa, items) && n <= |items| && Known(items, n, at)
    ensures at.0 in isa.spaces
  {
    SeenIsDeclared(items, n, at.0);
    DeclaredIsTabled(map[], items, at.0);
    FieldsKeepSpaces(DeclareSpaces(map[], items), items, |items|);
  }

  /** After n hops the chain stops, at a field without a redirect or at a redirect that names a subfield. */
  predicate Settles(isa: Isa, at: Location, n: nat, end: Location) {
    Hop(isa, at, n) == Some(end) && end.0 in isa.spaces && (RedirectAt(isa, end).None? || NextLocation(isa, end).Err?)
  }

  lemma {:induction false} ChainSettles(isa: Isa, items: seq<Item>, at: Location, k: nat) returns (n: nat, end: Location)
    requires BuiltFrom(isa, items) && Accepted(items) && NoReopened(items)
    requires DeclaredBy(isa, items, at, k) && at.0 in isa.spaces
    ensures Settles(isa, at, n, end) && n <= k + 1
    decreases k
  {
    if NextLocation(isa, at).Err? {
      n, end := 0, at;
    } else {
      var next := NextLocation(isa, at).value;
      TargetKnown(items, k);
      KnownSpaceIsBuilt(isa, items, k, next);
      if Redirected(isa, next) {
        var m := DeclarationOf(isa, items, next);
        TargetIsEarlier(isa, items, at, k, next, m);
        n, end := ChainSettles(isa, items, next, m);
        n := n + 1;
      } else {
        n, end := 1, next;
        assert Hop(isa, next, 0) == Some(next);
      }
    }
  }

  /** What `follow_redirect` answers for a chain that stops after n more hops. */
  function Answer(isa: Isa, n: nat, end: Location): Outcome<Option<Location>> {
    if n > 8 then Err(RedirectTooDeep)
    else if RedirectAt(isa, end).None? then Ok(if n == 0 then None else Some(end))
    else if n == 8 then Err(RedirectTooDeep)
    else Err(BadRedirect)
  }

  lemma {:induction false} FollowSettled(isa: Isa, at: Location, visited: nat, n: nat, end: Location)
    requires visited <= 8 && Settles(isa, at, n, end)
    ensures FollowRedirect(isa, at, visited) == Answer(isa, visited + n, end)
    decreases n
  {
    if n > 0 && visited < 8 { FollowSettled(isa, NextLocation(isa, at).value, visited + 1, n - 1, end); }
  }

  /** In an accepted document without reopened tags every register's chain of redirects stops, after at most as many
      hops as there are items; following it fails exactly when it has more than eight hops or ends in a redirect that
      names a subfield, and otherwise gives its end. */
  lemma RedirectsSettle(isa: Isa, items: seq<Item>, at: Location) returns (n: nat, end: Location)
    requires BuiltFrom(isa, items) && Accepted(items) && NoReopened(items) && at.0 in isa.spaces
    ensures Settles(isa, at, n, end) && n <= |items|
    ensures FollowRedirect(isa, at, 0) == Answer(isa, n, end)
    ensures FollowRedirect(isa, at, 0).Ok? <==> n <= 8 && RedirectAt(isa, end).None?
  {
    if Redirected(isa, at) {
      var k := DeclarationOf(isa, items, at);
      n, end := ChainSettles(isa, items, at, k);
    } else {
      n, end := 0, at;
    }
    FollowSettled(isa, at, 0, n, end);
  }

  // ---- Documents that are accepted all the same ----

  const REG := SpaceItem(SpaceDecl("reg", RegisterSpace, None, Machine.Little, None))

  function Sized(name: string, range: Option<(nat, nat)>, subfields: seq<string>): Item {
    FieldItem(FieldDecl("reg", name, range, true, None, subfields))
  }

  function RedirectTo(name: string, segments: seq<string>): Item {
    FieldItem(FieldDecl("reg", name, None, false, Some(segments), []))
  }

  lemma ThreeAccepted(a: Item, b: Item)
    requires Before([REG, a, b], 3).diags == []
    ensures Accepted([REG, a, b])
  {
    ValidateFrom([REG, a, b], 3);
    assert [REG, a, b][3..] == [];
  }

  lemma FourAccepted(a: Item, b: Item, c: Item)
    requires Before([REG, a, b, c], 4).diags == []
    ensures Accepted([REG, a, b, c])
  {
    ValidateFrom([REG, a, b, c], 4);
    assert [REG, a, b, c][4..] == [];
  }

  /** The validator after the register space and one sized field. */
  function After(names: FieldNames): Validator {
    Validator(map["reg" := false], map[], map["reg" := names], [])
  }

  /** A field declaration of one new name, and a redirect of a known one. */
  lemma OneTarget(names: FieldNames, f: FieldDecl, subfields: set<string>)
    requires f.range.None? && f.space == "reg" && SubfieldSet(f) == subfields && !IsAppend(f)
    requires f.name !in names && (f.redirect.Some? ==> RedirectFault(After(names), "reg", f.redirect.value).None?)
    ensures ValidateField(After(names), f) == After(names[f.name := subfields])
  {
    assert FieldTargets(f) == [f.name] && [f.name][1..] == [];
    assert RegisterTargets(names[f.name := subfields], f, [f.name][1..]) == (names[f.name := subfields], None);
    assert RegisterTargets(names, f, [f.name]) == (names[f.name := subfields], None);
  }

  lemma KnownTarget(names: FieldNames, f: FieldDecl)
    requires f.range.None? && f.space == "reg" && IsRedirectOnly(f) && f.name in names
    requires RedirectFault(After(names), "reg", f.redirect.value).None?
    ensures ValidateField(After(names), f) == After(names)
  {
    assert FieldTargets(f) == [f.name] && [f.name][1..] == [];
    assert RegisterTargets(names, f, [f.name][1..]) == (names, None);
    assert RegisterTargets(names, f, [f.name]) == (names, None);
    assert After(names).fields["reg" := names] == After(names).fields;
  }

  lemma PlainReference(space: string, segments: seq<string>)
    requires segments != [] && segments[0] != "" && segments[0][0] != '$'
    ensures ReferencePath(space, segments) == (space, segments)
  {}

  /** The machine's tables when the register space comes first and fields follow. */
  lemma {:induction false} OnlyFields(tables: Tables, items: seq<Item>)
    requires forall k | 0 <= k < |items| :: items[k].FieldItem?
    ensures DeclareSpaces(tables, items) == tables
    decreases |items|
  {
    if items != [] { OnlyFields(tables, items[1..]); }
  }

  lemma RegisterSpaceOnly(items: seq<Item>)
    requires items != [] && items[0] == REG && forall k | 1 <= k < |items| :: items[k].FieldItem?
    ensures DeclareSpaces(map[], items) == map["reg" := Table(true, map[])]
  {
    var tables: Tables := map[];
    OnlyFields(tables["reg" := Table(true, map[])], items[1..]);
  }

  /** A later redirect of a field that is there already is accepted, and closes a cycle. */
  lemma ReopenedTagCycles(isa: Isa)
    requires BuiltFrom(isa, [REG, Sized("A", None, []), RedirectTo("B", ["A"]), RedirectTo("A", ["B"])])
    ensures Accepted([REG, Sized("A", None, []), RedirectTo("B", ["A"]), RedirectTo("A", ["B"])])
    ensures Hop(isa, ("reg", "A"), 2) == Some(("reg", "A"))
    ensures FollowRedirect(isa, ("reg", "A"), 0) == Err(RedirectTooDeep)
  {
    var a, b, c := Sized("A", None, []), RedirectTo("B", ["A"]), RedirectTo("A", ["B"]);
    var items := [REG, a, b, c];
    assert Before(items, 1) == After(map[]);
    assert SubfieldSet(a.field) == {} && SubfieldSet(b.field) == {};
    OneTarget(map[], a.field, {});
    assert Before(items, 2) == After(map["A" := {}]);
    PlainReference("reg", ["A"]);
    PlainReference("reg", ["B"]);
    OneTarget(map["A" := {}], b.field, {});
    assert Before(items, 3) == After(map["A" := {}, "B" := {}]);
    KnownTarget(map["A" := {}, "B" := {}], c.field);
    assert Before(items, 4).diags == [];
    FourAccepted(a, b, c);
    TwoRedirects(isa, items, "B", "A");
  }

  /** Two registers that the machine redirects to one another. */
  lemma TwoRedirects(isa: Isa, items: seq<Item>, x: string, y: string)
    requires BuiltFrom(isa, items) && |items| == 4 && items[0] == REG && items[1].FieldItem? && items[1].field.space == "reg"
    requires x != y && x != "" && y != "" && x[0] != '$' && y[0] != '$'
    requires items[2] == RedirectTo(x, [y]) && items[3] == RedirectTo(y, [x])
    ensures Hop(isa, ("reg", y), 2) == Some(("reg", y))
    ensures FollowRedirect(isa, ("reg", y), 0) == Err(RedirectTooDeep)
  {
    TwoRedirectsBuilt(items, x, y);
    PlainReference("reg", [x]);
    PlainReference("reg", [y]);
    assert NextLocation(isa, ("reg", y)) == Ok(("reg", x)) && NextLocation(isa, ("reg", x)) == Ok(("reg", y));
    assert Hop(isa, ("reg", x), 1) == Some(("reg", y)) by { assert Hop(isa, ("reg", y), 0) == Some(("reg", y)); }
    CycleRejected(isa, ("reg", y), 2);
  }

  lemma TwoRedirectsBuilt(items: seq<Item>, x: string, y: string)
    requires |items| == 4 && items[0] == REG && items[1].FieldItem? && items[1].field.space == "reg" && x != y
    requires items[2] == RedirectTo(x, [y]) && items[3] == RedirectTo(y, [x])
    ensures var tables := RegisterTables(items);
      && "reg" in tables && x in tables["reg"].registers && y in tables["reg"].registers
      && tables["reg"].registers[x].redirect == Some([y]) && tables["reg"].registers[y].redirect == Some([x])
  {
    RegisterSpaceOnly(items);
    var tables := DeclareSpaces(map[], items);
    var one := AddFields(tables, items, 2);
    assert AddFields(tables, items, 1) == tables;
    assert "reg" in one && one["reg"].isRegister;
    var two := AddFields(tables, items, 3);
    assert two == AddField(one, items[2].field);
    assert AddFields(tables, items, 4) == AddField(two, items[3].field);
  }

  /** Declaring no tag twice is not enough: the elements of an array are names that a redirect can reopen. */
  lemma ElementTagCycles(isa: Isa)
    requires BuiltFrom(isa, [REG, Sized("GPR", Some((1, 1)), []), RedirectTo("B", ["GPR1"]), RedirectTo("GPR1", ["B"])])
    ensures Accepted([REG, Sized("GPR", Some((1, 1)), []), RedirectTo("B", ["GPR1"]), RedirectTo("GPR1", ["B"])])
    ensures Hop(isa, ("reg", "GPR1"), 2) == Some(("reg", "GPR1"))
    ensures FollowRedirect(isa, ("reg", "GPR1"), 0) == Err(RedirectTooDeep)
  {
    var a, b, c := Sized("GPR", Some((1, 1)), []), RedirectTo("B", ["GPR1"]), RedirectTo("GPR1", ["B"]);
    var items := [REG, a, b, c];
    assert Before(items, 1) == After(map[]);
    ElementTarget(a.field);
    assert Before(items, 2) == After(map["GPR1" := {}]);
    PlainReference("reg", ["GPR1"]);
    PlainReference("reg", ["B"]);
    assert SubfieldSet(b.field) == {};
    OneTarget(map["GPR1" := {}], b.field, {});
    assert Before(items, 3) == After(map["GPR1" := {}, "B" := {}]);
    KnownTarget(map["GPR1" := {}, "B" := {}], c.field);
    assert Before(items, 4).diags == [];
    FourAccepted(a, b, c);
    TwoRedirects(isa, items, "B", "GPR1");
  }

  /** A redirect to the element of an array is accepted. */
  lemma ElementRedirectAccepted()
    ensures Accepted([REG, Sized("GPR", Some((1, 1)), []), RedirectTo("B", ["GPR1"])])
  {
    var a, b := Sized("GPR", Some((1, 1)), []), RedirectTo("B", ["GPR1"]);
    var items := [REG, a, b];
    assert Before(items, 1) == After(map[]);
    ElementTarget(a.field);
    assert Before(items, 2) == After(map["GPR1" := {}]);
    PlainReference("reg", ["GPR1"]);
    assert SubfieldSet(b.field) == {};
    OneTarget(map["GPR1" := {}], b.field, {});
    assert Before(items, 3).diags == [];
    ThreeAccepted(a, b);
  }

  lemma ElementRedirectBuilt(items: seq<Item>)
    requires items == [REG, Sized("GPR", Some((1, 1)), []), RedirectTo("B", ["GPR1"])]
    ensures RegisterTables(items) ==
      map["reg" := Table(true, map["GPR" := RegisterDecl(None, []), "B" := RegisterDecl(Some(["GPR1"]), [])])]
  {
    RegisterSpaceOnly(items);
    var tables := DeclareSpaces(map[], items);
    var one := AddFields(tables, items, 2);
    assert AddFields(tables, items, 1) == tables;
    assert one == AddField(tables, items[1].field);
    assert one["reg"].registers == map["GPR" := RegisterDecl(None, [])];
    assert AddFields(tables, items, 3) == AddField(one, items[2].field);
  }

  lemma ElementTarget(f: FieldDecl)
    requires f == FieldDecl("reg", "GPR", Some((1, 1)), true, None, [])
    ensures ValidateField(After(map[]), f) == After(map["GPR1" := {}])
  {
    assert Numerals.Decimal(1) == "1" && "GPR" + "1" == "GPR1";
    assert NamesFrom("GPR", 2, 1) == [];
    assert NamesFrom("GPR", 1, 1) == ["GPR1"] + NamesFrom("GPR", 2, 1);
    assert FieldTargets(f) == ["GPR1"] && ["GPR1"][1..] == [];
    assert SubfieldSet(f) == {};
    assert RegisterField(map[], f) == (map["GPR1" := {}], None);
  }

  /** A redirect to a subfield is accepted and can never be followed. */
  lemma SubfieldRedirectFails(isa: Isa)
    requires BuiltFrom(isa, [REG, Sized("A", None, ["LSB"]), RedirectTo("B", ["A", "LSB"])])
    ensures Accepted([REG, Sized("A", None, ["LSB"]), RedirectTo("B", ["A", "LSB"])])
    ensures FollowRedirect(isa, ("reg", "B"), 0) == Err(BadRedirect)
  {
    var a, b := Sized("A", None, ["LSB"]), RedirectTo("B", ["A", "LSB"]);
    var items := [REG, a, b];
    assert Before(items, 1) == After(map[]);
    assert SubfieldSet(a.field) == {"LSB"} && SubfieldSet(b.field) == {};
    OneTarget(map[], a.field, {"LSB"});
    assert Before(items, 2) == After(map["A" := {"LSB"}]);
    PlainReference("reg", ["A", "LSB"]);
    OneTarget(map["A" := {"LSB"}], b.field, {});
    assert Before(items, 3).diags == [];
    ThreeAccepted(a, b);
    SubfieldRedirectBuilt(items);
  }

  lemma SubfieldRedirectBuilt(items: seq<Item>)
    requires |items| == 3 && items[0] == REG && items[1] == Sized("A", None, ["LSB"]) && items[2] == RedirectTo("B", ["A", "LSB"])
    ensures var tables := RegisterTables(items);
      "reg" in tables && "B" in tables["reg"].registers && tables["reg"].registers["B"].redirect == Some(["A", "LSB"])
  {
    RegisterSpaceOnly(items);
    var tables := DeclareSpaces(map[], items);
    var one := AddFields(tables, items, 2);
    assert AddFields(tables, items, 1) == tables;
    assert "reg" in one && one["reg"].isRegister;
    assert AddFields(tables, items, 3) == AddField(one, items[2].field);
  }
}
