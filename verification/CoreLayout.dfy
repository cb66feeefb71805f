/** Laying out the registers of a core (`src/soc/core/specification.rs`). */
module CoreLayout {
  import opened Words
  import opened Results
  import opened Seqs

  /** `RegisterSpec`: `width` bits from `offset`. */
  datatype RegisterSpec = RegisterSpec(name: string, offset: nat, width: nat)

  datatype LayoutError = DuplicateRegister(name: string) | InvalidWidth(name: string)

  /** The builder; the names it has seen are those of its registers. */
  datatype Builder = Builder(cursor: nat, registers: seq<RegisterSpec>, errors: seq<LayoutError>)

  const EMPTY := Builder(0, [], [])

  function Extent(r: RegisterSpec): nat {
    r.offset + r.width
  }

  predicate Seen(registers: seq<RegisterSpec>, name: string) {
    exists k | 0 <= k < |registers| :: registers[k].name == name
  }

  function PushSpec(b: Builder, r: RegisterSpec): Builder {
    if Seen(b.registers, r.name) then b.(errors := b.errors + [DuplicateRegister(r.name)])
    else b.(registers := b.registers + [r])
  }

  function Max(a: nat, b: nat): nat {
    if a >= b then a else b
  }

  /** A call of the builder: the next free bits, or bits at a fixed offset. */
  datatype Call = Next(name: string, width: nat) | Fixed(name: string, offset: nat, width: nat)

  /** `register` and `register_at` */
  function Step(b: Builder, call: Call): Builder {
    if call.width == 0 then b.(errors := b.errors + [InvalidWidth(call.name)])
    else
      match call
      case Next(name, width) =>
        (var pushed := PushSpec(b, RegisterSpec(name, b.cursor, width));
         pushed.(cursor := b.cursor + width))
      case Fixed(name, offset, width) =>
        var pushed := PushSpec(b, RegisterSpec(name, offset, width));
        pushed.(cursor := Max(b.cursor, offset + width))
  }

  function RunCalls(b: Builder, calls: seq<Call>): Builder
    decreases |calls|
  {
    if calls == [] then b else RunCalls(Step(b, calls[0]), calls[1..])
  }

  // ---- Building ----

  datatype CoreSpec = CoreSpec(registers: seq<RegisterSpec>, index: map<string, nat>, totalBits: nat)

  /** `sort_by_key`, which keeps the order of equal keys. */
  function InsertSpec(r: RegisterSpec, sorted: seq<RegisterSpec>): seq<RegisterSpec> {
    if sorted == [] || r.offset <= sorted[0].offset then [r] + sorted else [sorted[0]] + InsertSpec(r, sorted[1..])
  }

  function SortSpecs(registers: seq<RegisterSpec>): seq<RegisterSpec> {
    if registers == [] then [] else InsertSpec(registers[0], SortSpecs(registers[1..]))
  }

  /** Later entries of a name replace earlier ones. */
  function IndexFrom(registers: seq<RegisterSpec>, n: nat): map<string, nat>
    requires n <= |registers|
  {
    if n == 0 then map[] else IndexFrom(registers, n - 1)[registers[n - 1].name := n - 1]
  }

  function MaxExtent(registers: seq<RegisterSpec>): nat {
    if registers == [] then 0 else Max(Extent(registers[0]), MaxExtent(registers[1..]))
  }

  function Build(b: Builder): Result<CoreSpec, seq<LayoutError>> {
    if b.errors != [] then Err(b.errors)
    else
      var sorted := SortSpecs(b.registers);
      Ok(CoreSpec(sorted, IndexFrom(sorted, |sorted|), MaxExtent(sorted)))
  }

  // ---- What the builder keeps ----

  predicate DistinctNames(registers: seq<RegisterSpec>) {
    forall j, k | 0 <= j < k < |registers| :: registers[j].name != registers[k].name
  }

  /** Names are distinct, every register has bits, none lies beyond the cursor, and without an error the
      cursor is the largest extent. */
  ghost predicate Kept(b: Builder) {
    && DistinctNames(b.registers)
    && (forall r | r in b.registers :: 0 < r.width && Extent(r) <= b.cursor)
    && (b.errors == [] ==> b.cursor == MaxExtent(b.registers))
  }

  lemma {:induction false} MaxExtentAppend(registers: seq<RegisterSpec>, r: RegisterSpec)
    ensures MaxExtent(registers + [r]) == Max(MaxExtent(registers), Extent(r))
  {
    if registers == [] {
      assert registers + [r] == [r];
      assert [r][1..] == [];
    } else {
      assert (registers + [r])[0] == registers[0] && (registers + [r])[1..] == registers[1..] + [r];
      MaxExtentAppend(registers[1..], r);
    }
  }

  lemma StepKeeps(b: Builder, call: Call)
    requires Kept(b)
    ensures Kept(Step(b, call))
  {
    if call.width > 0 {
      var r := RegisterSpec(call.name, if call.Next? then b.cursor else call.offset, call.width);
      MaxExtentAppend(b.registers, r);
    }
  }

  lemma {:induction false} RunKeeps(b: Builder, calls: seq<Call>)
    requires Kept(b)
    ensures Kept(RunCalls(b, calls))
    decreases |calls|
  {
    if calls != [] {
      StepKeeps(b, calls[0]);
      RunKeeps(Step(b, calls[0]), calls[1..]);
    }
  }

  /** No register reaches into the bits of the other. */
  predicate DisjointSpecs(a: RegisterSpec, b: RegisterSpec) {
    Extent(a) <= b.offset || Extent(b) <= a.offset
  }

  lemma {:induction false} ErrorsStay(b: Builder, calls: seq<Call>)
    ensures |b.errors| <= |RunCalls(b, calls).errors|
    decreases |calls|
  {
    if calls != [] { ErrorsStay(Step(b, calls[0]), calls[1..]); }
  }

  // ---- Where the calls of a builder place their registers ----

  function SpecOf(cursor: nat, call: Call): RegisterSpec {
    RegisterSpec(call.name, if call.Fixed? then call.offset else cursor, call.width)
  }

  function CursorAfter(cursor: nat, call: Call): nat {
    if call.Fixed? then Max(cursor, call.offset + call.width) else cursor + call.width
  }

  function CursorAfterAll(cursor: nat, calls: seq<Call>): nat
    decreases |calls|
  {
    if calls == [] then cursor else CursorAfterAll(CursorAfter(cursor, calls[0]), calls[1..])
  }

  function Placements(cursor: nat, calls: seq<Call>): (r: seq<RegisterSpec>)
    ensures |r| == |calls|
    decreases |calls|
  {
    if calls == [] then [] else [SpecOf(cursor, calls[0])] + Placements(CursorAfter(cursor, calls[0]), calls[1..])
  }

  /** Without an error the builder has every register where the cursor, or the call, says. */
  lemma {:induction false} RunPlaces(b: Builder, calls: seq<Call>)
    requires RunCalls(b, calls).errors == []
    ensures RunCalls(b, calls).registers == b.registers + Placements(b.cursor, calls)
    decreases |calls|
  {
    if calls == [] {
      assert b.registers + [] == b.registers;
    } else {
      var next := Step(b, calls[0]);
      ErrorsStay(next, calls[1..]);
      assert next.errors == [] && b.errors == [];
      assert next.registers == b.registers + [SpecOf(b.cursor, calls[0])] && next.cursor == CursorAfter(b.cursor, calls[0]);
      RunPlaces(next, calls[1..]);
    }
  }

  lemma {:induction false} PlacementsAppend(cursor: nat, a: seq<Call>, b: seq<Call>)
    ensures Placements(cursor, a + b) == Placements(cursor, a) + Placements(CursorAfterAll(cursor, a), b)
    decreases |a|
  {
    if a == [] {
      assert a + b == b;
    } else {
      assert (a + b)[0] == a[0] && (a + b)[1..] == a[1..] + b;
      PlacementsAppend(CursorAfter(cursor, a[0]), a[1..], b);
    }
  }

  /** No register placed by the calls reaches past the cursor they leave. */
  lemma {:induction false} PlacedBelow(cursor: nat, calls: seq<Call>)
    ensures CursorAfterAll(cursor, calls) >= cursor
    ensures forall r | r in Placements(cursor, calls) :: Extent(r) <= CursorAfterAll(cursor, calls)
    decreases |calls|
  {
    if calls != [] { PlacedBelow(CursorAfter(cursor, calls[0]), calls[1..]); }
  }

  /** The placement of call j starts from the cursor that the calls before it leave. */
  lemma PlacedAt(calls: seq<Call>, j: nat)
    requires j < |calls|
    ensures Placements(0, calls)[..j] == Placements(0, calls[..j])
    ensures Placements(0, calls)[j] == SpecOf(CursorAfterAll(0, calls[..j]), calls[j])
  {
    assert calls == calls[..j] + calls[j..];
    PlacementsAppend(0, calls[..j], calls[j..]);
  }

  /** In every sequence of calls without an error, call k has placed register k, and a register that takes the next bits
      shares none with any register placed before it. */
  lemma NextIsDisjoint(calls: seq<Call>, i: nat, j: nat)
    requires RunCalls(EMPTY, calls).errors == [] && i < j < |calls| && calls[j].Next?
    ensures var registers := RunCalls(EMPTY, calls).registers;
      && |registers| == |calls| && registers[i].name == calls[i].name && registers[j].name == calls[j].name
      && DisjointSpecs(registers[i], registers[j])
  {
    RunPlaces(EMPTY, calls);
    PlacedAt(calls, i);
    PlacedAt(calls, j);
    PlacedBelow(0, calls[..j]);
    assert Placements(0, calls)[i] in Placements(0, calls[..j]);
  }

  // ---- The built layout ----

  lemma {:induction false} InsertedSpecs(r: RegisterSpec, sorted: seq<RegisterSpec>)
    ensures multiset(InsertSpec(r, sorted)) == multiset([r]) + multiset(sorted)
  {
    if sorted != [] && r.offset > sorted[0].offset {
      InsertedSpecs(r, sorted[1..]);
      assert sorted == [sorted[0]] + sorted[1..];
    }
  }

  lemma {:induction false} SortedSpecs(registers: seq<RegisterSpec>)
    ensures multiset(SortSpecs(registers)) == multiset(registers)
  {
    if registers != [] {
      SortedSpecs(registers[1..]);
      InsertedSpecs(registers[0], SortSpecs(registers[1..]));
      assert registers == [registers[0]] + registers[1..];
    }
  }

  lemma SortedMembers(registers: seq<RegisterSpec>, r: RegisterSpec)
    ensures r in SortSpecs(registers) <==> r in registers
  {
    SortedSpecs(registers);
    assert r in SortSpecs(registers) <==> r in multiset(SortSpecs(registers));
  }

  predicate ByOffset(registers: seq<RegisterSpec>) {
    forall j, k | 0 <= j < k < |registers| :: registers[j].offset <= registers[k].offset
  }

  lemma {:induction false} InsertByOffset(r: RegisterSpec, sorted: seq<RegisterSpec>)
    requires ByOffset(sorted)
    ensures ByOffset(InsertSpec(r, sorted))
    ensures InsertSpec(r, sorted)[0] == r || (sorted != [] && InsertSpec(r, sorted)[0] == sorted[0])
  {
    if sorted != [] && r.offset > sorted[0].offset {
      var rest := InsertSpec(r, sorted[1..]);
      assert ByOffset(sorted[1..]) by {
        forall j, k | 0 <= j < k < |sorted[1..]| ensures sorted[1..][j].offset <= sorted[1..][k].offset {
          assert sorted[1..][j] == sorted[j + 1] && sorted[1..][k] == sorted[k + 1];
        }
      }
      InsertByOffset(r, sorted[1..]);
      ConsByOffset(sorted[0], rest);
    } else {
      ConsByOffset(r, sorted);
    }
  }

  lemma ConsByOffset(r: RegisterSpec, rest: seq<RegisterSpec>)
    requires ByOffset(rest) && (rest != [] ==> r.offset <= rest[0].offset)
    ensures ByOffset([r] + rest)
  {
    forall j, k | 0 <= j < k < |[r] + rest| ensures ([r] + rest)[j].offset <= ([r] + rest)[k].offset {
      if j == 0 { assert rest[0].offset <= rest[k - 1].offset; } else { assert rest[j - 1].offset <= rest[k - 1].offset; }
    }
  }

  lemma {:induction false} SortIsByOffset(registers: seq<RegisterSpec>)
    ensures ByOffset(SortSpecs(registers))
  {
    if registers != [] {
      SortIsByOffset(registers[1..]);
      InsertByOffset(registers[0], SortSpecs(registers[1..]));
    }
  }

  lemma {:induction false} IndexFinds(registers: seq<RegisterSpec>, n: nat, k: nat)
    requires k < n <= |registers| && DistinctNames(registers)
    ensures registers[k].name in IndexFrom(registers, n) && IndexFrom(registers, n)[registers[k].name] == k
  {
    if k < n - 1 { IndexFinds(registers, n - 1, k); }
  }

  lemma {:induction false} IndexedNames(registers: seq<RegisterSpec>, n: nat, name: string)
    requires n <= |registers|
    ensures name in IndexFrom(registers, n) <==> exists k | 0 <= k < n :: registers[k].name == name
  {
    if n > 0 { IndexedNames(registers, n - 1, name); }
  }

  /** Distinctness of names, as a count. */
  lemma DistinctByCount(a: seq<RegisterSpec>, b: seq<RegisterSpec>)
    requires multiset(a) == multiset(b) && DistinctNames(a)
    ensures DistinctNames(b)
  {
    forall j, k | 0 <= j < k < |b| ensures b[j].name != b[k].name {
      assert b[j] in multiset(b) && b[k] in multiset(b);
      assert b[j] in a && b[k] in a;
      var i :| 0 <= i < |a| && a[i] == b[j];
      var l :| 0 <= l < |a| && a[l] == b[k];
      if i == l { TwiceInMultiset(b, j, k); OnceInMultiset(a, i); }
    }
  }

  lemma TwiceInMultiset(s: seq<RegisterSpec>, j: nat, k: nat)
    requires j < k < |s| && s[j] == s[k]
    ensures multiset(s)[s[j]] >= 2
  {
    assert s == s[..j] + [s[j]] + s[j + 1..k] + [s[k]] + s[k + 1..];
  }

  lemma OnceInMultiset(s: seq<RegisterSpec>, i: nat)
    requires i < |s| && DistinctNames(s)
    ensures multiset(s)[s[i]] == 1
  {
    assert s == s[..i] + [s[i]] + s[i + 1..];
    assert s[i] !in s[..i] && s[i] !in s[i + 1..];
  }

  lemma {:induction false} MaxExtentIs(registers: seq<RegisterSpec>)
    ensures forall r | r in registers :: Extent(r) <= MaxExtent(registers)
    ensures registers != [] ==> exists r :: r in registers && Extent(r) == MaxExtent(registers)
  {
    if registers != [] {
      MaxExtentIs(registers[1..]);
      assert registers == [registers[0]] + registers[1..];
      if MaxExtent(registers) == Extent(registers[0]) {
        assert registers[0] in registers;
      } else {
        var r :| r in registers[1..] && Extent(r) == MaxExtent(registers[1..]);
        assert r in registers;
      }
    }
  }

  /** What a built specification says of any sequence of builder calls: registers by offset, each name indexed to
      its own register, and as many bits as the cursor, which is the largest extent. */
  lemma BuiltSpec(calls: seq<Call>)
    requires Build(RunCalls(EMPTY, calls)).Ok?
    ensures var b, spec := RunCalls(EMPTY, calls), Build(RunCalls(EMPTY, calls)).value;
      && multiset(spec.registers) == multiset(b.registers)
      && ByOffset(spec.registers) && DistinctNames(spec.registers)
      && (forall k | 0 <= k < |spec.registers| :: spec.registers[k].name in spec.index && spec.index[spec.registers[k].name] == k)
      && spec.totalBits == b.cursor
      && (forall r | r in spec.registers :: 0 < r.width && Extent(r) <= spec.totalBits)
  {
    var b := RunCalls(EMPTY, calls);
    RunKeeps(EMPTY, calls);
    var sorted := SortSpecs(b.registers);
    SortedSpecs(b.registers);
    SortIsByOffset(b.registers);
    DistinctByCount(b.registers, sorted);
    forall k | 0 <= k < |sorted| ensures sorted[k].name in IndexFrom(sorted, |sorted|) && IndexFrom(sorted, |sorted|)[sorted[k].name] == k {
      IndexFinds(sorted, |sorted|, k);
    }
    SameMaxExtent(sorted, b.registers);
    MaxExtentIs(sorted);
    forall r | r in sorted ensures 0 < r.width { SortedMembers(b.registers, r); }
  }

  lemma SameMaxExtent(a: seq<RegisterSpec>, b: seq<RegisterSpec>)
    requires multiset(a) == multiset(b)
    ensures MaxExtent(a) == MaxExtent(b)
  {
    MaxExtentIs(a);
    MaxExtentIs(b);
    assert forall r :: r in a <==> r in multiset(a);
    assert forall r :: r in b <==> r in multiset(b);
    assert |multiset(a)| == |a| && |multiset(b)| == |b|;
  }

  // ---- The builder as it runs ----

  class CoreSpecBuilder {
    var cursor: nat
    var registers: seq<RegisterSpec>
    var seen: set<string>
    var errors: seq<LayoutError>

    ghost predicate Valid()
      reads this
    {
      forall name :: name in seen <==> Seen(registers, name)
    }

    ghost function Contents(): Builder
      reads this
    {
      Builder(cursor, registers, errors)
    }

    constructor ()
      ensures Valid() && Contents() == EMPTY
    {
      cursor, registers, seen, errors := 0, [], {}, [];
    }

    method Push(r: RegisterSpec)
      requires Valid()
      modifies this`registers, this`seen, this`errors
      ensures Valid() && Contents() == PushSpec(old(Contents()), r)
    {
      if r.name in seen {
        errors := errors + [DuplicateRegister(r.name)];
      } else {
        forall name ensures name in seen + {r.name} <==> Seen(registers + [r], name) { SeenAppend(registers, r, name); }
        seen := seen + {r.name};
        registers := registers + [r];
      }
    }

    method Register(name: string, width: nat)
      requires Valid()
      modifies this
      ensures Valid() && Contents() == Step(old(Contents()), Next(name, width))
    {
      if width == 0 {
        errors := errors + [InvalidWidth(name)];
        return;
      }
      var offset := cursor;
      Push(RegisterSpec(name, offset, width));
      cursor := cursor + width;
    }

    method RegisterAt(name: string, offset: nat, width: nat)
      requires Valid()
      modifies this
      ensures Valid() && Contents() == Step(old(Contents()), Fixed(name, offset, width))
    {
      if width == 0 {
        errors := errors + [InvalidWidth(name)];
        return;
      }
      Push(RegisterSpec(name, offset, width));
      cursor := Max(cursor, offset + width);
    }

    /** `build`: sorted registers, the index filled in one pass, and the largest extent. */
    method Finish() returns (r: Result<CoreSpec, seq<LayoutError>>)
      requires Valid()
      ensures r == Build(Contents())
    {
      if errors != [] { return Err(errors); }
      var sorted := SortSpecs(registers);
      var index: map<string, nat> := map[];
      var i := 0;
      while i < |sorted|
        invariant 0 <= i <= |sorted|
        invariant index == IndexFrom(sorted, i)
      {
        index := index[sorted[i].name := i];
        i := i + 1;
      }
      var total, j := 0, 0;
      DropWhole(sorted);
      while j < |sorted|
        invariant 0 <= j <= |sorted|
        invariant Max(total, MaxExtent(sorted[j..])) == MaxExtent(sorted)
      {
        DropDrop(sorted, j, 1);
        total := Max(Extent(sorted[j]), total);
        j := j + 1;
      }
      r := Ok(CoreSpec(sorted, index, total));
    }
  }

  lemma SeenAppend(registers: seq<RegisterSpec>, r: RegisterSpec, name: string)
    ensures Seen(registers + [r], name) <==> Seen(registers, name) || name == r.name
  {
    if Seen(registers, name) {
      var k :| 0 <= k < |registers| && registers[k].name == name;
      assert (registers + [r])[k].name == name;
    }
    if name == r.name { assert (registers + [r])[|registers|].name == name; }
  }
}
