/** The register file of a core: named windows over a memory of 64-bit words, in either byte order
    (`src/soc/core/state.rs`, `src/soc/system/bus/data.rs`). Registers may overlap. */
module RegisterFile {
  import opened Words
  import opened Results
  import opened Semantics
  import Machine

  type Endianness = Machine.Endianness

  datatype Layout = Layout(offset: nat, width: nat)

  /** The core state; bit i of `bits` is bit i % 64, counted from the low end, of the word i / 64. */
  datatype Core = Core(layout: map<string, Layout>, endianness: Endianness, bits: seq<bool>)

  /** The number whose bits are given, the lowest first. */
  function FromBits(bits: seq<bool>): nat {
    if bits == [] then 0 else (if bits[0] then 1 else 0) + 2 * FromBits(bits[1..])
  }

  // ---- Where a register lies ----

  /** Its first bit in its first word, where that word starts, and the words of its chunk. */
  function Intra(l: Layout): (i: nat)
    ensures i < 64 && i <= l.offset
  {
    l.offset % 64
  }

  function ChunkBase(l: Layout): nat {
    l.offset - Intra(l)
  }

  function ChunkWords(l: Layout): (n: nat)
    ensures 1 <= n <= 2
  {
    if Intra(l) + l.width > 64 then 2 else 1
  }

  /** The data handle reaches the register: two words at most, all of them in the memory. */
  predicate Reaches(size: nat, l: Layout) {
    if l.width == 0 then l.offset < size
    else Intra(l) + l.width <= 128 && ChunkBase(l) + 64 * ChunkWords(l) <= size
  }

  predicate InChunk(l: Layout) {
    Intra(l) + l.width <= 64 * ChunkWords(l)
  }

  /** A chunk of two words has the first of them on top in a big-endian memory. */
  function Turn(order: Endianness, l: Layout, i: nat): (t: nat)
    requires i < 64 * ChunkWords(l)
    ensures t < 64 * ChunkWords(l)
  {
    if order.Big? && ChunkWords(l) == 2 then (if i < 64 then i + 64 else i - 64) else i
  }

  /** Writes count the window from the low end of the chunk; big-endian reads count it from the high end. */
  function ReadStart(order: Endianness, l: Layout): nat
    requires InChunk(l)
  {
    if order.Little? then Intra(l) else 64 * ChunkWords(l) - (Intra(l) + l.width)
  }

  /** The bit of the memory is bit `start + j` of the chunk, for some j below the width. */
  predicate InWindow(order: Endianness, l: Layout, start: nat, p: nat) {
    ChunkBase(l) <= p < ChunkBase(l) + 64 * ChunkWords(l) && start <= Turn(order, l, p - ChunkBase(l)) < start + l.width
  }

  /** The bits that writing the register changes. */
  predicate Changes(order: Endianness, l: Layout, p: nat) {
    InWindow(order, l, Intra(l), p)
  }

  /** The bits that reading the register shows. */
  predicate Shows(order: Endianness, l: Layout, p: nat) {
    InChunk(l) && InWindow(order, l, ReadStart(order, l), p)
  }

  // ---- Access ----

  function Window(core: Core, name: string): (r: Outcome<Layout>)
    ensures r.Err? ==> DynamicError(r.error)
    ensures r.Ok? ==> name in core.layout && r.value == core.layout[name] && Reaches(|core.bits|, r.value)
  {
    if name !in core.layout then Err(UnknownStateRegister(name))
    else if core.layout[name].width > 65535 then Err(StateWidthOverflow)
    else if !Reaches(|core.bits|, core.layout[name]) then Err(BusFault)
    else Ok(core.layout[name])
  }

  function ShownBit(core: Core, l: Layout, j: nat): bool
    requires Reaches(|core.bits|, l) && j < l.width
  {
    core.bits[ChunkBase(l) + Turn(core.endianness, l, ReadStart(core.endianness, l) + j)]
  }

  /** `CoreState::read_register` */
  function ReadRegister(core: Core, name: string): (r: Outcome<nat>)
    ensures r.Err? ==> DynamicError(r.error)
  {
    var l :- Window(core, name);
    Ok(FromBits(seq(l.width, j requires 0 <= j < l.width => ShownBit(core, l, j))))
  }

  function StoredBit(core: Core, l: Layout, value: nat, p: nat): bool
    requires p < |core.bits|
  {
    if Changes(core.endianness, l, p) then Bit(value, Turn(core.endianness, l, p - ChunkBase(l)) - Intra(l)) else core.bits[p]
  }

  /** `CoreState::write_register` keeps the low bits the register has room for. */
  function WriteRegister(core: Core, name: string, value: nat): (r: Outcome<Core>)
    ensures r.Err? ==> DynamicError(r.error)
    ensures r.Ok? ==> SameShape(core, r.value)
  {
    var l :- Window(core, name);
    Ok(core.(bits := seq(|core.bits|, p requires 0 <= p < |core.bits| => StoredBit(core, l, value, p))))
  }

  /** What no write changes: where the registers lie, and the byte order. */
  datatype Shape = Shape(layout: map<string, Layout>, endianness: Endianness)

  function ShapeOf(core: Core): Shape {
    Shape(core.layout, core.endianness)
  }

  /** The same registers over as much memory. */
  predicate SameShape(a: Core, b: Core) {
    ShapeOf(a) == ShapeOf(b) && |a.bits| == |b.bits|
  }

  // ---- Which writes disturb which reads ----

  function Max(a: int, b: int): int {
    if a >= b then a else b
  }

  function Min(a: int, b: int): int {
    if a <= b then a else b
  }

  /** Where word k of the chunk starts within the chunk. */
  function WordStart(order: Endianness, l: Layout, k: nat): nat
    requires k < ChunkWords(l)
  {
    if order.Big? then 64 * (ChunkWords(l) - 1 - k) else 64 * k
  }

  /** Word k of one chunk is word m of the other, and the two windows meet in it. */
  predicate MeetIn(order: Endianness, a: Layout, from: nat, k: nat, b: Layout, start: nat, m: nat)
    requires k < ChunkWords(a) && m < ChunkWords(b)
  {
    var x, y := from - WordStart(order, a, k), start - WordStart(order, b, m);
    ChunkBase(a) + 64 * k == ChunkBase(b) + 64 * m
    && Max(0, Max(x, y)) < Min(64, Min(x + a.width, y + b.width))
  }

  /** Writing `a` can change what `b` reads. */
  predicate Disturbs(order: Endianness, a: Layout, b: Layout) {
    InChunk(a) && InChunk(b) && exists k, m | 0 <= k < ChunkWords(a) && 0 <= m < ChunkWords(b) ::
      MeetIn(order, a, Intra(a), k, b, ReadStart(order, b), m)
  }

  /** A bit of a window, found in word k of its chunk. */
  lemma InWindowOfWord(order: Endianness, l: Layout, start: nat, k: nat, i: nat)
    requires k < ChunkWords(l) && i < 64
    ensures InWindow(order, l, start, ChunkBase(l) + 64 * k + i) <==>
            start - WordStart(order, l, k) <= i < start - WordStart(order, l, k) + l.width
  {}

  lemma MeetAt(order: Endianness, a: Layout, from: nat, k: nat, b: Layout, start: nat, m: nat) returns (p: nat)
    requires k < ChunkWords(a) && m < ChunkWords(b) && MeetIn(order, a, from, k, b, start, m)
    ensures InWindow(order, a, from, p) && InWindow(order, b, start, p)
  {
    var i := Max(0, Max(from - WordStart(order, a, k), start - WordStart(order, b, m)));
    p := ChunkBase(a) + 64 * k + i;
    InWindowOfWord(order, a, from, k, i);
    InWindowOfWord(order, b, start, m, i);
  }

  /** The word of the memory a position lies in. */
  lemma InWord(l: Layout, p: nat) returns (k: nat, i: nat)
    requires ChunkBase(l) <= p < ChunkBase(l) + 64 * ChunkWords(l)
    ensures k < ChunkWords(l) && i < 64 && p == ChunkBase(l) + 64 * k + i
  {
    k := if p < ChunkBase(l) + 64 then 0 else 1;
    i := p - ChunkBase(l) - 64 * k;
  }

  lemma BaseIsWord(l: Layout)
    ensures ChunkBase(l) % 64 == 0
  {}

  lemma SameWord(a: nat, k: nat, i: nat, b: nat, m: nat, j: nat)
    requires a % 64 == 0 && b % 64 == 0 && i < 64 && j < 64 && a + 64 * k + i == b + 64 * m + j
    ensures a + 64 * k == b + 64 * m && i == j
  {}

  lemma MeetHere(order: Endianness, a: Layout, from: nat, b: Layout, start: nat, p: nat)
    requires InWindow(order, a, from, p) && InWindow(order, b, start, p)
    ensures exists k, m | 0 <= k < ChunkWords(a) && 0 <= m < ChunkWords(b) :: MeetIn(order, a, from, k, b, start, m)
  {
    var k, i := InWord(a, p);
    var m, j := InWord(b, p);
    BaseIsWord(a);
    BaseIsWord(b);
    SameWord(ChunkBase(a), k, i, ChunkBase(b), m, j);
    InWindowOfWord(order, a, from, k, i);
    InWindowOfWord(order, b, start, m, i);
    assert MeetIn(order, a, from, k, b, start, m);
  }

  /** The condition on offsets and widths says that a changed bit is shown. */
  lemma DisturbsIff(order: Endianness, a: Layout, b: Layout)
    requires InChunk(a) && InChunk(b)
    ensures Disturbs(order, a, b) <==> exists p: nat :: Changes(order, a, p) && Shows(order, b, p)
  {
    if Disturbs(order, a, b) {
      var k, m :| 0 <= k < ChunkWords(a) && 0 <= m < ChunkWords(b) && MeetIn(order, a, Intra(a), k, b, ReadStart(order, b), m);
      var p := MeetAt(order, a, Intra(a), k, b, ReadStart(order, b), m);
      assert Changes(order, a, p) && Shows(order, b, p);
    }
    if p: nat :| Changes(order, a, p) && Shows(order, b, p) {
      MeetHere(order, a, Intra(a), b, ReadStart(order, b), p);
    }
  }

  // ---- Bits of a read and of a write ----

  lemma {:induction false} FromBitsBit(bits: seq<bool>, j: nat)
    ensures Bit(FromBits(bits), j) == (j < |bits| && bits[j])
    decreases j
  {
    if bits == [] {
      BitZero(j);
    } else {
      assert FromBits(bits) / 2 == FromBits(bits[1..]);
      if j > 0 { FromBitsBit(bits[1..], j - 1); }
    }
  }

  lemma ReachIsInChunk(size: nat, l: Layout)
    requires Reaches(size, l)
    ensures InChunk(l)
    ensures 0 < l.width ==> ChunkBase(l) + 64 * ChunkWords(l) <= size
  {}

  lemma TurnTwice(order: Endianness, l: Layout, i: nat)
    requires i < 64 * ChunkWords(l)
    ensures Turn(order, l, Turn(order, l, i)) == i
  {}

  /** Bit j of what a register reads, and the memory bit that shows it. */
  lemma ReadBit(core: Core, name: string, j: nat)
    requires Window(core, name).Ok?
    ensures var l := core.layout[name];
      Bit(ReadRegister(core, name).value, j) == (j < l.width && ShownBit(core, l, j))
  {
    var l := core.layout[name];
    FromBitsBit(seq(l.width, k requires 0 <= k < l.width => ShownBit(core, l, k)), j);
  }

  /** The memory bit behind bit j of a read. */
  function ShownPlace(order: Endianness, l: Layout, j: nat): (p: nat)
    requires InChunk(l) && j < l.width
    ensures ChunkBase(l) <= p < ChunkBase(l) + 64 * ChunkWords(l)
  {
    ChunkBase(l) + Turn(order, l, ReadStart(order, l) + j)
  }

  lemma ShownPlaceShows(order: Endianness, l: Layout, j: nat)
    requires InChunk(l) && j < l.width
    ensures Shows(order, l, ShownPlace(order, l, j))
  {
    TurnTwice(order, l, ReadStart(order, l) + j);
  }

  lemma ShownPlaceOf(order: Endianness, l: Layout, p: nat) returns (j: nat)
    requires Shows(order, l, p)
    ensures j < l.width && ShownPlace(order, l, j) == p
  {
    j := Turn(order, l, p - ChunkBase(l)) - ReadStart(order, l);
    TurnTwice(order, l, p - ChunkBase(l));
  }

  lemma WriteBit(core: Core, name: string, value: nat, p: nat)
    requires WriteRegister(core, name, value).Ok? && p < |core.bits|
    ensures WriteRegister(core, name, value).value.bits[p] == StoredBit(core, core.layout[name], value, p)
  {}

  /** Equal shown bits are equal values. */
  lemma SameReads(a: Core, b: Core, name: string)
    requires SameShape(a, b)
    requires Window(a, name).Ok? ==> forall j: nat | j < a.layout[name].width :: ShownBit(a, a.layout[name], j) == ShownBit(b, a.layout[name], j)
    ensures ReadRegister(a, name) == ReadRegister(b, name)
  {
    if Window(a, name).Ok? {
      forall j: nat ensures Bit(ReadRegister(a, name).value, j) == Bit(ReadRegister(b, name).value, j) {
        ReadBit(a, name, j);
        ReadBit(b, name, j);
      }
      BitExt(ReadRegister(a, name).value, ReadRegister(b, name).value);
    }
  }

  // ---- What a write keeps ----

  /** Writing a register keeps every register it does not disturb. */
  lemma WriteKeeps(core: Core, name: string, value: nat, other: string)
    requires WriteRegister(core, name, value).Ok?
    requires other in core.layout ==> !Disturbs(core.endianness, core.layout[name], core.layout[other])
    ensures ReadRegister(WriteRegister(core, name, value).value, other) == ReadRegister(core, other)
  {
    var after := WriteRegister(core, name, value).value;
    if Window(core, other).Ok? {
      var a, b, order := core.layout[name], core.layout[other], core.endianness;
      ReachIsInChunk(|core.bits|, a);
      ReachIsInChunk(|core.bits|, b);
      DisturbsIff(order, a, b);
      forall j: nat | j < b.width ensures ShownBit(core, b, j) == ShownBit(after, b, j) {
        var p := ShownPlace(order, b, j);
        ShownPlaceShows(order, b, j);
        WriteBit(core, name, value, p);
        assert !Changes(order, a, p);
      }
    }
    SameReads(core, after, other);
  }

  lemma ShownIs(core: Core, l: Layout, j: nat, p: nat)
    requires Reaches(|core.bits|, l) && j < l.width && ShownPlace(core.endianness, l, j) == p
    ensures p < |core.bits| && ShownBit(core, l, j) == core.bits[p]
  {}

  /** A changed bit that bit j of the other register shows. */
  lemma ChangedShows(core: Core, name: string, value: nat, other: string, p: nat, j: nat)
    requires Window(core, name).Ok? && Window(core, other).Ok? && Changes(core.endianness, core.layout[name], p)
    requires j < core.layout[other].width && ShownPlace(core.endianness, core.layout[other], j) == p
    ensures p < |core.bits|
    ensures Bit(ReadRegister(core, other).value, j) == core.bits[p]
    ensures var a := core.layout[name];
      Bit(ReadRegister(WriteRegister(core, name, value).value, other).value, j) == Bit(value, Turn(core.endianness, a, p - ChunkBase(a)) - Intra(a))
  {
    var b, after := core.layout[other], WriteRegister(core, name, value).value;
    ShownIs(core, b, j, p);
    ShownIs(after, b, j, p);
    WriteBit(core, name, value, p);
    ReadBit(core, other, j);
    ReadBit(after, other, j);
  }

  lemma DisturbedAt(core: Core, name: string, other: string, p: nat, j: nat) returns (value: nat)
    requires Window(core, name).Ok? && Window(core, other).Ok? && Changes(core.endianness, core.layout[name], p)
    requires j < core.layout[other].width && ShownPlace(core.endianness, core.layout[other], j) == p
    ensures WriteRegister(core, name, value).Ok?
    ensures ReadRegister(WriteRegister(core, name, value).value, other) != ReadRegister(core, other)
  {
    var a := core.layout[name];
    var i := Turn(core.endianness, a, p - ChunkBase(a)) - Intra(a);
    ShownIs(core, core.layout[other], j, p);
    value := if core.bits[p] then 0 else Pow2(i);
    BitZero(i);
    BitPow2(i, i);
    ChangedShows(core, name, value, other, p, j);
  }

  /** When it does disturb one, some value changes what that one reads. */
  lemma WriteDisturbs(core: Core, name: string, other: string) returns (value: nat)
    requires Window(core, name).Ok? && Window(core, other).Ok?
    requires Disturbs(core.endianness, core.layout[name], core.layout[other])
    ensures WriteRegister(core, name, value).Ok?
    ensures ReadRegister(WriteRegister(core, name, value).value, other) != ReadRegister(core, other)
  {
    DisturbsIff(core.endianness, core.layout[name], core.layout[other]);
    var p: nat :| Changes(core.endianness, core.layout[name], p) && Shows(core.endianness, core.layout[other], p);
    var j := ShownPlaceOf(core.endianness, core.layout[other], p);
    value := DisturbedAt(core, name, other, p, j);
  }

  /** Writing the register never changes what the other one reads. */
  ghost predicate Isolated(core: Core, name: string, other: string) {
    forall value: nat :: KeptBy(core, name, other, value)
  }

  predicate KeptBy(core: Core, name: string, other: string, value: nat) {
    var after := WriteRegister(core, name, value);
    after.Ok? ==> ReadRegister(after.value, other) == ReadRegister(core, other)
  }

  /** Of two registers that can be reached, writing one keeps the other exactly when their windows, the written one
      counted from the low end of its chunk and the read one as its byte order says, share no bit. */
  lemma WriteKeepsIff(core: Core, name: string, other: string)
    requires Window(core, name).Ok? && Window(core, other).Ok?
    ensures Isolated(core, name, other) <==> !Disturbs(core.endianness, core.layout[name], core.layout[other])
  {
    if Disturbs(core.endianness, core.layout[name], core.layout[other]) {
      var value := WriteDisturbs(core, name, other);
      assert !KeptBy(core, name, other, value);
    } else {
      forall value: nat ensures KeptBy(core, name, other, value) { WriteKeeps(core, name, value, other); }
    }
  }

  /** In a little-endian core the condition is that the two registers share a bit of the layout. */
  lemma LittleDisturbsIff(a: Layout, b: Layout)
    requires InChunk(a) && InChunk(b) && 0 < a.width && 0 < b.width
    ensures Disturbs(Machine.Little, a, b) <==> a.offset < b.offset + b.width && b.offset < a.offset + a.width
  {
    DisturbsIff(Machine.Little, a, b);
    if a.offset < b.offset + b.width && b.offset < a.offset + a.width {
      var p := Max(a.offset, b.offset);
      assert Changes(Machine.Little, a, p) && Shows(Machine.Little, b, p);
    }
  }

  /** In a big-endian core, within one word, the window that is read is mirrored: the bits it shows lie as far from
      the high end of the word as its offset says. */
  lemma BigDisturbsIff(a: Layout, b: Layout)
    requires InChunk(a) && InChunk(b) && ChunkWords(a) == 1 && ChunkWords(b) == 1
    ensures Disturbs(Machine.Big, a, b) <==>
            ChunkBase(a) == ChunkBase(b) && 0 < a.width && 0 < b.width
            && Intra(a) < 64 - Intra(b) && 64 - Intra(b) - b.width < Intra(a) + a.width
  {
    assert Disturbs(Machine.Big, a, b) <==> MeetIn(Machine.Big, a, Intra(a), 0, b, ReadStart(Machine.Big, b), 0);
  }

  /** Registers that fill whole words are safe in both byte orders: one disturbs another only where they coincide. */
  lemma WholeWordsDisturbIff(order: Endianness, a: Layout, b: Layout)
    requires a.width == 64 && Intra(a) == 0 && b.width == 64 && Intra(b) == 0
    ensures Disturbs(order, a, b) <==> a.offset == b.offset
  {
    assert Disturbs(order, a, b) <==> MeetIn(order, a, Intra(a), 0, b, ReadStart(order, b), 0);
  }

  /** The shown bits determine the value read. */
  lemma ReadIs(core: Core, name: string, value: nat)
    requires Window(core, name).Ok? && value < Pow2(core.layout[name].width)
    requires forall j: nat | j < core.layout[name].width :: ShownBit(core, core.layout[name], j) == Bit(value, j)
    ensures ReadRegister(core, name) == Ok(value)
  {
    HighBitsClear(value, core.layout[name].width);
    forall j: nat ensures Bit(ReadRegister(core, name).value, j) == Bit(value, j) { ReadBit(core, name, j); }
    BitExt(ReadRegister(core, name).value, value);
  }

  /** The two halves of a word of zeros in a big-endian core. */
  predicate ZeroHalves(core: Core) {
    && core.endianness.Big? && core.layout == map["A" := Layout(0, 32), "B" := Layout(32, 32)]
    && |core.bits| == 64 && forall p | 0 <= p < 64 :: !core.bits[p]
  }

  lemma HalvesBits(core: Core, j: nat)
    requires ZeroHalves(core) && j < 32
    ensures Window(core, "A").Ok? && Window(core, "B").Ok?
    ensures var after := WriteRegister(core, "A", 1).value;
      && !ShownBit(core, Layout(32, 32), j)
      && ShownBit(after, Layout(32, 32), j) == Bit(1, j) && !ShownBit(after, Layout(0, 32), j)
  {
    WriteBit(core, "A", 1, j);
    WriteBit(core, "A", 1, j + 32);
  }

  lemma HalvesAfter(core: Core, after: Core)
    requires ZeroHalves(core) && WriteRegister(core, "A", 1) == Ok(after)
    ensures ReadRegister(core, "B") == Ok(0) && ReadRegister(after, "B") == Ok(1) && ReadRegister(after, "A") == Ok(0)
  {
    forall j: nat | j < 32
      ensures ShownBit(core, Layout(32, 32), j) == Bit(0, j)
      ensures ShownBit(after, Layout(32, 32), j) == Bit(1, j) && ShownBit(after, Layout(0, 32), j) == Bit(0, j)
    {
      HalvesBits(core, j);
      BitZero(j);
    }
    Pow2Monotone(1, 32);
    assert Pow2(1) == 2;
    ReadIs(core, "B", 0);
    ReadIs(after, "B", 1);
    ReadIs(after, "A", 0);
  }

  /** Disjoint registers of one word disturb each other in a big-endian core: writing the low half changes what the
      high half reads, and is not read back. */
  lemma BigHalvesDisturb()
    ensures var core := Core(map["A" := Layout(0, 32), "B" := Layout(32, 32)], Machine.Big, seq(64, i => false));
      var after := WriteRegister(core, "A", 1);
      && ReadRegister(core, "B") == Ok(0)
      && after.Ok? && ReadRegister(after.value, "B") == Ok(1) && ReadRegister(after.value, "A") == Ok(0)
  {
    var core := Core(map["A" := Layout(0, 32), "B" := Layout(32, 32)], Machine.Big, seq(64, i => false));
    assert ZeroHalves(core);
    HalvesBits(core, 0);
    HalvesAfter(core, WriteRegister(core, "A", 1).value);
  }

  // ---- What a write reads back ----

  ghost predicate ReadsBack(core: Core, name: string) {
    forall value: nat :: RereadIs(core, name, value)
  }

  predicate RereadIs(core: Core, name: string, value: nat) {
    var after := WriteRegister(core, name, value);
    after.Ok? ==> ReadRegister(after.value, name) == Ok(Low(value, core.layout[name].width))
  }

  lemma RereadBit(core: Core, name: string, value: nat, j: nat)
    requires Window(core, name).Ok? && j < core.layout[name].width
    ensures var l := core.layout[name];
      var i := ReadStart(core.endianness, l) + j;
      Bit(ReadRegister(WriteRegister(core, name, value).value, name).value, j) ==
        if Intra(l) <= i < Intra(l) + l.width then Bit(value, i - Intra(l)) else ShownBit(core, l, j)
  {
    var l, after := core.layout[name], WriteRegister(core, name, value).value;
    ReachIsInChunk(|core.bits|, l);
    var p := ShownPlace(core.endianness, l, j);
    ShownIs(core, l, j, p);
    ShownIs(after, l, j, p);
    ReadBit(after, name, j);
    WriteBit(core, name, value, p);
    TurnTwice(core.endianness, l, ReadStart(core.endianness, l) + j);
  }

  lemma SameStartReadsBack(core: Core, name: string, value: nat)
    requires Window(core, name).Ok? && ReadStart(core.endianness, core.layout[name]) == Intra(core.layout[name])
    ensures RereadIs(core, name, value)
  {
    var l, after := core.layout[name], WriteRegister(core, name, value).value;
    var read := ReadRegister(after, name).value;
    forall j: nat ensures Bit(read, j) == Bit(Low(value, l.width), j) {
      BitMod(value, l.width, j);
      ReadBit(after, name, j);
      if j < l.width { RereadBit(core, name, value, j); }
    }
    BitExt(read, Low(value, l.width));
  }

  lemma OtherStartLoses(core: Core, name: string) returns (value: nat)
    requires Window(core, name).Ok? && 0 < core.layout[name].width
    requires ReadStart(core.endianness, core.layout[name]) != Intra(core.layout[name])
    ensures !RereadIs(core, name, value)
  {
    var l := core.layout[name];
    var j := if ReadStart(core.endianness, l) > Intra(l) then l.width - 1 else 0;
    value := if ShownBit(core, l, j) then 0 else Pow2(j);
    RereadBit(core, name, value, j);
    BitMod(value, l.width, j);
    BitZero(j);
    BitPow2(j, j);
  }

  /** Every value written to a register is read back exactly when the core is little-endian, or the register lies in
      the middle of its chunk of one or two words. */
  lemma ReadsBackIff(core: Core, name: string)
    requires Window(core, name).Ok? && 0 < core.layout[name].width
    ensures ReadsBack(core, name) <==>
      var l := core.layout[name]; core.endianness.Little? || 2 * Intra(l) + l.width == 64 * ChunkWords(l)
  {
    if ReadStart(core.endianness, core.layout[name]) == Intra(core.layout[name]) {
      forall value: nat ensures RereadIs(core, name, value) { SameStartReadsBack(core, name, value); }
    } else {
      var value := OtherStartLoses(core, name);
    }
  }
}
