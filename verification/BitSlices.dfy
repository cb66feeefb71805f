/** Bit slices of `obsolete/dotnet/programs/types/BitSlice.cs`: a value is scattered over
    the slices of a word, last slice first, and gathered again, first slice first. Slices
    may overlap and pads may be mixed in; the laws say what each of these costs. */
module BitSlices {
  import opened Words
  import opened Results

  datatype BitSlice = BitSlice(mask: U64, size: nat, shift: nat)

  predicate IsPad(s: BitSlice) {
    s.mask == 0
  }

  /** The shift operators of C# take the count of a 64-bit shift modulo 64. */
  function ShiftLeft(x: U64, count: nat): U64 {
    Shl64(x, count % 64)
  }

  function ShiftRight(x: U64, count: nat): (r: U64) {
    ShrBelow(x, count % 64);
    Shr(x, count % 64)
  }

  lemma ShrBelow(x: U64, k: nat)
    ensures IsU64(Shr(x, k))
  {
    WordBits(x);
    forall i: nat | i >= 64 ensures !Bit(Shr(x, k), i) { BitShr(x, k, i); }
    BitsWithinWord(Shr(x, k));
  }

  function AndWord(a: U64, b: U64): U64 {
    AndIsU64(a, b);
    And(a, b)
  }

  function OrWord(a: U64, b: U64): U64 {
    OrIsU64(a, b);
    Or(a, b)
  }

  // ---- One slice ----

  function ReadSlice(s: BitSlice, source: U64): U64 {
    ShiftRight(AndWord(source, s.mask), s.shift)
  }

  function AppendTo(s: BitSlice, source: U64, start: U64): U64 {
    OrWord(ShiftLeft(start, s.size), ReadSlice(s, source))
  }

  /** The part cut off the low end of `source` for the slice; the caller keeps
      `ShiftRight(source, s.size)`. */
  function Cut(s: BitSlice, source: U64): U64 {
    AndWord(source, ShiftRight(s.mask, s.shift))
  }

  function WriteSlice(s: BitSlice, target: U64, part: U64): U64 {
    OrWord(AndWord(target, Not64(s.mask)), AndWord(ShiftLeft(part, s.shift), s.mask))
  }

  // ---- The folds over a construct ----

  function Gather(slices: seq<BitSlice>, source: U64): U64 {
    if slices == [] then 0
    else AppendTo(slices[|slices| - 1], source, Gather(slices[..|slices| - 1], source))
  }

  function Scatter(slices: seq<BitSlice>, target: U64, value: U64): U64
    decreases |slices|
  {
    if slices == [] then target
    else
      var s := slices[|slices| - 1];
      Scatter(slices[..|slices| - 1], WriteSlice(s, target, Cut(s, value)), ShiftRight(value, s.size))
  }

  function TotalSize(slices: seq<BitSlice>): nat {
    if slices == [] then 0 else TotalSize(slices[..|slices| - 1]) + slices[|slices| - 1].size
  }

  // ---- Well-formed constructs ----

  /** A run of container bits, or a pad. */
  predicate WellFormed(s: BitSlice) {
    s.size <= 64
    && (IsPad(s) || (s.size >= 1 && s.shift + s.size <= 64 && s.mask == Shl64(LowMask(s.size), s.shift)))
  }

  predicate AllWellFormed(slices: seq<BitSlice>) {
    forall k | 0 <= k < |slices| :: WellFormed(slices[k])
  }

  predicate NoPads(slices: seq<BitSlice>) {
    forall k | 0 <= k < |slices| :: IsPad(slices[k]) ==> slices[k].size == 0
  }

  predicate DisjointMasks(slices: seq<BitSlice>) {
    forall j, k | 0 <= j < k < |slices| :: And(slices[j].mask, slices[k].mask) == 0
  }

  predicate Covers(s: BitSlice, i: nat) {
    !IsPad(s) && s.shift <= i < s.shift + s.size
  }

  /** The container bit that bit q of a gathered value shows. */
  function ShownAt(slices: seq<BitSlice>, q: nat): Option<nat> {
    if slices == [] then None
    else
      var s := slices[|slices| - 1];
      if q >= s.size then ShownAt(slices[..|slices| - 1], q - s.size)
      else if IsPad(s) then None else Some(s.shift + q)
  }

  /** The bit of a scattered value that ends up in container bit i. */
  function StoredFrom(slices: seq<BitSlice>, i: nat): Option<nat> {
    if slices == [] then None
    else
      var s := slices[|slices| - 1];
      var earlier := StoredFrom(slices[..|slices| - 1], i);
      if earlier.Some? then Some(earlier.value + s.size)
      else if Covers(s, i) then Some(i - s.shift) else None
  }

  // ---- Bits of one slice ----

  lemma MaskBit(s: BitSlice, i: nat)
    requires WellFormed(s)
    ensures Bit(s.mask, i) == Covers(s, i)
  {
    if IsPad(s) {
      BitZero(i);
    } else {
      BitShl64(LowMask(s.size), s.shift, i);
      if s.shift <= i { BitMask(s.size, i - s.shift); }
    }
  }

  lemma ShiftLeftBit(x: U64, size: nat, q: nat)
    requires size <= 64
    ensures var k := if size == 64 then 0 else size;
      Bit(ShiftLeft(x, size), q) == (k <= q < 64 && Bit(x, q - k))
  {
    BitShl64(x, size % 64, q);
  }

  lemma ShiftRightBit(x: U64, size: nat, q: nat)
    requires size < 64
    ensures Bit(ShiftRight(x, size), q) == Bit(x, q + size)
  {
    BitShr(x, size, q);
  }

  lemma ReadSliceBit(s: BitSlice, source: U64, q: nat)
    requires WellFormed(s)
    ensures Bit(ReadSlice(s, source), q) == (!IsPad(s) && q < s.size && Bit(source, s.shift + q))
  {
    if IsPad(s) {
      PadReads(s, source, q);
    } else {
      ShiftRightBit(AndWord(source, s.mask), s.shift, q);
      BitAnd(source, s.mask, q + s.shift);
      MaskBit(s, q + s.shift);
    }
  }

  lemma PadReads(s: BitSlice, source: U64, q: nat)
    requires IsPad(s)
    ensures !Bit(ReadSlice(s, source), q) && !Bit(Cut(s, source), q)
  {
    var k := s.shift % 64;
    BitShr(And(source, 0), k, q);
    BitZero(q + k);
    BitShr(0, k, q);
    BitAnd(source, 0, q + k);
    BitAnd(source, Shr(0, k), q);
  }

  lemma CutBit(s: BitSlice, value: U64, q: nat)
    requires WellFormed(s)
    ensures Bit(Cut(s, value), q) == (!IsPad(s) && q < s.size && Bit(value, q))
  {
    if IsPad(s) {
      PadReads(s, value, q);
    } else {
      BitAnd(value, ShiftRight(s.mask, s.shift), q);
      ShiftRightBit(s.mask, s.shift, q);
      MaskBit(s, q + s.shift);
    }
  }

  lemma WriteSliceBit(s: BitSlice, target: U64, part: U64, i: nat)
    requires WellFormed(s)
    ensures Bit(WriteSlice(s, target, part), i) == if Covers(s, i) then Bit(part, i - s.shift) else Bit(target, i)
  {
    BitOr(AndWord(target, Not64(s.mask)), AndWord(ShiftLeft(part, s.shift), s.mask), i);
    BitAnd(target, Not64(s.mask), i);
    BitNot64(s.mask, i);
    BitAnd(ShiftLeft(part, s.shift), s.mask, i);
    MaskBit(s, i);
    WordBits(target);
    if Covers(s, i) { ShiftLeftBit(part, s.shift, i); }
  }

  lemma Peel(slices: seq<BitSlice>)
    requires AllWellFormed(slices) && slices != []
    ensures AllWellFormed(slices[..|slices| - 1]) && WellFormed(slices[|slices| - 1])
    ensures TotalSize(slices) == TotalSize(slices[..|slices| - 1]) + slices[|slices| - 1].size
  {}

  /** Nothing is shown past the total size, and what is shown is a container bit. */
  lemma {:induction false} ShownBelow(slices: seq<BitSlice>, q: nat)
    requires AllWellFormed(slices)
    ensures ShownAt(slices, q).Some? ==> q < TotalSize(slices) && ShownAt(slices, q).value < 64
    decreases |slices|
  {
    if slices != [] {
      Peel(slices);
      var s := slices[|slices| - 1];
      if q >= s.size { ShownBelow(slices[..|slices| - 1], q - s.size); }
    }
  }

  /** A stored bit is one that is shown. */
  lemma {:induction false} StoredIsShown(slices: seq<BitSlice>, i: nat)
    requires AllWellFormed(slices) && StoredFrom(slices, i).Some?
    ensures ShownAt(slices, StoredFrom(slices, i).value) == Some(i)
    decreases |slices|
  {
    Peel(slices);
    if StoredFrom(slices[..|slices| - 1], i).Some? { StoredIsShown(slices[..|slices| - 1], i); }
  }

  /** A shown bit is covered, so something is stored there. */
  lemma {:induction false} ShownIsStored(slices: seq<BitSlice>, q: nat)
    requires AllWellFormed(slices) && ShownAt(slices, q).Some?
    ensures StoredFrom(slices, ShownAt(slices, q).value).Some?
    decreases |slices|
  {
    Peel(slices);
    var s := slices[|slices| - 1];
    if q >= s.size { ShownIsStored(slices[..|slices| - 1], q - s.size); }
  }

  // ---- Bits of the folds ----

  ghost predicate GatheredBits(slices: seq<BitSlice>, source: U64) {
    forall q: nat :: Bit(Gather(slices, source), q)
      == (ShownAt(slices, q).Some? && Bit(source, ShownAt(slices, q).value))
  }

  lemma {:induction false} GatherBits(slices: seq<BitSlice>, source: U64)
    requires AllWellFormed(slices) && TotalSize(slices) <= 64
    ensures GatheredBits(slices, source)
    decreases |slices|
  {
    if slices == [] {
      forall q: nat ensures !Bit(0, q) { BitZero(q); }
    } else {
      Peel(slices);
      var s, init := slices[|slices| - 1], slices[..|slices| - 1];
      GatherBits(init, source);
      forall q: nat ensures Bit(Gather(slices, source), q)
        == (ShownAt(slices, q).Some? && Bit(source, ShownAt(slices, q).value))
      {
        AppendBit(s, init, source, q);
      }
    }
  }

  lemma AppendBit(s: BitSlice, init: seq<BitSlice>, source: U64, q: nat)
    requires WellFormed(s) && AllWellFormed(init) && TotalSize(init) + s.size <= 64
    requires GatheredBits(init, source)
    ensures Bit(AppendTo(s, source, Gather(init, source)), q)
      == if q >= s.size then ShownAt(init, q - s.size).Some? && Bit(source, ShownAt(init, q - s.size).value)
         else !IsPad(s) && Bit(source, s.shift + q)
  {
    var start := Gather(init, source);
    BitOr(ShiftLeft(start, s.size), ReadSlice(s, source), q);
    ReadSliceBit(s, source, q);
    StartBit(s, init, start, source, q);
  }

  /** Where the earlier slices' bits land when the next slice is appended. */
  lemma StartBit(s: BitSlice, init: seq<BitSlice>, start: U64, source: U64, q: nat)
    requires WellFormed(s) && AllWellFormed(init) && TotalSize(init) + s.size <= 64
    requires GatheredBits(init, source) && start == Gather(init, source)
    ensures Bit(ShiftLeft(start, s.size), q)
      == (q >= s.size && ShownAt(init, q - s.size).Some? && Bit(source, ShownAt(init, q - s.size).value))
  {
    ShiftLeftBit(start, s.size, q);
    if s.size == 64 {
      ShownBelow(init, q);
      assert Bit(start, q) ==> ShownAt(init, q).Some?;
      if q >= 64 { ShownBelow(init, q - 64); }
    } else if q >= s.size {
      var p := q - s.size;
      ShownBelow(init, p);
      assert Bit(start, p) == (ShownAt(init, p).Some? && Bit(source, ShownAt(init, p).value));
    }
  }

  ghost predicate ScatteredBits(slices: seq<BitSlice>, target: U64, value: U64) {
    forall i: nat :: Bit(Scatter(slices, target, value), i)
      == if StoredFrom(slices, i).Some? then Bit(value, StoredFrom(slices, i).value) else Bit(target, i)
  }

  lemma {:induction false} ScatterBits(slices: seq<BitSlice>, target: U64, value: U64)
    requires AllWellFormed(slices) && TotalSize(slices) <= 64
    ensures ScatteredBits(slices, target, value)
    decreases |slices|
  {
    if slices != [] {
      Peel(slices);
      var s, init := slices[|slices| - 1], slices[..|slices| - 1];
      var next, rest := WriteSlice(s, target, Cut(s, value)), ShiftRight(value, s.size);
      ScatterBits(init, next, rest);
      forall i: nat ensures Bit(Scatter(slices, target, value), i)
        == if StoredFrom(slices, i).Some? then Bit(value, StoredFrom(slices, i).value) else Bit(target, i)
      {
        WriteSliceBit(s, target, Cut(s, value), i);
        if Covers(s, i) { CutBit(s, value, i - s.shift); }
        if StoredFrom(init, i).Some? { RestBit(s, init, value, i); }
      }
    }
  }

  lemma RestBit(s: BitSlice, init: seq<BitSlice>, value: U64, i: nat)
    requires WellFormed(s) && AllWellFormed(init) && TotalSize(init) + s.size <= 64
    requires StoredFrom(init, i).Some?
    ensures Bit(ShiftRight(value, s.size), StoredFrom(init, i).value) == Bit(value, StoredFrom(init, i).value + s.size)
  {
    StoredIsShown(init, i);
    ShownBelow(init, StoredFrom(init, i).value);
    ShiftRightBit(value, s.size, StoredFrom(init, i).value);
  }

  // ---- Disjoint masks ----

  lemma DisjointMasksIff(a: BitSlice, b: BitSlice)
    requires WellFormed(a) && WellFormed(b)
    ensures And(a.mask, b.mask) == 0 <==> forall i: nat :: !(Covers(a, i) && Covers(b, i))
  {
    forall i: nat ensures Bit(And(a.mask, b.mask), i) == (Covers(a, i) && Covers(b, i)) {
      BitAnd(a.mask, b.mask, i);
      MaskBit(a, i);
      MaskBit(b, i);
    }
    if And(a.mask, b.mask) == 0 {
      forall i: nat ensures !(Covers(a, i) && Covers(b, i)) {
        BitZero(i);
        assert !Bit(And(a.mask, b.mask), i);
      }
    } else if forall i: nat :: !(Covers(a, i) && Covers(b, i)) {
      forall i: nat ensures Bit(And(a.mask, b.mask), i) == Bit(0, i) { BitZero(i); }
      BitExt(And(a.mask, b.mask), 0);
    }
  }

  /** The container bits a list of slices occupies. */
  function Occupied(slices: seq<BitSlice>): (r: set<nat>) {
    set i: nat | i < 64 && StoredFrom(slices, i).Some?
  }

  lemma {:induction false} StoredIffCovered(slices: seq<BitSlice>, i: nat)
    ensures StoredFrom(slices, i).Some? <==> exists k :: 0 <= k < |slices| && Covers(slices[k], i)
    decreases |slices|
  {
    if slices != [] {
      var init := slices[..|slices| - 1];
      StoredIffCovered(init, i);
      if StoredFrom(init, i).Some? {
        var k :| 0 <= k < |init| && Covers(init[k], i);
        assert Covers(slices[k], i);
      }
      if k :| 0 <= k < |slices| && Covers(slices[k], i) {
        assert k < |init| ==> init[k] == slices[k];
      }
    }
  }

  /** In a disjoint list the last slice meets none of the others. */
  lemma LastIsApart(slices: seq<BitSlice>, i: nat)
    requires AllWellFormed(slices) && DisjointMasks(slices) && slices != []
    requires Covers(slices[|slices| - 1], i)
    ensures StoredFrom(slices[..|slices| - 1], i).None?
  {
    var init := slices[..|slices| - 1];
    StoredIffCovered(init, i);
    if StoredFrom(init, i).Some? {
      var k :| 0 <= k < |init| && Covers(init[k], i);
      DisjointMasksIff(slices[k], slices[|slices| - 1]);
    }
  }

  /** In a disjoint list every shown bit is stored where it is shown. */
  lemma {:induction false} ShownOnce(slices: seq<BitSlice>, q: nat)
    requires AllWellFormed(slices) && DisjointMasks(slices) && ShownAt(slices, q).Some?
    ensures StoredFrom(slices, ShownAt(slices, q).value) == Some(q)
    decreases |slices|
  {
    Peel(slices);
    var s, init := slices[|slices| - 1], slices[..|slices| - 1];
    if q >= s.size {
      ShownOnce(init, q - s.size);
    } else {
      LastIsApart(slices, s.shift + q);
    }
  }

  function Run(shift: nat, size: nat): (r: set<nat>)
    ensures |r| == size && forall i: nat :: i in r <==> shift <= i < shift + size
  {
    if size == 0 then {} else Run(shift, size - 1) + {shift + size - 1}
  }

  lemma SubsetSize<T>(a: set<T>, b: set<T>)
    requires a <= b
    ensures |a| <= |b|
  {
    assert b == a + (b - a);
  }

  /** The bits the last slice adds. */
  function Added(s: BitSlice): set<nat> {
    if IsPad(s) then {} else Run(s.shift, s.size)
  }

  lemma LastAdds(slices: seq<BitSlice>)
    requires AllWellFormed(slices) && DisjointMasks(slices) && slices != []
    ensures Occupied(slices) == Occupied(slices[..|slices| - 1]) + Added(slices[|slices| - 1])
    ensures Occupied(slices[..|slices| - 1]) !! Added(slices[|slices| - 1])
  {
    var s, init := slices[|slices| - 1], slices[..|slices| - 1];
    forall i: nat | Covers(s, i) ensures StoredFrom(init, i).None? { LastIsApart(slices, i); }
    forall i: nat ensures StoredFrom(slices, i).Some? == (StoredFrom(init, i).Some? || Covers(s, i)) {}
    forall i: nat ensures i in Added(s) <==> Covers(s, i) {}
  }

  lemma {:induction false} TotalIsOccupied(slices: seq<BitSlice>)
    requires AllWellFormed(slices) && NoPads(slices) && DisjointMasks(slices)
    ensures |Occupied(slices)| == TotalSize(slices)
    decreases |slices|
  {
    if slices == [] {
      assert Occupied(slices) == {};
    } else {
      Peel(slices);
      LastAdds(slices);
      TotalIsOccupied(slices[..|slices| - 1]);
    }
  }

  /** Pad-free slices with disjoint masks never ask for more bits than a word has. */
  lemma DisjointFits(slices: seq<BitSlice>)
    requires AllWellFormed(slices) && NoPads(slices) && DisjointMasks(slices)
    ensures TotalSize(slices) <= 64
  {
    TotalIsOccupied(slices);
    SubsetSize(Occupied(slices), Run(0, 64));
  }

  lemma {:induction false} PadFreeShows(slices: seq<BitSlice>, q: nat)
    requires AllWellFormed(slices) && NoPads(slices) && q < TotalSize(slices)
    ensures ShownAt(slices, q).Some?
    decreases |slices|
  {
    Peel(slices);
    var s := slices[|slices| - 1];
    if q >= s.size { PadFreeShows(slices[..|slices| - 1], q - s.size); }
  }

  // ---- The laws ----

  /** Gathering what was scattered gives the value back, up to the bits there was room for. */
  lemma GatherOfScatter(slices: seq<BitSlice>, target: U64, value: U64)
    requires AllWellFormed(slices) && NoPads(slices) && DisjointMasks(slices)
    ensures Gather(slices, Scatter(slices, target, value)) == Low(value, TotalSize(slices))
  {
    DisjointFits(slices);
    var stored := Scatter(slices, target, value);
    GatherBits(slices, stored);
    ScatterBits(slices, target, value);
    forall q: nat ensures Bit(Gather(slices, stored), q) == Bit(Low(value, TotalSize(slices)), q) {
      BitMod(value, TotalSize(slices), q);
      ShownBelow(slices, q);
      if ShownAt(slices, q).Some? {
        ShownOnce(slices, q);
        assert Bit(stored, ShownAt(slices, q).value) == Bit(value, q);
      } else if q < TotalSize(slices) {
        PadFreeShows(slices, q);
      }
    }
    BitExt(Gather(slices, stored), Low(value, TotalSize(slices)));
  }

  /** Scattering changes no bit outside the masks, whatever the slices. */
  lemma ScatterKeepsRest(slices: seq<BitSlice>, target: U64, value: U64, i: nat)
    requires AllWellFormed(slices) && TotalSize(slices) <= 64
    requires forall k | 0 <= k < |slices| :: !Bit(slices[k].mask, i)
    ensures Bit(Scatter(slices, target, value), i) == Bit(target, i)
  {
    ScatterBits(slices, target, value);
    StoredIffCovered(slices, i);
    if StoredFrom(slices, i).Some? {
      var k :| 0 <= k < |slices| && Covers(slices[k], i);
      MaskBit(slices[k], i);
    }
  }

  /** Storing what is already there changes nothing, even when slices overlap or are pads. */
  lemma ScatterOfGather(slices: seq<BitSlice>, target: U64)
    requires AllWellFormed(slices) && TotalSize(slices) <= 64
    ensures Scatter(slices, target, Gather(slices, target)) == target
  {
    var value := Gather(slices, target);
    GatherBits(slices, target);
    ScatterBits(slices, target, value);
    forall i: nat ensures Bit(Scatter(slices, target, value), i) == Bit(target, i) {
      if StoredFrom(slices, i).Some? { StoredIsShown(slices, i); }
    }
    BitExt(Scatter(slices, target, value), target);
  }

  /** The last of two values scattered wins. */
  lemma ScatterTwice(slices: seq<BitSlice>, target: U64, first: U64, second: U64)
    requires AllWellFormed(slices) && TotalSize(slices) <= 64
    ensures Scatter(slices, Scatter(slices, target, first), second) == Scatter(slices, target, second)
  {
    var middle := Scatter(slices, target, first);
    ScatterBits(slices, target, first);
    ScatterBits(slices, middle, second);
    ScatterBits(slices, target, second);
    forall i: nat ensures Bit(Scatter(slices, middle, second), i) == Bit(Scatter(slices, target, second), i) {}
    BitExt(Scatter(slices, middle, second), Scatter(slices, target, second));
  }

  // ---- Exactly when nothing is lost ----

  ghost predicate Lossless(slices: seq<BitSlice>) {
    forall target: U64, value: U64 ::
      Gather(slices, Scatter(slices, target, value)) == Low(value, TotalSize(slices))
  }

  /** Two bits of the value that share a container bit cannot both come back. */
  lemma SharedBitLoses(slices: seq<BitSlice>, p: nat, q: nat)
    requires AllWellFormed(slices) && TotalSize(slices) <= 64
    requires p != q && ShownAt(slices, p).Some? && ShownAt(slices, p) == ShownAt(slices, q)
    ensures !Lossless(slices)
  {
    ShownBelow(slices, p);
    ShownBelow(slices, q);
    var value := Pow2(p);
    Pow2Within(p);
    var stored := Scatter(slices, 0, value);
    GatherBits(slices, stored);
    BitMod(value, TotalSize(slices), p);
    BitMod(value, TotalSize(slices), q);
    BitPow2(p, p);
    BitPow2(p, q);
    assert Bit(Gather(slices, stored), p) == Bit(Gather(slices, stored), q);
  }

  /** A bit of the value with no container bit behind it comes back as zero. */
  lemma PadBitLoses(slices: seq<BitSlice>, q: nat)
    requires AllWellFormed(slices) && TotalSize(slices) <= 64
    requires q < TotalSize(slices) && ShownAt(slices, q).None?
    ensures !Lossless(slices)
  {
    var value := Pow2(q);
    Pow2Within(q);
    var stored := Scatter(slices, 0, value);
    GatherBits(slices, stored);
    BitMod(value, TotalSize(slices), q);
    BitPow2(q, q);
    assert !Bit(Gather(slices, stored), q);
  }

  /** The bits of the value that slice k carries start here. */
  function BitsAfter(slices: seq<BitSlice>, k: nat): nat
    requires k < |slices|
  {
    if k == |slices| - 1 then 0 else BitsAfter(slices[..|slices| - 1], k) + slices[|slices| - 1].size
  }

  lemma {:induction false} ShownBySlice(slices: seq<BitSlice>, k: nat, j: nat)
    requires AllWellFormed(slices) && k < |slices| && j < slices[k].size
    ensures ShownAt(slices, BitsAfter(slices, k) + j) == if IsPad(slices[k]) then None else Some(slices[k].shift + j)
    ensures BitsAfter(slices, k) + j < TotalSize(slices)
    decreases |slices|
  {
    Peel(slices);
    if k < |slices| - 1 { ShownBySlice(slices[..|slices| - 1], k, j); }
  }

  lemma {:induction false} LaterSlicesLower(slices: seq<BitSlice>, j: nat, k: nat)
    requires j < k < |slices|
    ensures BitsAfter(slices, j) >= BitsAfter(slices, k) + slices[k].size
    decreases |slices|
  {
    if k < |slices| - 1 { LaterSlicesLower(slices[..|slices| - 1], j, k); }
  }

  lemma PadLoses(slices: seq<BitSlice>, k: nat)
    requires AllWellFormed(slices) && TotalSize(slices) <= 64
    requires k < |slices| && IsPad(slices[k]) && slices[k].size != 0
    ensures !Lossless(slices)
  {
    ShownBySlice(slices, k, 0);
    PadBitLoses(slices, BitsAfter(slices, k));
  }

  lemma OverlapLoses(slices: seq<BitSlice>, j: nat, k: nat, i: nat)
    requires AllWellFormed(slices) && TotalSize(slices) <= 64
    requires j < k < |slices| && Covers(slices[j], i) && Covers(slices[k], i)
    ensures !Lossless(slices)
  {
    ShownBySlice(slices, j, i - slices[j].shift);
    ShownBySlice(slices, k, i - slices[k].shift);
    LaterSlicesLower(slices, j, k);
    SharedBitLoses(slices, BitsAfter(slices, j) + (i - slices[j].shift), BitsAfter(slices, k) + (i - slices[k].shift));
  }

  lemma DisjointIsLossless(slices: seq<BitSlice>)
    requires AllWellFormed(slices) && NoPads(slices) && DisjointMasks(slices)
    ensures Lossless(slices)
  {
    forall target: U64, value: U64
      ensures Gather(slices, Scatter(slices, target, value)) == Low(value, TotalSize(slices))
    {
      GatherOfScatter(slices, target, value);
    }
  }

  /** A construct gives back every value exactly when it has no pads and no overlaps. */
  lemma LosslessIff(slices: seq<BitSlice>)
    requires AllWellFormed(slices) && TotalSize(slices) <= 64
    ensures Lossless(slices) <==> NoPads(slices) && DisjointMasks(slices)
  {
    if !NoPads(slices) {
      var k :| 0 <= k < |slices| && IsPad(slices[k]) && slices[k].size != 0;
      PadLoses(slices, k);
    } else if DisjointMasks(slices) {
      DisjointIsLossless(slices);
    } else {
      var j, k :| 0 <= j < k < |slices| && And(slices[j].mask, slices[k].mask) != 0;
      DisjointMasksIff(slices[j], slices[k]);
      var i: nat :| Covers(slices[j], i) && Covers(slices[k], i);
      OverlapLoses(slices, j, k, i);
    }
  }

  // ---- The class ----

  datatype SliceError = SizeExceedsClass | ShiftExceedsClass

  class BitConstruct {
    const classSize: nat
    var slices: seq<BitSlice>

    constructor (classSize: nat)
      ensures this.classSize == classSize && slices == []
    {
      this.classSize := classSize;
      slices := [];
    }

    method AddSlice(s: BitSlice) returns (r: Result<(), SliceError>)
      modifies this
      ensures r.Ok? <==> s.size <= classSize && s.shift < classSize
      ensures r.Err? ==> r.error == if s.size > classSize then SizeExceedsClass else ShiftExceedsClass
      ensures slices == if r.Ok? then old(slices) + [s] else old(slices)
    {
      if s.size > classSize { return Err(SizeExceedsClass); }
      if s.shift >= classSize { return Err(ShiftExceedsClass); }
      slices := slices + [s];
      return Ok(());
    }

    method ReadFrom(source: U64) returns (result: U64)
      ensures result == Gather(slices, source)
    {
      result := 0;
      for k := 0 to |slices|
        invariant result == Gather(slices[..k], source)
      {
        assert slices[..k + 1][..k] == slices[..k];
        result := AppendTo(slices[k], source, result);
      }
      assert slices[..|slices|] == slices;
    }

    /** Returns the word that the original computes and drops. */
    method WriteOver(target: U64, source: U64) returns (result: U64)
      ensures result == Scatter(slices, target, source)
    {
      result := target;
      var rest := source;
      assert slices[..|slices|] == slices;
      for k := |slices| downto 0
        invariant Scatter(slices[..k], result, rest) == Scatter(slices, target, source)
      {
        assert slices[..k + 1][..k] == slices[..k];
        var part := Cut(slices[k], rest);
        rest := ShiftRight(rest, slices[k].size);
        result := WriteSlice(slices[k], result, part);
      }
    }
  }
}
