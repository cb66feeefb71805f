/** Bit slices of a core's memory, read and written in chunks of one or two 64-bit words
    (`src/soc/core/state.rs`, `src/soc/system/bus/data.rs`, `src/soc/device/endianness.rs`). */
module CoreStore {
  import opened Words
  import opened Results
  import opened Machine
  import opened Encoding
  import opened Decoding
  import opened CodecRoundTrip
  import opened RegisterFile

  datatype StoreError = OutOfRange | SliceExceedsWindow

  /** Where a slice lies: the first byte of its chunk, its first bit in the chunk, and the words of the chunk. */
  datatype Cursor = Cursor(base: nat, intra: nat, words: nat)

  /** `jump`, `transact` and `ensure_slice` for a slice at a bit offset of a memory of `size` bytes. */
  function Locate(size: nat, offset: nat, len: nat): (r: Result<Cursor, StoreError>)
    ensures r.Ok? ==> r.value.base + 8 * r.value.words <= size && r.value.intra + len <= 64 * r.value.words && 0 < r.value.words <= 2
  {
    var byte, span := offset / 8, (offset % 8 + len + 7) / 8;
    if byte >= size || byte + span > size then Err(OutOfRange)
    else
      var base, intra := offset / 64 * 8, offset % 64;
      if intra + len > 128 then Err(SliceExceedsWindow)
      else
        var words := if intra + len > 64 then 2 else 1;
        if base + 8 * words > size then Err(OutOfRange) else Ok(Cursor(base, intra, words))
  }

  /** `extract_target_bits`: a big-endian device counts the slice from the other end of the chunk. */
  function Extract(value: nat, endianness: Endianness, chunkBits: nat, intra: nat, len: nat): nat
    requires intra + len <= chunkBits
  {
    Low(Shr(value, ReadShift(endianness, chunkBits, intra, len)), len)
  }

  function ReadShift(endianness: Endianness, chunkBits: nat, intra: nat, len: nat): nat
    requires intra + len <= chunkBits
  {
    if endianness.Little? then intra else chunkBits - (intra + len)
  }

  /** `(current & !mask) | (value << intra)` in a chunk of so many bits. */
  function Replace(current: nat, chunkBits: nat, intra: nat, len: nat, value: nat): nat
    requires intra + len <= chunkBits
  {
    MaskInside(chunkBits, intra, len);
    Or(And(current, LowMask(chunkBits) - LowMask(len) * Pow2(intra)), Low(value, len) * Pow2(intra))
  }

  lemma MaskInside(chunkBits: nat, intra: nat, len: nat)
    requires intra + len <= chunkBits
    ensures LowMask(len) * Pow2(intra) <= LowMask(chunkBits)
  {
    Pow2Add(len, intra);
    Pow2Monotone(len + intra, chunkBits);
    MaskProduct(Pow2(len), Pow2(intra));
  }

  lemma MaskProduct(p: nat, q: nat)
    requires p > 0 && q > 0
    ensures (p - 1) * q <= p * q - 1
  {}

  function ChunkValue(memory: seq<Byte>, c: Cursor, endianness: Endianness): nat
    requires c.base + 8 * c.words <= |memory|
  {
    DecodeWord(memory[c.base..c.base + 8 * c.words], endianness)
  }

  /** `read_bits` */
  function ReadBitsAt(memory: seq<Byte>, endianness: Endianness, offset: nat, len: nat): Result<nat, StoreError> {
    if offset / 8 >= |memory| then Err(OutOfRange)
    else if len == 0 then Ok(0)
    else
      var c :- Locate(|memory|, offset, len);
      Ok(Extract(ChunkValue(memory, c, endianness), endianness, 64 * c.words, c.intra, len))
  }

  /** The value as the device orders its bytes, and back. */
  function ValueBits(value: nat, len: nat, endianness: Endianness): nat {
    Low(DecodeWord(WordBytes(Low(value, len), (len + 7) / 8, endianness), endianness), len)
  }

  /** `write_bits`: the write counts from the low end of the chunk in both byte orders. */
  function WriteBitsAt(memory: seq<Byte>, endianness: Endianness, offset: nat, len: nat, value: nat): Result<seq<Byte>, StoreError> {
    if offset / 8 >= |memory| then Err(OutOfRange)
    else if len == 0 then Ok(memory)
    else
      var c :- Locate(|memory|, offset, len);
      var n := 8 * c.words;
      var updated := Replace(ChunkValue(memory, c, endianness), 8 * n, c.intra, len, ValueBits(value, len, endianness));
      Ok(memory[..c.base] + WordBytes(updated, n, endianness) + memory[c.base + n..])
  }

  // ---- Bits of a chunk ----

  lemma MaskBit(intra: nat, len: nat, i: nat)
    ensures Bit(LowMask(len) * Pow2(intra), i) == (intra <= i < intra + len)
  {
    BitShl(LowMask(len), intra, i);
    if i >= intra { BitMask(len, i - intra); }
  }

  lemma PartBit(value: nat, intra: nat, len: nat, i: nat)
    ensures Bit(Low(value, len) * Pow2(intra), i) == (intra <= i < intra + len && Bit(value, i - intra))
  {
    BitShl(Low(value, len), intra, i);
    if i >= intra { BitMod(value, len, i - intra); }
  }

  lemma KeepBit(chunkBits: nat, intra: nat, len: nat, i: nat)
    requires intra + len <= chunkBits
    ensures LowMask(len) * Pow2(intra) <= LowMask(chunkBits)
    ensures Bit(LowMask(chunkBits) - LowMask(len) * Pow2(intra), i) == (i < chunkBits && !(intra <= i < intra + len))
  {
    MaskInside(chunkBits, intra, len);
    BitNot(chunkBits, LowMask(len) * Pow2(intra), i);
    MaskBit(intra, len, i);
  }

  lemma ReplaceBit(current: nat, chunkBits: nat, intra: nat, len: nat, value: nat, i: nat)
    requires intra + len <= chunkBits && current < Pow2(chunkBits)
    ensures Bit(Replace(current, chunkBits, intra, len, value), i) ==
            if intra <= i < intra + len then Bit(value, i - intra) else Bit(current, i)
  {
    KeepBit(chunkBits, intra, len, i);
    PartBit(value, intra, len, i);
    var keep, part := LowMask(chunkBits) - LowMask(len) * Pow2(intra), Low(value, len) * Pow2(intra);
    BitOr(And(current, keep), part, i);
    BitAnd(current, keep, i);
    HighBitsClear(current, chunkBits);
  }

  lemma ReplaceBound(current: nat, chunkBits: nat, intra: nat, len: nat, value: nat)
    requires intra + len <= chunkBits && current < Pow2(chunkBits)
    ensures Replace(current, chunkBits, intra, len, value) < Pow2(chunkBits)
  {
    var r := Replace(current, chunkBits, intra, len, value);
    HighBitsClear(current, chunkBits);
    forall i: nat | i >= chunkBits ensures !Bit(r, i) {
      ReplaceBit(current, chunkBits, intra, len, value, i);
    }
    HighBitsClearBelow(r, chunkBits);
  }

  lemma ExtractBit(value: nat, endianness: Endianness, chunkBits: nat, intra: nat, len: nat, j: nat)
    requires intra + len <= chunkBits
    ensures Bit(Extract(value, endianness, chunkBits, intra, len), j) ==
            (j < len && Bit(value, j + ReadShift(endianness, chunkBits, intra, len)))
  {
    var shift := ReadShift(endianness, chunkBits, intra, len);
    BitMod(Shr(value, shift), len, j);
    BitShr(value, shift, j);
  }

  /** Passing a value through the bytes of the device leaves its low bits. */
  lemma ValueSurvives(value: nat, len: nat, endianness: Endianness)
    ensures ValueBits(value, len, endianness) == Low(value, len)
  {
    var n := (len + 7) / 8;
    Pow2Monotone(len, 8 * n);
    WordOfBytes(Low(value, len), n, endianness);
    LowSmall(Low(value, len), len);
  }

  // ---- Whole memories ----

  /** A write replaces the slice in its chunk and keeps every other byte. */
  lemma WrittenChunk(memory: seq<Byte>, endianness: Endianness, offset: nat, len: nat, value: nat)
    requires len > 0 && WriteBitsAt(memory, endianness, offset, len, value).Ok?
    ensures Locate(|memory|, offset, len).Ok?
    ensures var c, after := Locate(|memory|, offset, len).value, WriteBitsAt(memory, endianness, offset, len, value).value;
      && |after| == |memory|
      && ChunkValue(after, c, endianness) == Replace(ChunkValue(memory, c, endianness), 64 * c.words, c.intra, len, value)
      && (forall k | 0 <= k < c.base || c.base + 8 * c.words <= k < |memory| :: after[k] == memory[k])
  {
    var c, after := Locate(|memory|, offset, len).value, WriteBitsAt(memory, endianness, offset, len, value).value;
    var n, current := 8 * c.words, ChunkValue(memory, c, endianness);
    ValueSurvives(value, len, endianness);
    ReplaceLow(current, 8 * n, c.intra, len, value);
    var updated := Replace(current, 8 * n, c.intra, len, value);
    Spliced(memory, c.base, WordBytes(updated, n, endianness), after);
    DecodeWordBound(memory[c.base..c.base + n], endianness);
    ReplaceBound(current, 8 * n, c.intra, len, value);
    WordOfBytes(updated, n, endianness);
  }

  lemma Spliced(memory: seq<Byte>, base: nat, chunk: seq<Byte>, after: seq<Byte>)
    requires base + |chunk| <= |memory| && after == memory[..base] + chunk + memory[base + |chunk|..]
    ensures |after| == |memory| && after[base..base + |chunk|] == chunk
    ensures forall k | 0 <= k < base || base + |chunk| <= k < |memory| :: after[k] == memory[k]
  {}

  lemma ReplaceLow(current: nat, chunkBits: nat, intra: nat, len: nat, value: nat)
    requires intra + len <= chunkBits
    ensures Replace(current, chunkBits, intra, len, Low(value, len)) == Replace(current, chunkBits, intra, len, value)
  {
    LowSmall(Low(value, len), len);
  }

  // ---- The memory as words ----

  /** The byte that holds bit p of the words of the memory. */
  function ByteOf(order: Endianness, p: nat): nat {
    if order.Little? then p / 8 else 8 * (p / 64) + 7 - p % 64 / 8
  }

  lemma ByteOfInside(order: Endianness, size: nat, p: nat)
    requires size % 8 == 0 && p < 8 * size
    ensures ByteOf(order, p) < size
  {
    var words := size / 8;
    assert size == 8 * words && p / 64 < words;
  }

  /** The bits of each 64-bit word, the lowest first. */
  function MemoryBits(memory: seq<Byte>, order: Endianness): (bits: seq<bool>)
    requires |memory| % 8 == 0
    ensures |bits| == 8 * |memory|
  {
    seq(8 * |memory|, p requires 0 <= p < 8 * |memory| => (ByteOfInside(order, |memory|, p); Bit(memory[ByteOf(order, p)], p % 8)))
  }

  lemma LowByteBit(b: Byte, rest: nat, i: nat)
    ensures Bit(b + 256 * rest, i) == if i < 8 then Bit(b, i) else Bit(rest, i - 8)
  {
    assert Pow2(8) == 256;
    QuotientUnique(b + 256 * rest, 256, rest, b);
    if i < 8 {
      BitMod(b + 256 * rest, 8, i);
    } else {
      BitShr(b + 256 * rest, 8, i - 8);
    }
  }

  /** The byte of a chunk that holds its bit i. */
  function ChunkByte(order: Endianness, n: nat, i: nat): nat
    requires i < 8 * n
  {
    if order.Little? then i / 8 else n - 1 - i / 8
  }

  lemma {:induction false} ChunkBit(bytes: seq<Byte>, order: Endianness, i: nat)
    requires i < 8 * |bytes|
    ensures Bit(DecodeWord(bytes, order), i) == Bit(bytes[ChunkByte(order, |bytes|, i)], i % 8)
    decreases |bytes|
  {
    var n := |bytes|;
    if order.Little? {
      LowByteBit(bytes[0], DecodeWord(bytes[1..], order), i);
      if i >= 8 {
        ChunkBit(bytes[1..], order, i - 8);
        EightLess(i);
        assert bytes[1..][i / 8 - 1] == bytes[i / 8];
      }
    } else {
      LowByteBit(bytes[n - 1], DecodeWord(bytes[..n - 1], order), i);
      if i >= 8 {
        ChunkBit(bytes[..n - 1], order, i - 8);
        EightLess(i);
        assert bytes[..n - 1][n - 1 - i / 8] == bytes[n - 1 - i / 8];
      }
    }
  }

  lemma EightLess(i: nat)
    requires i >= 8
    ensures (i - 8) / 8 == i / 8 - 1 && (i - 8) % 8 == i % 8
  {}

  /** The cursor is where the register's chunk lies. */
  predicate PlacedAt(c: Cursor, l: Layout) {
    8 * c.base == ChunkBase(l) && c.intra == Intra(l) && c.words == ChunkWords(l)
  }

  lemma ChunkFits(memory: seq<Byte>, c: Cursor, l: Layout, i: nat, order: Endianness)
    requires PlacedAt(c, l) && c.base + 8 * c.words <= |memory| && i < 64 * c.words
    ensures c.base % 8 == 0
    ensures ChunkBase(l) + Turn(order, l, i) < 8 * |memory|
    ensures ByteOf(order, ChunkBase(l) + Turn(order, l, i)) == c.base + ChunkByte(order, 8 * c.words, i)
    ensures (ChunkBase(l) + Turn(order, l, i)) % 8 == i % 8
  {
    BaseIsWord(l);
    assert ChunkBase(l) == 64 * (c.base / 8);
    TurnedByte(order, c.base / 8, ChunkWords(l), i, Turn(order, l, i));
  }

  lemma TurnedByte(order: Endianness, word: nat, words: nat, i: nat, turned: nat)
    requires 1 <= words <= 2 && i < 64 * words
    requires turned == if order.Big? && words == 2 then (if i < 64 then i + 64 else i - 64) else i
    ensures ByteOf(order, 64 * word + turned) == 8 * word + ChunkByte(order, 8 * words, i)
    ensures (64 * word + turned) % 8 == i % 8
  {
    if turned < 64 { ByteAt(order, word, turned); } else { ByteAt(order, word + 1, turned - 64); }
    if i >= 64 { SecondWord(i); }
    if turned >= 64 { SecondWord(turned); }
  }

  /** The byte of a position within its word. */
  lemma ByteAt(order: Endianness, word: nat, i: nat)
    requires i < 64
    ensures ByteOf(order, 64 * word + i) == 8 * word + (if order.Little? then i / 8 else 7 - i / 8)
    ensures (64 * word + i) % 8 == i % 8
  {
    WordOfPosition(word, i);
  }

  lemma SecondWord(i: nat)
    requires i >= 64
    ensures i / 8 == 8 + (i - 64) / 8 && i % 8 == (i - 64) % 8
  {}

  lemma WordOfPosition(word: nat, i: nat)
    requires i < 64
    ensures (64 * word + i) / 64 == word && (64 * word + i) % 64 == i
    ensures (64 * word + i) / 8 == 8 * word + i / 8 && (64 * word + i) % 8 == i % 8
  {}

  lemma MemoryBitsAt(memory: seq<Byte>, order: Endianness, p: nat)
    requires |memory| % 8 == 0 && p < 8 * |memory|
    ensures ByteOf(order, p) < |memory| && MemoryBits(memory, order)[p] == Bit(memory[ByteOf(order, p)], p % 8)
  {
    ByteOfInside(order, |memory|, p);
  }

  lemma ChunkBitAt(memory: seq<Byte>, order: Endianness, base: nat, n: nat, i: nat)
    requires base + n <= |memory| && i < 8 * n
    ensures ChunkByte(order, n, i) < n
    ensures Bit(DecodeWord(memory[base..base + n], order), i) == Bit(memory[base + ChunkByte(order, n, i)], i % 8)
  {
    ChunkBit(memory[base..base + n], order, i);
  }

  /** The byte found through the words and the byte found in the chunk are one. */
  lemma SameByte(memory: seq<Byte>, byte: nat, other: nat, bit: nat, same: nat)
    requires byte == other < |memory| && bit == same
    ensures Bit(memory[byte], bit) == Bit(memory[other], same)
  {}

  /** Bit i of a chunk is a bit of the memory's words. */
  lemma MemoryBit(memory: seq<Byte>, order: Endianness, c: Cursor, l: Layout, i: nat)
    requires |memory| % 8 == 0 && PlacedAt(c, l) && c.base + 8 * c.words <= |memory| && i < 64 * c.words
    ensures ChunkBase(l) + Turn(order, l, i) < 8 * |memory|
    ensures MemoryBits(memory, order)[ChunkBase(l) + Turn(order, l, i)] == Bit(ChunkValue(memory, c, order), i)
  {
    ChunkFits(memory, c, l, i, order);
    MemoryBitFound(memory, order, c.base, 8 * c.words, ChunkBase(l) + Turn(order, l, i), i);
  }

  lemma MemoryBitFound(memory: seq<Byte>, order: Endianness, base: nat, n: nat, p: nat, i: nat)
    requires |memory| % 8 == 0 && base + n <= |memory| && i < 8 * n && p < 8 * |memory|
    requires ByteOf(order, p) == base + ChunkByte(order, n, i) && p % 8 == i % 8
    ensures MemoryBits(memory, order)[p] == Bit(DecodeWord(memory[base..base + n], order), i)
  {
    ChunkBitAt(memory, order, base, n, i);
    MemoryBitsAt(memory, order, p);
    SameByte(memory, ByteOf(order, p), base + ChunkByte(order, n, i), p % 8, i % 8);
  }

  lemma LocateIff(size: nat, l: Layout)
    requires l.width > 0 && size % 8 == 0
    ensures Locate(size, l.offset, l.width).Ok? <==> Reaches(8 * size, l)
    ensures Locate(size, l.offset, l.width).Ok? ==> PlacedAt(Locate(size, l.offset, l.width).value, l)
  {
    SpanBytes(l.offset, l.width);
    WordBase(l.offset);
    if Reaches(8 * size, l) { WordsFit(size / 8, l.offset, l.width, ChunkWords(l)); }
  }

  lemma SpanBytes(offset: nat, len: nat)
    ensures forall size: nat :: offset / 8 + (offset % 8 + len + 7) / 8 <= size <==> offset + len <= 8 * size
  {}

  lemma WordBase(offset: nat)
    ensures 8 * (offset / 64 * 8) == offset - offset % 64
  {}

  lemma WordsFit(sizeWords: nat, offset: nat, len: nat, words: nat)
    requires len > 0 && offset - offset % 64 + 64 * words <= 64 * sizeWords && offset % 64 + len <= 64 * words
    ensures offset + len <= 64 * sizeWords
    ensures offset / 64 * 8 + 8 * words <= 8 * sizeWords
  {}

  // ---- Reading and writing registers ----

  /** The memory holds the bits of the core. */
  predicate Holds(memory: seq<Byte>, core: Core) {
    |memory| % 8 == 0 && MemoryBits(memory, core.endianness) == core.bits
  }

  lemma ReadRefined(memory: seq<Byte>, core: Core, name: string)
    requires Holds(memory, core) && name in core.layout && core.layout[name].width <= 65535
    ensures var l, read := core.layout[name], ReadRegister(core, name);
      var direct := ReadBitsAt(memory, core.endianness, l.offset, l.width);
      (read.Ok? <==> direct.Ok?) && (read.Ok? ==> direct.value == read.value)
  {
    var l := core.layout[name];
    if l.width > 0 {
      LocateIff(|memory|, l);
      if Reaches(|core.bits|, l) { ReadWindow(memory, core, name, Locate(|memory|, l.offset, l.width).value); }
    }
  }

  lemma ReadWindowBit(memory: seq<Byte>, core: Core, l: Layout, c: Cursor, j: nat)
    requires Holds(memory, core) && Reaches(|core.bits|, l) && PlacedAt(c, l)
    requires c.base + 8 * c.words <= |memory| && c.intra + l.width <= 64 * c.words
    ensures Bit(Extract(ChunkValue(memory, c, core.endianness), core.endianness, 64 * c.words, c.intra, l.width), j)
            == (j < l.width && ShownBit(core, l, j))
  {
    var order := core.endianness;
    ExtractBit(ChunkValue(memory, c, order), order, 64 * c.words, c.intra, l.width, j);
    if j < l.width {
      MemoryBit(memory, order, c, l, ReadStart(order, l) + j);
      ShownIs(core, l, j, ShownPlace(order, l, j));
    }
  }

  lemma ReadWindow(memory: seq<Byte>, core: Core, name: string, c: Cursor)
    requires Holds(memory, core) && Window(core, name).Ok? && PlacedAt(c, core.layout[name])
    requires c.base + 8 * c.words <= |memory| && c.intra + core.layout[name].width <= 64 * c.words
    ensures Extract(ChunkValue(memory, c, core.endianness), core.endianness, 64 * c.words, c.intra, core.layout[name].width)
            == ReadRegister(core, name).value
  {
    var l, order := core.layout[name], core.endianness;
    var direct := Extract(ChunkValue(memory, c, order), order, 64 * c.words, c.intra, l.width);
    forall j: nat ensures Bit(direct, j) == Bit(ReadRegister(core, name).value, j) {
      ReadWindowBit(memory, core, l, c, j);
      ReadBit(core, name, j);
    }
    BitExt(direct, ReadRegister(core, name).value);
  }

  /** Only the slice of the chunk has changed. */
  ghost predicate Rewritten(memory: seq<Byte>, after: seq<Byte>, order: Endianness, c: Cursor, len: nat, value: nat)
    requires c.base + 8 * c.words <= |memory| && c.intra + len <= 64 * c.words
  {
    && |after| == |memory|
    && ChunkValue(after, c, order) == Replace(ChunkValue(memory, c, order), 64 * c.words, c.intra, len, value)
    && (forall k | 0 <= k < c.base || c.base + 8 * c.words <= k < |memory| :: after[k] == memory[k])
  }

  lemma InsideBit(memory: seq<Byte>, after: seq<Byte>, order: Endianness, c: Cursor, l: Layout, value: nat, i: nat)
    requires |memory| % 8 == 0 && PlacedAt(c, l) && c.base + 8 * c.words <= |memory| && c.intra + l.width <= 64 * c.words
    requires Rewritten(memory, after, order, c, l.width, value) && i < 64 * c.words
    ensures var p := ChunkBase(l) + Turn(order, l, i);
      p < 8 * |memory| &&
      MemoryBits(after, order)[p] == if c.intra <= i < c.intra + l.width then Bit(value, i - c.intra) else MemoryBits(memory, order)[p]
  {
    MemoryBit(memory, order, c, l, i);
    MemoryBit(after, order, c, l, i);
    DecodeWordBound(memory[c.base..c.base + 8 * c.words], order);
    ReplaceBit(ChunkValue(memory, c, order), 64 * c.words, c.intra, l.width, value, i);
  }

  /** Words outside the chunk are as they were. */
  lemma OutsideBit(memory: seq<Byte>, after: seq<Byte>, order: Endianness, word: nat, words: nat, p: nat)
    requires |memory| % 8 == 0 && |after| == |memory| && 8 * (word + words) <= |memory| && p < 8 * |memory|
    requires !(64 * word <= p < 64 * (word + words))
    requires forall k | 0 <= k < 8 * word || 8 * (word + words) <= k < |memory| :: after[k] == memory[k]
    ensures MemoryBits(after, order)[p] == MemoryBits(memory, order)[p]
  {
    OtherByte(order, word, words, p);
    ByteOfInside(order, |memory|, p);
    assert after[ByteOf(order, p)] == memory[ByteOf(order, p)];
  }

  lemma OtherByte(order: Endianness, word: nat, words: nat, p: nat)
    requires !(64 * word <= p < 64 * (word + words))
    ensures ByteOf(order, p) < 8 * word || 8 * (word + words) <= ByteOf(order, p)
  {
    OtherByteAt(order, p / 64, p % 64, word, words);
    assert p == 64 * (p / 64) + p % 64;
  }

  lemma OtherByteAt(order: Endianness, q: nat, i: nat, word: nat, words: nat)
    requires i < 64 && !(64 * word <= 64 * q + i < 64 * (word + words))
    ensures ByteOf(order, 64 * q + i) < 8 * word || 8 * (word + words) <= ByteOf(order, 64 * q + i)
  {
    ByteAt(order, q, i);
    assert q < word || word + words <= q;
  }

  lemma StoredInside(core: Core, l: Layout, value: nat, p: nat, i: nat)
    requires p < |core.bits| && ChunkBase(l) <= p < ChunkBase(l) + 64 * ChunkWords(l) && i == Turn(core.endianness, l, p - ChunkBase(l))
    ensures StoredBit(core, l, value, p) == if Intra(l) <= i < Intra(l) + l.width then Bit(value, i - Intra(l)) else core.bits[p]
  {}

  lemma InsideStored(memory: seq<Byte>, after: seq<Byte>, core: Core, l: Layout, c: Cursor, value: nat, p: nat)
    requires Holds(memory, core) && PlacedAt(c, l) && c.base + 8 * c.words <= |memory| && c.intra + l.width <= 64 * c.words
    requires Rewritten(memory, after, core.endianness, c, l.width, value)
    requires ChunkBase(l) <= p < ChunkBase(l) + 64 * ChunkWords(l) && p < 8 * |memory|
    ensures MemoryBits(after, core.endianness)[p] == StoredBit(core, l, value, p)
  {
    var i := Turn(core.endianness, l, p - ChunkBase(l));
    TurnTwice(core.endianness, l, p - ChunkBase(l));
    assert ChunkBase(l) + Turn(core.endianness, l, i) == p;
    InsideBit(memory, after, core.endianness, c, l, value, i);
    StoredInside(core, l, value, p, i);
  }

  lemma OutsideStored(memory: seq<Byte>, after: seq<Byte>, core: Core, l: Layout, c: Cursor, value: nat, p: nat)
    requires Holds(memory, core) && PlacedAt(c, l) && c.base + 8 * c.words <= |memory| && c.intra + l.width <= 64 * c.words
    requires Rewritten(memory, after, core.endianness, c, l.width, value)
    requires !(ChunkBase(l) <= p < ChunkBase(l) + 64 * ChunkWords(l)) && p < 8 * |memory|
    ensures MemoryBits(after, core.endianness)[p] == StoredBit(core, l, value, p)
  {
    BaseIsWord(l);
    var word := ChunkBase(l) / 64;
    assert ChunkBase(l) == 64 * word && c.base == 8 * word;
    OutsideBit(memory, after, core.endianness, word, c.words, p);
  }

  lemma WrittenBit(memory: seq<Byte>, after: seq<Byte>, core: Core, l: Layout, c: Cursor, value: nat, p: nat)
    requires Holds(memory, core) && PlacedAt(c, l) && c.base + 8 * c.words <= |memory| && c.intra + l.width <= 64 * c.words
    requires Rewritten(memory, after, core.endianness, c, l.width, value) && p < 8 * |memory|
    ensures MemoryBits(after, core.endianness)[p] == StoredBit(core, l, value, p)
  {
    if ChunkBase(l) <= p < ChunkBase(l) + 64 * ChunkWords(l) {
      InsideStored(memory, after, core, l, c, value, p);
    } else {
      OutsideStored(memory, after, core, l, c, value, p);
    }
  }

  lemma WriteWindow(memory: seq<Byte>, after: seq<Byte>, core: Core, name: string, c: Cursor, value: nat)
    requires Holds(memory, core) && Window(core, name).Ok? && PlacedAt(c, core.layout[name])
    requires c.base + 8 * c.words <= |memory| && c.intra + core.layout[name].width <= 64 * c.words
    requires Rewritten(memory, after, core.endianness, c, core.layout[name].width, value)
    ensures Holds(after, WriteRegister(core, name, value).value)
  {
    var written := WriteRegister(core, name, value).value;
    forall p | 0 <= p < 8 * |memory| ensures MemoryBits(after, core.endianness)[p] == written.bits[p] {
      WrittenBit(memory, after, core, core.layout[name], c, value, p);
      WriteBit(core, name, value, p);
    }
  }

  lemma NothingWritten(core: Core, name: string, value: nat)
    requires Window(core, name).Ok? && core.layout[name].width == 0
    ensures WriteRegister(core, name, value) == Ok(core)
  {
    var written := WriteRegister(core, name, value).value;
    forall p | 0 <= p < |core.bits| ensures written.bits[p] == core.bits[p] { WriteBit(core, name, value, p); }
    assert written.bits == core.bits;
  }

  lemma WriteRefined(memory: seq<Byte>, core: Core, name: string, value: nat)
    requires Holds(memory, core) && name in core.layout && core.layout[name].width <= 65535
    ensures var l, written := core.layout[name], WriteRegister(core, name, value);
      var stored := WriteBitsAt(memory, core.endianness, l.offset, l.width, value);
      (written.Ok? <==> stored.Ok?) && (written.Ok? ==> Holds(stored.value, written.value))
  {
    var l := core.layout[name];
    if l.width == 0 {
      if Window(core, name).Ok? { NothingWritten(core, name, value); }
    } else {
      LocateIff(|memory|, l);
      if Reaches(|core.bits|, l) {
        WrittenChunk(memory, core.endianness, l.offset, l.width, value);
        WriteWindow(memory, WriteBitsAt(memory, core.endianness, l.offset, l.width, value).value, core, name,
                    Locate(|memory|, l.offset, l.width).value, value);
      }
    }
  }

  /** Reading and writing registers through the data handle is what the register file says, in both byte orders: the
      same values, the same failures to reach a register, the same memory afterwards. */
  lemma RegisterFileRefined(memory: seq<Byte>, core: Core, name: string, value: nat)
    requires Holds(memory, core) && name in core.layout && core.layout[name].width <= 65535
    ensures var l, read, written := core.layout[name], ReadRegister(core, name), WriteRegister(core, name, value);
      var direct, stored := ReadBitsAt(memory, core.endianness, l.offset, l.width),
                            WriteBitsAt(memory, core.endianness, l.offset, l.width, value);
      && (read.Ok? <==> direct.Ok?) && (read.Ok? ==> direct.value == read.value)
      && (written.Ok? <==> stored.Ok?) && (written.Ok? ==> Holds(stored.value, written.value))
  {
    ReadRefined(memory, core, name);
    WriteRefined(memory, core, name, value);
  }

  // ---- Two slices of one memory ----

  /** Writing the one slice never changes what the other one reads. */
  ghost predicate SliceIsolated(memory: seq<Byte>, order: Endianness, a: Layout, b: Layout) {
    forall value: nat :: SliceKeptBy(memory, order, a, b, value)
  }

  predicate SliceKeptBy(memory: seq<Byte>, order: Endianness, a: Layout, b: Layout, value: nat) {
    var after := WriteBitsAt(memory, order, a.offset, a.width, value);
    after.Ok? ==> ReadBitsAt(after.value, order, b.offset, b.width) == ReadBitsAt(memory, order, b.offset, b.width)
  }

  function TwoSlices(memory: seq<Byte>, order: Endianness, a: Layout, b: Layout): Core
    requires |memory| % 8 == 0
  {
    Core(map["a" := a, "b" := b], order, MemoryBits(memory, order))
  }

  lemma SliceKeptIff(memory: seq<Byte>, order: Endianness, a: Layout, b: Layout, value: nat)
    requires |memory| % 8 == 0 && a.width <= 65535 && b.width <= 65535
    requires Reaches(8 * |memory|, a) && Reaches(8 * |memory|, b)
    ensures SliceKeptBy(memory, order, a, b, value) <==> KeptBy(TwoSlices(memory, order, a, b), "a", "b", value)
  {
    var core := TwoSlices(memory, order, a, b);
    RegisterFileRefined(memory, core, "a", value);
    ReadRefined(memory, core, "b");
    var stored, written := WriteBitsAt(memory, order, a.offset, a.width, value).value, WriteRegister(core, "a", value).value;
    ReadRefined(stored, written, "b");
  }

  /** Of two reachable slices of a memory, writing one keeps the other exactly when they do not disturb each other in
      the byte order of the memory. */
  lemma SliceKeepsIff(memory: seq<Byte>, order: Endianness, a: Layout, b: Layout)
    requires |memory| % 8 == 0 && a.width <= 65535 && b.width <= 65535
    requires Reaches(8 * |memory|, a) && Reaches(8 * |memory|, b)
    ensures SliceIsolated(memory, order, a, b) <==> !Disturbs(order, a, b)
  {
    var core := TwoSlices(memory, order, a, b);
    forall value: nat ensures SliceKeptBy(memory, order, a, b, value) <==> KeptBy(core, "a", "b", value) {
      SliceKeptIff(memory, order, a, b, value);
    }
    WriteKeepsIff(core, "a", "b");
  }

  /** Every value written to the slice is read back from the memory it is written to. */
  ghost predicate MemoryReadsBack(memory: seq<Byte>, order: Endianness, l: Layout) {
    forall value: nat :: SliceRereadIs(memory, order, l, value)
  }

  predicate SliceRereadIs(memory: seq<Byte>, order: Endianness, l: Layout, value: nat) {
    var after := WriteBitsAt(memory, order, l.offset, l.width, value);
    after.Ok? ==> ReadBitsAt(after.value, order, l.offset, l.width) == Ok(Low(value, l.width))
  }

  /** A slice is read the way it is written exactly when the memory is little-endian or the slice lies in the middle
      of its chunk of one or two words. */
  lemma MemoryReadsBackIff(memory: seq<Byte>, order: Endianness, l: Layout)
    requires |memory| % 8 == 0 && 0 < l.width <= 65535 && Reaches(8 * |memory|, l)
    ensures MemoryReadsBack(memory, order, l) <==> order.Little? || 2 * Intra(l) + l.width == 64 * ChunkWords(l)
  {
    var core := TwoSlices(memory, order, l, l);
    forall value: nat ensures SliceRereadIs(memory, order, l, value) <==> RereadIs(core, "a", value) {
      RegisterFileRefined(memory, core, "a", value);
      ReadRefined(WriteBitsAt(memory, order, l.offset, l.width, value).value, WriteRegister(core, "a", value).value, "a");
    }
    ReadsBackIff(core, "a");
  }
}
