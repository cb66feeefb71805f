/** The laws that make a bit field a well-behaved view of its container, and the loops
    of `bitfield.rs` proved against the recursive reading and writing functions. */
module BitFieldLaws {
  import opened Words
  import opened Results
  import opened BitFields

  // ---- Write then read ----

  lemma {:induction false} WrittenIsData(segments: seq<Segment>, container: nat, value: nat, out: nat, q: nat)
    requires ValidSegments(segments) && Disjoint(segments) && LiteralsAgree(segments, value)
    requires forall i: nat | Occupied(segments, i) :: Bit(out, i) == OutBit(segments, container, value, i)
    requires q < DataWidth(segments)
    ensures DataBit(segments, out, q) == Bit(value, q)
    decreases |segments|
  {
    var head, tail, below := segments[0], segments[1..], DataWidth(segments[1..]);
    assert ValidSegment(head);
    DisjointTail(segments);
    if q < below {
      forall i: nat | Occupied(tail, i) ensures Bit(out, i) == OutBit(tail, container, value, i) {
        WrittenIffOccupied(tail, value, i);
        WrittenIffOccupied(segments, value, i);
      }
      WrittenIsData(tail, container, value, out, q);
    } else if head.Slice? {
      var i := head.offset + (q - below);
      assert Covers(segments[0], i);
      WrittenIffOccupied(tail, value, i);
      assert !Occupied(tail, i);
    } else {
      assert Bit(value, below + (q - below)) == Bit(head.literal, q - below);
    }
  }

  lemma DisjointTail(segments: seq<Segment>)
    requires segments != [] && Disjoint(segments)
    ensures Disjoint(segments[1..])
  {
    var tail := segments[1..];
    forall k, l, i: nat | 0 <= k < l < |tail| && Covers(tail[k], i) ensures !Covers(tail[l], i) {
      assert Covers(segments[k + 1], i);
    }
  }

  /** Over disjoint slices, reading back a written value returns it, pad included. */
  lemma PutGet(spec: Spec, container: nat, value: nat)
    requires ValidSpec(spec) && Disjoint(spec.segments) && IsU64(container) && IsU64(value)
    requires WriteBits(spec, container, value).Ok?
    ensures ReadBits(spec, WriteBits(spec, container, value).value) == (value, TotalWidth(spec))
  {
    WriteAccepts(spec, container, value);
    WriteBitsBits(spec, container, value);
    var out := WriteBits(spec, container, value).value;
    ReadBitsBits(spec, out);
    DataWidthPositive(spec.segments);
    HighBitsClear(value, TotalWidth(spec));
    forall q: nat ensures Bit(ReadBits(spec, out).0, q) == Bit(value, q) {
      var data := DataWidth(spec.segments);
      WrittenIsData(spec.segments, container, value, out, data - 1);
      if q < data { WrittenIsData(spec.segments, container, value, out, q); }
    }
    BitExt(ReadBits(spec, out).0, value);
  }

  // ---- Read then write ----

  lemma {:induction false} ReadIsWritable(segments: seq<Segment>, bits: nat, value: nat)
    requires ValidSegments(segments)
    requires forall q: nat | q < DataWidth(segments) :: Bit(value, q) == DataBit(segments, bits, q)
    ensures LiteralsAgree(segments, value)
    ensures forall i: nat | Occupied(segments, i) :: WrittenBit(segments, value, i) == Some(Bit(bits, i))
    decreases |segments|
  {
    if segments != [] {
      var tail, below := segments[1..], DataWidth(segments[1..]);
      assert ValidSegment(segments[0]);
      forall q: nat | q < below ensures Bit(value, q) == DataBit(tail, bits, q) {
        assert Bit(value, q) == DataBit(segments, bits, q);
      }
      ReadIsWritable(tail, bits, value);
      if segments[0].Literal? {
        forall j: nat | j < segments[0].width ensures Bit(value, below + j) == Bit(segments[0].literal, j) {
          assert Bit(value, below + j) == DataBit(segments, bits, below + j);
        }
      }
      forall i: nat | Occupied(segments, i) ensures WrittenBit(segments, value, i) == Some(Bit(bits, i)) {
        WrittenIffOccupied(tail, value, i);
        WrittenIffOccupied(segments, value, i);
        if !Occupied(tail, i) {
          var q := below + (i - segments[0].offset);
          assert Bit(value, q) == DataBit(segments, bits, q);
        }
      }
    }
  }

  lemma ReadIsU64(spec: Spec, bits: nat)
    requires ValidSpec(spec)
    ensures ReadBits(spec, bits).0 < Pow2(TotalWidth(spec)) && IsU64(ReadBits(spec, bits).0)
  {
    ReadBitsBits(spec, bits);
    HighBitsClearBelow(ReadBits(spec, bits).0, TotalWidth(spec));
    Pow2Within(TotalWidth(spec));
  }

  /** Every value read is accepted. */
  lemma ReadAccepted(spec: Spec, bits: nat)
    requires ValidSpec(spec)
    ensures IsU64(ReadBits(spec, bits).0) && Accepts(spec, ReadBits(spec, bits).0)
  {
    var value := ReadBits(spec, bits).0;
    ReadIsU64(spec, bits);
    ReadBitsBits(spec, bits);
    DataWidthPositive(spec.segments);
    assert Bit(value, DataWidth(spec.segments) - 1) == FieldBit(spec, bits, DataWidth(spec.segments) - 1);
    ReadIsWritable(spec.segments, bits, value);
  }

  /** Writing back what was read leaves the container as it was; slices may overlap. */
  lemma GetPut(spec: Spec, container: nat)
    requires ValidSpec(spec) && IsU64(container)
    ensures IsU64(ReadBits(spec, container).0)
    ensures WriteBits(spec, container, ReadBits(spec, container).0) == Ok(container)
  {
    var value := ReadBits(spec, container).0;
    ReadAccepted(spec, container);
    ReadBitsBits(spec, container);
    WriteAccepts(spec, container, value);
    WriteBitsBits(spec, container, value);
    var out := WriteBits(spec, container, value).value;
    ReadIsWritable(spec.segments, container, value);
    forall i: nat ensures Bit(out, i) == Bit(container, i) {
      WrittenIffOccupied(spec.segments, value, i);
    }
    BitExt(out, container);
  }

  /** A later write hides an earlier one; slices may overlap. */
  lemma PutPut(spec: Spec, container: nat, first: nat, second: nat)
    requires ValidSpec(spec) && IsU64(container) && IsU64(first) && IsU64(second)
    requires WriteBits(spec, container, first).Ok?
    ensures IsU64(WriteBits(spec, container, first).value)
    ensures WriteBits(spec, WriteBits(spec, container, first).value, second) == WriteBits(spec, container, second)
  {
    WriteAccepts(spec, container, first);
    WriteBitsBits(spec, container, first);
    var once := WriteBits(spec, container, first).value;
    WriteAccepts(spec, once, second);
    WriteAccepts(spec, container, second);
    if Accepts(spec, second) {
      WriteBitsBits(spec, once, second);
      WriteBitsBits(spec, container, second);
      var twice, direct := WriteBits(spec, once, second).value, WriteBits(spec, container, second).value;
      forall i: nat ensures Bit(twice, i) == Bit(direct, i) {
        WrittenIffOccupied(spec.segments, first, i);
        WrittenIffOccupied(spec.segments, second, i);
      }
      BitExt(twice, direct);
    } else {
      RejectionIsStable(spec, once, container, second);
    }
  }

  /** The error of a rejected write does not depend on the container. */
  lemma RejectionIsStable(spec: Spec, a: nat, b: nat, value: nat)
    requires ValidSpec(spec) && IsU64(a) && IsU64(b) && IsU64(value) && !Accepts(spec, value)
    ensures WriteBits(spec, a, value) == WriteBits(spec, b, value)
  {
    WriteAccepts(spec, a, value);
    WriteAccepts(spec, b, value);
    DataWidthPositive(spec.segments);
    if CheckPad(spec, value).Ok? {
      SegmentErrorStable(spec.segments, a, b, CheckPad(spec, value).value);
    }
  }

  lemma {:induction false} SegmentErrorStable(segments: seq<Segment>, a: nat, b: nat, value: nat)
    requires ValidSegments(segments) && IsU64(a) && IsU64(b)
    ensures PutSegments(segments, a, value).Err? ==> PutSegments(segments, a, value) == PutSegments(segments, b, value)
    decreases |segments|
  {
    if segments != [] {
      assert ValidSegment(segments[0]);
      if segments[0].Slice? {
        var part := And(Shr(value, DataWidth(segments[1..])), MaskForWidth(segments[0].width));
        PutSliceIsU64(a, segments[0].offset, segments[0].mask, part);
        PutSliceIsU64(b, segments[0].offset, segments[0].mask, part);
        SegmentErrorStable(segments[1..], PutSlice(a, segments[0].offset, segments[0].mask, part),
                           PutSlice(b, segments[0].offset, segments[0].mask, part), value);
      } else {
        SegmentErrorStable(segments[1..], a, b, value);
      }
    }
  }

  /** A write changes no bit outside the field, and stays inside 64 bits. */
  lemma WriteFrame(spec: Spec, container: nat, value: nat)
    requires ValidSpec(spec) && IsU64(container) && IsU64(value) && WriteBits(spec, container, value).Ok?
    ensures IsU64(WriteBits(spec, container, value).value)
    ensures forall i: nat | !Occupied(spec.segments, i) :: Bit(WriteBits(spec, container, value).value, i) == Bit(container, i)
  {
    WriteAccepts(spec, container, value);
    WriteBitsBits(spec, container, value);
    forall i: nat | !Occupied(spec.segments, i) ensures Bit(WriteBits(spec, container, value).value, i) == Bit(container, i) {
      WrittenIffOccupied(spec.segments, value, i);
    }
  }

  // ---- Which values, which fields ----

  /** Over disjoint slices a write accepts exactly the values some container holds. */
  lemma AcceptedIffReadable(spec: Spec, container: nat, value: nat)
    requires ValidSpec(spec) && Disjoint(spec.segments) && IsU64(container) && IsU64(value)
    ensures WriteBits(spec, container, value).Ok? <==> exists c: nat | IsU64(c) :: ReadBits(spec, c).0 == value
  {
    WriteAccepts(spec, container, value);
    if Accepts(spec, value) {
      WriteBitsBits(spec, container, value);
      PutGet(spec, container, value);
    }
    if c: nat :| IsU64(c) && ReadBits(spec, c).0 == value {
      ReadAccepted(spec, c);
    }
  }

  ghost predicate WritesReadBack(spec: Spec)
    requires ValidSegments(spec.segments)
  {
    forall value: nat | IsU64(value) && WriteBits(spec, 0, value).Ok? ::
      ReadBits(spec, WriteBits(spec, 0, value).value).0 == value
  }

  /** Position of container bit i in the data, for the slice at index k. */
  function PositionOf(segments: seq<Segment>, k: nat, i: nat): nat
    requires k < |segments| && Covers(segments[k], i)
  {
    if k == 0 then DataWidth(segments[1..]) + (i - segments[0].offset)
    else PositionOf(segments[1..], k - 1, i)
  }

  lemma {:induction false} PositionReads(segments: seq<Segment>, k: nat, i: nat, bits: nat)
    requires ValidSegments(segments) && k < |segments| && Covers(segments[k], i)
    ensures PositionOf(segments, k, i) < DataWidth(segments)
    ensures DataWidth(segments[k + 1..]) <= PositionOf(segments, k, i) < DataWidth(segments[k..])
    ensures DataBit(segments, bits, PositionOf(segments, k, i)) == Bit(bits, i)
    decreases k
  {
    assert segments[0..] == segments;
    if k > 0 {
      PositionReads(segments[1..], k - 1, i, bits);
      assert segments[1..][k..] == segments[k + 1..] && segments[1..][k - 1..] == segments[k..];
    }
  }

  lemma {:induction false} WidthsShrink(segments: seq<Segment>, k: nat, l: nat)
    requires k <= l <= |segments|
    ensures DataWidth(segments[l..]) <= DataWidth(segments[k..])
    decreases l - k
  {
    if k < l {
      WidthsShrink(segments, k + 1, l);
      assert segments[k..][1..] == segments[k + 1..];
    }
  }

  /** Setting one clear data bit that belongs to a slice keeps a value accepted. */
  lemma SetSliceBit(spec: Spec, k: nat, i: nat)
    requires ValidSpec(spec) && k < |spec.segments| && Covers(spec.segments[k], i)
    requires PositionOf(spec.segments, k, i) < DataWidth(spec.segments) - 1
    ensures var q := PositionOf(spec.segments, k, i);
      var value := ReadBits(spec, 0).0 + Pow2(q);
      && IsU64(value) && Accepts(spec, value)
      && (forall j: nat :: Bit(value, j) == (j == q || Bit(ReadBits(spec, 0).0, j)))
  {
    var q, base := PositionOf(spec.segments, k, i), ReadBits(spec, 0).0;
    var data, total := DataWidth(spec.segments), TotalWidth(spec);
    ReadAccepted(spec, 0);
    ReadBitsBits(spec, 0);
    PositionReads(spec.segments, k, i, 0);
    BitZero(i);
    assert Bit(base, q) == FieldBit(spec, 0, q);
    var value := base + Pow2(q);
    AddClearBit(base, q);
    HighBitsClear(base, total);
    assert q < data <= total;
    forall j: nat | j >= total ensures !Bit(value, j) { assert Bit(base + Pow2(q), j) == (j == q || Bit(base, j)); }
    HighBitsClearBelow(value, total);
    Pow2Within(total);
    SliceBitKeepsLiterals(spec.segments, k, i, base, value);
  }

  lemma {:induction false} AddClearBit(x: nat, q: nat)
    requires !Bit(x, q)
    ensures forall j: nat :: Bit(x + Pow2(q), j) == (j == q || Bit(x, j))
    decreases q
  {
    if q == 0 {
      forall j: nat ensures Bit(x + 1, j) == (j == 0 || Bit(x, j)) {}
    } else {
      AddClearBit(x / 2, q - 1);
      assert (x + Pow2(q)) / 2 == x / 2 + Pow2(q - 1);
      forall j: nat ensures Bit(x + Pow2(q), j) == (j == q || Bit(x, j)) {
        if j > 0 { assert Bit(x / 2 + Pow2(q - 1), j - 1) == (j - 1 == q - 1 || Bit(x / 2, j - 1)); }
      }
    }
  }

  lemma {:induction false} SliceBitKeepsLiterals(segments: seq<Segment>, k: nat, i: nat, base: nat, value: nat)
    requires ValidSegments(segments) && k < |segments| && Covers(segments[k], i)
    requires forall j: nat :: Bit(value, j) == (j == PositionOf(segments, k, i) || Bit(base, j))
    requires LiteralsAgree(segments, base)
    ensures LiteralsAgree(segments, value)
    decreases |segments|
  {
    var q, below := PositionOf(segments, k, i), DataWidth(segments[1..]);
    PositionReads(segments, k, i, 0);
    if k == 0 {
      SegmentsSeeLowBits(segments[1..], base, value);
    } else {
      SliceBitKeepsLiterals(segments[1..], k - 1, i, base, value);
      PositionReads(segments[1..], k - 1, i, 0);
      if segments[0].Literal? {
        forall j: nat | j < segments[0].width ensures Bit(value, below + j) == Bit(segments[0].literal, j) {
          assert Bit(base, below + j) == Bit(segments[0].literal, j);
        }
      }
    }
  }

  /** Whatever a container holds, two slices sharing a bit read the same bit twice. */
  lemma SharedBitReadTwice(spec: Spec, k: nat, l: nat, i: nat, bits: nat)
    requires ValidSpec(spec) && k < l < |spec.segments|
    requires Covers(spec.segments[k], i) && Covers(spec.segments[l], i)
    ensures var p, q := PositionOf(spec.segments, k, i), PositionOf(spec.segments, l, i);
      && q < p < DataWidth(spec.segments)
      && Bit(ReadBits(spec, bits).0, p) == Bit(bits, i)
      && Bit(ReadBits(spec, bits).0, q) == Bit(bits, i)
  {
    var p, q := PositionOf(spec.segments, k, i), PositionOf(spec.segments, l, i);
    PositionReads(spec.segments, k, i, bits);
    PositionReads(spec.segments, l, i, bits);
    WidthsShrink(spec.segments, k + 1, l);
    ReadBitsBits(spec, bits);
    assert Bit(ReadBits(spec, bits).0, p) == FieldBit(spec, bits, p);
    assert Bit(ReadBits(spec, bits).0, q) == FieldBit(spec, bits, q);
  }

  /** Two slices sharing a bit make some accepted value unreadable. */
  lemma OverlapBreaksPutGet(spec: Spec, k: nat, l: nat, i: nat)
    requires ValidSpec(spec) && k < l < |spec.segments|
    requires Covers(spec.segments[k], i) && Covers(spec.segments[l], i)
    ensures !WritesReadBack(spec)
  {
    var p, q := PositionOf(spec.segments, k, i), PositionOf(spec.segments, l, i);
    SharedBitReadTwice(spec, k, l, i, 0);
    BitZero(i);
    SetSliceBit(spec, l, i);
    var value := ReadBits(spec, 0).0 + Pow2(q);
    WriteAccepts(spec, 0, value);
    SharedBitReadTwice(spec, k, l, i, WriteBits(spec, 0, value).value);
    assert Bit(value, q) && !Bit(value, p);
  }

  /** Every accepted write reads back exactly when no two slices share a bit. */
  lemma PutGetIffDisjoint(spec: Spec)
    requires ValidSpec(spec)
    ensures WritesReadBack(spec) <==> Disjoint(spec.segments)
  {
    if Disjoint(spec.segments) {
      forall value: nat | IsU64(value) && WriteBits(spec, 0, value).Ok?
        ensures ReadBits(spec, WriteBits(spec, 0, value).value).0 == value
      {
        PutGet(spec, 0, value);
      }
    } else {
      var k, l, i: nat :| 0 <= k < l < |spec.segments| && Covers(spec.segments[k], i) && Covers(spec.segments[l], i);
      OverlapBreaksPutGet(spec, k, l, i);
    }
  }

  // ---- Signed values ----

  /** A signed operand as the 64-bit pattern `value as u64`. */
  function AsU64(value: I64): U64 {
    if value < 0 then value + WORD else value
  }

  /** `read_signed` is the two's complement reading of the padded field. */
  lemma ReadSignedMeaning(spec: Spec, bits: nat)
    requires ValidSpec(spec)
    ensures var (value, width) := ReadBits(spec, bits);
      && width > 0 && -(WORD / 2) <= ReadSigned(spec, bits) < WORD / 2
      && (IsSigned(spec) ==>
            ReadSigned(spec, bits) == if value >= Pow2(width - 1) then value - Pow2(width) else value)
      && (!IsSigned(spec) && width < 64 ==> ReadSigned(spec, bits) == value)
  {
    var (value, width) := ReadBits(spec, bits);
    ReadBitsBits(spec, bits);
    ReadIsU64(spec, bits);
    DataWidthPositive(spec.segments);
    Pow2Within(width);
    Pow2Monotone(width - 1, width);
    if IsSigned(spec) {
      SignExtendMeaning(value, width);
    } else if width < 64 {
      Pow2Within(width);
    }
  }

  lemma SignExtendMeaning(value: nat, width: nat)
    requires 0 < width <= 64 && value < Pow2(width)
    ensures SignExtend(value, width) == if value >= Pow2(width - 1) then value - Pow2(width) else value
  {
    SplitWord(width);
    ArithmeticShift(value, Pow2(width - 1), Pow2(64 - width));
  }

  /** Shifting left by the factor s, reading as signed, and shifting back. */
  lemma ArithmeticShift(value: nat, half: nat, s: nat)
    requires s > 0 && value < 2 * half && (2 * half) * s == WORD
    ensures var shifted := (value * s) % WORD;
      (if shifted >= WORD / 2 then shifted - WORD else shifted) / s
      == if value >= half then value - 2 * half else value
  {
    MulAssoc(2, half, s);
    ScaledCompare(value, 2 * half, s);
    ModSmall(value * s, WORD);
    if value >= half {
      ScaledAtLeast(value, half, s);
      Distribute(value, -(2 * half), s);
      ExactQuotient(value - 2 * half, s);
    } else {
      ScaledCompare(value, half, s);
      ExactQuotient(value, s);
    }
  }

  lemma Distribute(a: int, b: int, c: int)
    ensures (a + b) * c == a * c + b * c
  {}

  lemma ScaledCompare(a: nat, b: nat, s: nat)
    requires a < b && s > 0
    ensures a * s < b * s
  {
    assert (b - a) * s > 0 && (b - a) * s == b * s - a * s;
  }

  lemma ScaledAtLeast(a: nat, b: nat, s: nat)
    requires a >= b
    ensures a * s >= b * s
  {
    assert (a - b) * s >= 0 && (a - b) * s == a * s - b * s;
  }

  lemma ExactQuotient(a: int, s: nat)
    requires s > 0
    ensures (a * s) / s == a
  {
    QuotientUnique(a * s, s, a, 0);
  }

  /** A negative operand is rejected by every field narrower than 64 bits. */
  lemma NegativeRejected(spec: Spec, container: nat, value: int)
    requires ValidSpec(spec) && IsU64(container) && -(WORD / 2) <= value < 0 && TotalWidth(spec) < 64
    ensures WriteBits(spec, container, AsU64(value)) == Err(ValueTooWide)
  {
    Pow2Within(TotalWidth(spec));
    DataWidthPositive(spec.segments);
    ShrZero(AsU64(value), TotalWidth(spec));
  }

  /** The operand that the decoder hands to the semantics can be assembled again exactly
      when it is not negative, or the padded field fills the whole 64 bits. */
  lemma SignedOperandReencodes(spec: Spec, container: nat, bits: nat)
    requires ValidSpec(spec) && IsU64(container) && IsU64(bits)
    ensures -(WORD / 2) <= ReadSigned(spec, bits) < WORD / 2
    ensures WriteBits(spec, container, AsU64(ReadSigned(spec, bits))).Ok?
      <==> ReadSigned(spec, bits) >= 0 || TotalWidth(spec) == 64
  {
    ReadSignedMeaning(spec, bits);
    var signed, value := ReadSigned(spec, bits), ReadBits(spec, bits).0;
    ReadBitsBits(spec, bits);
    ReadIsU64(spec, bits);
    DataWidthPositive(spec.segments);
    if signed < 0 && TotalWidth(spec) < 64 {
      NegativeRejected(spec, container, signed);
    } else {
      Pow2Within(TotalWidth(spec));
      assert AsU64(signed) == value;
      ReadAccepted(spec, bits);
      WriteAccepts(spec, container, value);
    }
  }

  // ---- The mask of a field ----

  lemma {:induction false} FieldMaskBits(segments: seq<Segment>)
    requires ValidSegments(segments)
    ensures IsU64(FieldMask(segments))
    ensures forall i: nat :: Bit(FieldMask(segments), i) == Occupied(segments, i)
  {
    if segments == [] {
      forall i: nat ensures !Bit(0, i) { BitZero(i); }
    } else {
      var head, tail := segments[0], segments[1..];
      assert ValidSegment(head);
      FieldMaskBits(tail);
      forall i: nat ensures Bit(FieldMask(segments), i) == Occupied(segments, i) {
        WrittenIffOccupied(segments, 0, i);
        WrittenIffOccupied(tail, 0, i);
        if head.Slice? {
          BitOr(head.mask, FieldMask(tail), i);
          SliceMaskBit(head.offset, head.width, i);
        }
      }
      if head.Slice? { OrIsU64(head.mask, FieldMask(tail)); }
    }
  }

  /** A constant is placed under the field's mask: reading the field gives it back when the
      slices are disjoint, and no bit outside the mask is set. */
  lemma EncodeConstantPlaces(spec: Spec, value: nat)
    requires ValidSpec(spec) && IsU64(value) && EncodeConstant(spec, value).Ok?
    ensures var (mask, encoded) := EncodeConstant(spec, value).value;
      && IsU64(mask) && IsU64(encoded)
      && WriteBits(spec, 0, value) == Ok(encoded)
      && (forall i: nat :: Bit(mask, i) == Occupied(spec.segments, i))
      && (forall i: nat | Bit(encoded, i) :: Bit(mask, i))
      && (Disjoint(spec.segments) ==> ReadBits(spec, encoded).0 == value)
  {
    var written := WriteBits(spec, 0, value).value;
    var mask := FieldMask(spec.segments);
    WriteFrame(spec, 0, value);
    FieldMaskBits(spec.segments);
    forall i: nat ensures Bit(And(written, mask), i) == Bit(written, i) {
      BitAnd(written, mask, i);
      BitZero(i);
    }
    BitExt(And(written, mask), written);
    forall i: nat | Bit(written, i) ensures Bit(mask, i) { BitZero(i); }
    if Disjoint(spec.segments) { PutGet(spec, 0, value); }
  }

  // ---- The loops ----

  /** `(acc << width) | part` */
  function ShiftIn(acc: nat, segment: Segment, bits: nat): nat {
    Or(acc * Pow2(segment.width), Part(segment, bits))
  }

  /** The data obtained when the accumulator has still to take the segments in. */
  function Accumulated(acc: nat, segments: seq<Segment>, bits: nat): nat {
    acc * Pow2(DataWidth(segments)) + Data(segments, bits)
  }

  lemma ExtractStep(acc: nat, width: nat, segments: seq<Segment>, bits: nat)
    requires ValidSegments(segments) && segments != [] && acc < Pow2(width)
    ensures ShiftIn(acc, segments[0], bits) < Pow2(width + segments[0].width)
    ensures Accumulated(ShiftIn(acc, segments[0], bits), segments[1..], bits) == Accumulated(acc, segments, bits)
  {
    var segment, below := segments[0], DataWidth(segments[1..]);
    assert ValidSegment(segment);
    PartBound(segment, bits);
    var part := Part(segment, bits);
    JoinBound(acc, width, part, segment.width);
    OrIsSum(acc, segment.width, part);
    Pow2Add(segment.width, below);
    RegroupShift(acc, Pow2(segment.width), part, Pow2(below));
  }

  lemma RegroupShift(acc: nat, p: nat, part: nat, q: nat)
    ensures (acc * p + part) * q == acc * (p * q) + part * q
  {
    assert (acc * p + part) * q == (acc * p) * q + part * q;
    MulAssoc(acc, p, q);
  }

  /** `extract_data`: the accumulator shifts left by each width and takes the part in. */
  method ExtractData(spec: Spec, bits: nat) returns (value: nat, width: nat)
    requires ValidSpec(spec)
    ensures value == Data(spec.segments, bits) && width == DataWidth(spec.segments)
  {
    var acc: nat := 0;
    width := 0;
    var i := 0;
    assert spec.segments[0..] == spec.segments;
    while i < |spec.segments|
      invariant 0 <= i <= |spec.segments|
      invariant ValidSegments(spec.segments[i..])
      invariant width + DataWidth(spec.segments[i..]) == DataWidth(spec.segments)
      invariant acc < Pow2(width)
      invariant Accumulated(acc, spec.segments[i..], bits) == Data(spec.segments, bits)
    {
      ghost var rest := spec.segments[i..];
      ExtractStep(acc, width, rest, bits);
      assert rest[0] == spec.segments[i] && rest[1..] == spec.segments[i + 1..];
      acc := ShiftIn(acc, spec.segments[i], bits);
      width := width + spec.segments[i].width;
      i := i + 1;
    }
    DataBits(spec.segments, bits);
    Pow2Within(width);
    ModSmall(acc, WORD);
    value := acc % WORD;
  }

  /** `write_bits` as its loop over the segments, `remaining` bits of the value still to place. */
  method WriteLoop(spec: Spec, container: nat, value: nat) returns (r: Result<nat, FieldError>)
    requires ValidSpec(spec) && IsU64(container) && IsU64(value)
    ensures r == WriteBits(spec, container, value)
  {
    DataWidthPositive(spec.segments);
    if TotalWidth(spec) < 64 && Shr(value, TotalWidth(spec)) != 0 {
      return Err(ValueTooWide);
    }
    var checked := CheckPad(spec, value);
    if checked.Err? {
      return Err(checked.error);
    }
    var out := container;
    var remaining := DataWidth(spec.segments);
    var i := 0;
    assert spec.segments[0..] == spec.segments;
    while i < |spec.segments|
      invariant 0 <= i <= |spec.segments|
      invariant ValidSegments(spec.segments[i..])
      invariant remaining == DataWidth(spec.segments[i..])
      invariant PutSegments(spec.segments[i..], out, checked.value) == PutSegments(spec.segments, container, checked.value)
    {
      var segment := spec.segments[i];
      ghost var rest := spec.segments[i..];
      assert rest[0] == segment && rest[1..] == spec.segments[i + 1..];
      remaining := remaining - segment.width;
      var next := PutSegment(segment, remaining, out, checked.value);
      if next.Err? {
        return next;
      }
      out := next.value;
      i := i + 1;
    }
    r := Ok(out);
  }
}
