/** Bit fields of `src/soc/prog/types/bitfield.rs`: a field concatenates container slices
    and literals, most significant segment first, and may be padded to the container. */
module BitFields {
  import opened Words
  import opened Results

  datatype Segment =
    | Slice(offset: nat, width: nat, mask: nat)
    | Literal(literal: nat, width: nat)

  datatype PadKind = ZeroPad | SignPad

  datatype Pad = Pad(kind: PadKind, width: nat)

  datatype Spec = Spec(segments: seq<Segment>, pad: Option<Pad>, signed: bool)

  datatype FieldError =
    | ZeroWidthSlice
    | SliceTooWide
    | SliceOutOfRange
    | DuplicatePad
    | PadExceedsContainer
    | ContainerTooWide
    | TotalWidthExceeded
    | MissingSegments
    | LiteralTooWide
    | InvalidRange
    | PadBitsMismatch
    | LiteralMismatch
    | ValueTooWide

  function MaskForWidth(width: nat): nat {
    if width >= 64 then WORD - 1 else LowMask(width)
  }

  function DataWidth(segments: seq<Segment>): nat {
    if segments == [] then 0 else segments[0].width + DataWidth(segments[1..])
  }

  function TotalWidth(spec: Spec): nat {
    DataWidth(spec.segments) + (if spec.pad.Some? then spec.pad.value.width else 0)
  }

  predicate IsSigned(spec: Spec) {
    spec.signed || (spec.pad.Some? && spec.pad.value.kind == SignPad)
  }

  // ---- Construction ----

  /** `BitSlice::new` */
  function NewSlice(offset: nat, width: nat): Result<Segment, FieldError> {
    if width == 0 then Err(ZeroWidthSlice)
    else if width > 64 then Err(SliceTooWide)
    else if offset >= 64 || offset + width > 64 then Err(SliceOutOfRange)
    else Ok(Slice(offset, width, Shl64(MaskForWidth(width), offset)))
  }

  /** One `|`-separated token of a spec such as `@(?1|16..29|0b00)`. */
  datatype Token = RangeToken(start: nat, end: nat) | LiteralToken(value: nat, bits: nat) | PadToken(kind: PadKind)

  /** Ranges are numbered from the most significant bit of the container. */
  function TokenSegment(token: Token, containerBits: nat): Result<Segment, FieldError>
    requires !token.PadToken?
  {
    match token
    case LiteralToken(value, bits) =>
      if bits == 0 || bits > 64 then Err(LiteralTooWide) else Ok(Literal(value, bits))
    case RangeToken(start, end) =>
      if end < start then Err(InvalidRange)
      else if start >= containerBits || end >= containerBits then Err(SliceOutOfRange)
      else NewSlice(containerBits - 1 - end, end - start + 1)
  }

  function TokenSegments(tokens: seq<Token>, containerBits: nat): Result<seq<Segment>, FieldError> {
    if tokens == [] then Ok([])
    else if tokens[0].PadToken? then TokenSegments(tokens[1..], containerBits)
    else
      var head :- TokenSegment(tokens[0], containerBits);
      var tail :- TokenSegments(tokens[1..], containerBits);
      Ok([head] + tail)
  }

  function PadKinds(tokens: seq<Token>): seq<PadKind> {
    if tokens == [] then []
    else (if tokens[0].PadToken? then [tokens[0].kind] else []) + PadKinds(tokens[1..])
  }

  /** The first token that is refused while the text is cut, `padded` when a pad has been seen. */
  function CutFault(tokens: seq<Token>, padded: bool): Option<FieldError> {
    if tokens == [] then None
    else
      match tokens[0]
      case PadToken(_) => if padded then Some(DuplicatePad) else CutFault(tokens[1..], true)
      case LiteralToken(_, bits) => if bits > 64 then Some(LiteralTooWide) else CutFault(tokens[1..], padded)
      case RangeToken(start, end) => if end < start then Some(InvalidRange) else CutFault(tokens[1..], padded)
  }

  /** `BitFieldSpec::from_spec_str` after the text has been cut into tokens. */
  function FromTokens(tokens: seq<Token>, containerBits: nat): Result<Spec, FieldError> {
    if containerBits == 0 || containerBits > 64 then Err(ContainerTooWide)
    else
      var fault, pads := CutFault(tokens, false), PadKinds(tokens);
      if fault.Some? then Err(fault.value)
      else
        var segments :- TokenSegments(tokens, containerBits);
        if segments == [] then Err(MissingSegments)
        else
          var data := DataWidth(segments);
          if pads != [] && containerBits < data then Err(PadExceedsContainer)
          else
            var pad := if pads != [] && containerBits - data > 0
                       then Some(Pad(pads[0], containerBits - data)) else None;
            var spec := Spec(segments, pad, false);
            if TotalWidth(spec) > 64 then Err(TotalWidthExceeded) else Ok(spec)
  }

  /** What the constructors establish. */
  predicate ValidSegment(s: Segment) {
    match s
    case Slice(offset, width, mask) =>
      1 <= width && offset + width <= 64 && mask == Shl64(LowMask(width), offset)
    case Literal(_, width) => 1 <= width <= 64
  }

  predicate ValidSegments(segments: seq<Segment>) {
    forall s | s in segments :: ValidSegment(s)
  }

  predicate ValidSpec(spec: Spec) {
    spec.segments != [] && ValidSegments(spec.segments) && TotalWidth(spec) <= 64
  }

  // ---- Reading ----

  /** The part a segment contributes. */
  function Part(s: Segment, bits: nat): nat {
    match s
    case Slice(offset, _, mask) => Shr(And(bits, mask), offset)
    case Literal(value, width) => And(value, MaskForWidth(width))
  }

  /** The concatenated segments, the first one most significant. */
  function Data(segments: seq<Segment>, bits: nat): nat {
    if segments == [] then 0
    else Part(segments[0], bits) * Pow2(DataWidth(segments[1..])) + Data(segments[1..], bits)
  }

  function ApplyPad(pad: Option<Pad>, value: nat, width: nat): (nat, nat) {
    if pad.Some? then
      if pad.value.kind == SignPad && width > 0 && Shr(value, width - 1) % 2 == 1 then
        (Or(value, Shl64(MaskForWidth(pad.value.width), width)), width + pad.value.width)
      else (value, width + pad.value.width)
    else (value, width)
  }

  /** `read_bits`: the field value and its padded width. */
  function ReadBits(spec: Spec, bits: nat): (nat, nat) {
    ApplyPad(spec.pad, Data(spec.segments, bits), DataWidth(spec.segments))
  }

  /** `(value << (64 - width)) as i64 >> (64 - width)` */
  function SignExtend(value: nat, width: nat): int
    requires 0 < width
  {
    var effective := if width < 64 then width else 64;
    var shifted := Shl64(value, 64 - effective);
    var asSigned := if shifted >= WORD / 2 then shifted - WORD else shifted;
    asSigned / Pow2(64 - effective)
  }

  function ReadSigned(spec: Spec, bits: nat): int {
    var (value, width) := ReadBits(spec, bits);
    if width == 0 then 0
    else if IsSigned(spec) then SignExtend(value, width)
    else ToI64(value)
  }

  // ---- Writing ----

  /** `(container & !mask) | ((part << offset) & mask)` */
  function PutSlice(container: nat, offset: nat, mask: nat, part: nat): nat
    requires IsU64(mask)
  {
    Or(And(container, Not64(mask)), And(Shl64(part, offset), mask))
  }

  /** One segment of a write: `below` bits of the value belong to later segments. */
  function PutSegment(segment: Segment, below: nat, container: nat, value: nat): Result<nat, FieldError>
    requires ValidSegment(segment)
  {
    var part := And(Shr(value, below), MaskForWidth(segment.width));
    match segment
    case Slice(offset, _, mask) => Ok(PutSlice(container, offset, mask, part))
    case Literal(literal, width) =>
      if part != And(literal, MaskForWidth(width)) then Err(LiteralMismatch) else Ok(container)
  }

  function PutSegments(segments: seq<Segment>, container: nat, value: nat): Result<nat, FieldError>
    requires ValidSegments(segments)
  {
    if segments == [] then Ok(container)
    else
      var next :- PutSegment(segments[0], DataWidth(segments[1..]), container, value);
      PutSegments(segments[1..], next, value)
  }

  function CheckPad(spec: Spec, value: nat): Result<nat, FieldError> {
    if spec.pad.None? then Ok(value)
    else
      var width := DataWidth(spec.segments);
      var padBits := Shr(value, width);
      if spec.pad.value.kind == ZeroPad then
        if padBits != 0 then Err(PadBitsMismatch) else Ok(And(value, MaskForWidth(width)))
      else if width > 0 then
        var expected := if Shr(value, width - 1) % 2 == 1 then MaskForWidth(spec.pad.value.width) else 0;
        if padBits != expected then Err(PadBitsMismatch) else Ok(And(value, MaskForWidth(width)))
      else Ok(And(value, MaskForWidth(width)))
  }

  /** `write_bits` */
  function WriteBits(spec: Spec, container: nat, value: nat): Result<nat, FieldError>
    requires ValidSegments(spec.segments)
  {
    var total := TotalWidth(spec);
    if total == 0 then Ok(container)
    else if total < 64 && Shr(value, total) != 0 then Err(ValueTooWide)
    else
      var data :- CheckPad(spec, value);
      PutSegments(spec.segments, container, data)
  }

  /** The bits a field occupies in its container. */
  function FieldMask(segments: seq<Segment>): nat {
    if segments == [] then 0
    else if segments[0].Slice? then Or(segments[0].mask, FieldMask(segments[1..]))
    else FieldMask(segments[1..])
  }

  /** `encode_constant`: the field's mask and the constant placed under it. */
  function EncodeConstant(spec: Spec, value: nat): Result<(nat, nat), FieldError>
    requires ValidSegments(spec.segments)
  {
    var encoded :- WriteBits(spec, 0, value);
    Ok((FieldMask(spec.segments), And(encoded, FieldMask(spec.segments))))
  }

  // ---- Bit positions ----

  predicate Covers(s: Segment, i: nat) {
    s.Slice? && s.offset <= i < s.offset + s.width
  }

  /** Container bit i belongs to one of the slices. */
  predicate Occupied(segments: seq<Segment>, i: nat) {
    exists k | 0 <= k < |segments| :: Covers(segments[k], i)
  }

  /** No container bit is taken by two slices. */
  ghost predicate Disjoint(segments: seq<Segment>) {
    forall k, l, i: nat | 0 <= k < l < |segments| && Covers(segments[k], i) :: !Covers(segments[l], i)
  }

  /** Bit j of the part a segment contributes. */
  predicate SegmentBit(s: Segment, bits: nat, j: nat) {
    j < s.width && if s.Slice? then Bit(bits, s.offset + j) else Bit(s.literal, j)
  }

  /** Bit q of the data read from `bits`. */
  predicate DataBit(segments: seq<Segment>, bits: nat, q: nat) {
    segments != [] &&
    var below := DataWidth(segments[1..]);
    if q < below then DataBit(segments[1..], bits, q)
    else
      SegmentBit(segments[0], bits, q - below)
  }

  /** Bit q of the padded field. */
  predicate FieldBit(spec: Spec, bits: nat, q: nat) {
    var data := DataWidth(spec.segments);
    if q < data then DataBit(spec.segments, bits, q)
    else q < TotalWidth(spec) && spec.pad.Some? && spec.pad.value.kind == SignPad
         && data > 0 && DataBit(spec.segments, bits, data - 1)
  }

  /** The bit a write leaves at container position i, if a slice covers it; the last slice wins. */
  function WrittenBit(segments: seq<Segment>, value: nat, i: nat): Option<bool> {
    if segments == [] then None
    else
      var later := WrittenBit(segments[1..], value, i);
      if later.Some? then later
      else if Covers(segments[0], i) then Some(Bit(value, DataWidth(segments[1..]) + (i - segments[0].offset)))
      else None
  }

  predicate OutBit(segments: seq<Segment>, container: nat, value: nat, i: nat) {
    var written := WrittenBit(segments, value, i);
    if written.Some? then written.value else Bit(container, i)
  }

  /** The literals of the field appear in the value. */
  ghost predicate LiteralsAgree(segments: seq<Segment>, value: nat) {
    segments == [] ||
    (&& LiteralsAgree(segments[1..], value)
     && (segments[0].Literal? ==>
           LiteralAt(value, DataWidth(segments[1..]), segments[0].literal, segments[0].width)))
  }

  /** Bits `below .. below + width` of the value spell the literal. */
  ghost predicate LiteralAt(value: nat, below: nat, literal: nat, width: nat) {
    forall j: nat | j < width :: Bit(value, below + j) == Bit(literal, j)
  }

  /** The values a write accepts. */
  ghost predicate Accepts(spec: Spec, value: nat) {
    var data := DataWidth(spec.segments);
    && value < Pow2(TotalWidth(spec))
    && LiteralsAgree(spec.segments, value)
    && PadBitsAre(value, data, TotalWidth(spec) - data, PadOn(spec, value))
  }

  lemma MaskIs(width: nat)
    requires width <= 64
    ensures MaskForWidth(width) == LowMask(width) && IsU64(LowMask(width))
  {
    Pow2Within(width);
  }

  lemma SliceMaskBit(offset: nat, width: nat, i: nat)
    requires offset + width <= 64
    ensures Bit(Shl64(LowMask(width), offset), i) == (offset <= i < offset + width)
  {
    BitShl64(LowMask(width), offset, i);
    if i >= offset { BitMask(width, i - offset); }
  }

  lemma MaskIsU64(x: nat, k: nat)
    ensures IsU64(Shl64(x, k))
  {}

  /** What the token parser accepts is valid, and its slices lie inside the container. */
  lemma FromTokensValid(tokens: seq<Token>, containerBits: nat)
    requires FromTokens(tokens, containerBits).Ok?
    ensures ValidSpec(FromTokens(tokens, containerBits).value)
    ensures forall i: nat | Occupied(FromTokens(tokens, containerBits).value.segments, i) :: i < containerBits
  {
    TokenSegmentsValid(tokens, containerBits);
  }

  lemma {:induction false} TokenSegmentsValid(tokens: seq<Token>, containerBits: nat)
    requires containerBits <= 64 && TokenSegments(tokens, containerBits).Ok?
    ensures ValidSegments(TokenSegments(tokens, containerBits).value)
    ensures forall s, i: nat | s in TokenSegments(tokens, containerBits).value && Covers(s, i) :: i < containerBits
  {
    if tokens != [] {
      TokenSegmentsValid(tokens[1..], containerBits);
      if tokens[0].RangeToken? && tokens[0].start <= tokens[0].end < containerBits {
        MaskIs(tokens[0].end - tokens[0].start + 1);
      }
    }
  }

  // ---- Bits of the reader ----

  lemma PartBit(s: Segment, bits: nat, j: nat)
    requires ValidSegment(s)
    ensures Bit(Part(s, bits), j) == SegmentBit(s, bits, j)
  {
    match s
    case Slice(offset, width, mask) =>
      BitShr(And(bits, mask), offset, j);
      BitAnd(bits, mask, offset + j);
      SliceMaskBit(offset, width, offset + j);
    case Literal(v, width) =>
      MaskIs(width);
      BitAnd(v, LowMask(width), j);
      BitMask(width, j);
  }

  lemma PartBound(s: Segment, bits: nat)
    requires ValidSegment(s)
    ensures Part(s, bits) < Pow2(s.width)
  {
    forall j: nat | j >= s.width ensures !Bit(Part(s, bits), j) { PartBit(s, bits, j); }
    HighBitsClearBelow(Part(s, bits), s.width);
  }

  /** Bits of `high * 2^w + low`. */
  lemma BitJoin(high: nat, w: nat, low: nat, q: nat)
    requires low < Pow2(w)
    ensures Bit(high * Pow2(w) + low, q) == if q < w then Bit(low, q) else Bit(high, q - w)
  {
    OrIsSum(high, w, low);
    BitOr(high * Pow2(w), low, q);
    BitShl(high, w, q);
    HighBitsClear(low, w);
  }

  lemma JoinBound(high: nat, a: nat, low: nat, w: nat)
    requires high < Pow2(a) && low < Pow2(w)
    ensures high * Pow2(w) + low < Pow2(a + w)
  {
    var x := high * Pow2(w) + low;
    HighBitsClear(high, a);
    forall q: nat | q >= a + w ensures !Bit(x, q) { BitJoin(high, w, low, q); }
    HighBitsClearBelow(x, a + w);
  }

  lemma {:induction false} DataBits(segments: seq<Segment>, bits: nat)
    requires ValidSegments(segments)
    ensures Data(segments, bits) < Pow2(DataWidth(segments))
    ensures forall q: nat :: Bit(Data(segments, bits), q) == DataBit(segments, bits, q)
    decreases |segments|
  {
    if segments == [] {
      forall q: nat ensures !Bit(0, q) { BitZero(q); }
    } else {
      var tail := segments[1..];
      DataBits(tail, bits);
      PartBound(segments[0], bits);
      JoinBound(Part(segments[0], bits), segments[0].width, Data(tail, bits), DataWidth(tail));
      forall q: nat ensures Bit(Data(segments, bits), q) == DataBit(segments, bits, q) {
        BitJoin(Part(segments[0], bits), DataWidth(tail), Data(tail, bits), q);
        if q >= DataWidth(tail) { PartBit(segments[0], bits, q - DataWidth(tail)); }
      }
    }
  }

  /** Every bit of the value read, pad included. */
  lemma ReadBitsBits(spec: Spec, bits: nat)
    requires ValidSpec(spec)
    ensures ReadBits(spec, bits).1 == TotalWidth(spec)
    ensures forall q: nat :: Bit(ReadBits(spec, bits).0, q) == FieldBit(spec, bits, q)
  {
    var value, width := Data(spec.segments, bits), DataWidth(spec.segments);
    DataBits(spec.segments, bits);
    HighBitsClear(value, width);
    if width > 0 { BitShr(value, width - 1, 0); }
    if spec.pad.Some? {
      var padWidth := spec.pad.value.width;
      MaskIs(padWidth);
      forall q: nat ensures Bit(Or(value, Shl64(LowMask(padWidth), width)), q)
        == (Bit(value, q) || width <= q < width + padWidth)
      {
        BitOr(value, Shl64(LowMask(padWidth), width), q);
        SliceMaskBit(width, padWidth, q);
      }
    }
  }

  // ---- Bits of the writer ----

  lemma PutSliceBit(container: nat, offset: nat, width: nat, part: nat, i: nat)
    requires IsU64(container) && offset + width <= 64
    ensures var mask := Shl64(LowMask(width), offset);
      Bit(PutSlice(container, offset, mask, part), i)
      == if offset <= i < offset + width then Bit(part, i - offset) else Bit(container, i)
  {
    var mask := Shl64(LowMask(width), offset);
    BitOr(And(container, Not64(mask)), And(Shl64(part, offset), mask), i);
    BitAnd(container, Not64(mask), i);
    BitNot64(mask, i);
    BitAnd(Shl64(part, offset), mask, i);
    BitShl64(part, offset, i);
    SliceMaskBit(offset, width, i);
    WordBits(container);
  }

  lemma PutSliceIsU64(container: nat, offset: nat, mask: nat, part: nat)
    requires IsU64(container) && IsU64(mask)
    ensures IsU64(PutSlice(container, offset, mask, part))
  {
    AndIsU64(container, Not64(mask));
    AndIsU64(Shl64(part, offset), mask);
    OrIsU64(And(container, Not64(mask)), And(Shl64(part, offset), mask));
  }

  /** The part cut out of the value for a segment. */
  lemma CutBit(value: nat, below: nat, width: nat, j: nat)
    requires width <= 64
    ensures Bit(And(Shr(value, below), MaskForWidth(width)), j) == (j < width && Bit(value, below + j))
  {
    MaskIs(width);
    BitAnd(Shr(value, below), LowMask(width), j);
    BitMask(width, j);
    BitShr(value, below, j);
  }

  lemma LiteralCheck(value: nat, below: nat, literal: nat, width: nat)
    requires width <= 64
    ensures And(Shr(value, below), MaskForWidth(width)) == And(literal, MaskForWidth(width))
      <==> LiteralAt(value, below, literal, width)
  {
    var cut, expected := And(Shr(value, below), MaskForWidth(width)), And(literal, MaskForWidth(width));
    forall j: nat
      ensures Bit(cut, j) == (j < width && Bit(value, below + j))
      ensures Bit(expected, j) == (j < width && Bit(literal, j))
    {
      CutBit(value, below, width, j);
      MaskIs(width);
      BitAnd(literal, LowMask(width), j);
      BitMask(width, j);
    }
    if cut == expected {
      forall j: nat | j < width ensures Bit(value, below + j) == Bit(literal, j) {
        assert Bit(cut, j) == Bit(expected, j);
      }
    } else if LiteralAt(value, below, literal, width) {
      BitExt(cut, expected);
    }
  }

  lemma {:induction false} PutSegmentsBits(segments: seq<Segment>, container: nat, value: nat)
    requires ValidSegments(segments) && IsU64(container)
    ensures PutSegments(segments, container, value).Ok? <==> LiteralsAgree(segments, value)
    ensures PutSegments(segments, container, value).Ok? ==>
      var out := PutSegments(segments, container, value).value;
      && IsU64(out)
      && forall i: nat :: Bit(out, i) == OutBit(segments, container, value, i)
    decreases |segments|
  {
    if segments != [] {
      var tail, below := segments[1..], DataWidth(segments[1..]);
      var part := And(Shr(value, below), MaskForWidth(segments[0].width));
      assert ValidSegment(segments[0]);
      match segments[0]
      case Slice(offset, width, mask) =>
        var next := PutSlice(container, offset, mask, part);
        PutSliceIsU64(container, offset, mask, part);
        PutSegmentsBits(tail, next, value);
        forall i: nat ensures Bit(next, i) ==
          if Covers(segments[0], i) then Bit(value, below + (i - offset)) else Bit(container, i)
        {
          PutSliceBit(container, offset, width, part, i);
          if Covers(segments[0], i) { CutBit(value, below, width, i - offset); }
        }
      case Literal(literal, width) =>
        LiteralCheck(value, below, literal, width);
        PutSegmentsBits(tail, container, value);
    }
  }

  lemma {:induction false} WrittenIffOccupied(segments: seq<Segment>, value: nat, i: nat)
    ensures WrittenBit(segments, value, i).Some? <==> Occupied(segments, i)
    decreases |segments|
  {
    if segments != [] {
      WrittenIffOccupied(segments[1..], value, i);
      if Occupied(segments[1..], i) {
        var k :| 0 <= k < |segments[1..]| && Covers(segments[1..][k], i);
        assert Covers(segments[k + 1], i);
      }
      if Occupied(segments, i) {
        var k :| 0 <= k < |segments| && Covers(segments[k], i);
        if k > 0 { assert Covers(segments[1..][k - 1], i); }
      }
    }
  }

  // ---- The laws of a field ----

  lemma ShrZero(value: nat, k: nat)
    ensures Shr(value, k) == 0 <==> value < Pow2(k)
  {
    if value < Pow2(k) { ModSmall(value, Pow2(k)); }
  }

  /** Bits `data .. data + pad` of the value all equal `on`. */
  ghost predicate PadBitsAre(value: nat, data: nat, pad: nat, on: bool) {
    forall q: nat | data <= q < data + pad :: Bit(value, q) == on
  }

  lemma PadField(value: nat, data: nat, pad: nat, on: bool)
    requires value < Pow2(data + pad)
    ensures Shr(value, data) == (if on then LowMask(pad) else 0) <==> PadBitsAre(value, data, pad, on)
  {
    var top, expected := Shr(value, data), if on then LowMask(pad) else 0;
    HighBitsClear(value, data + pad);
    forall j: nat
      ensures Bit(top, j) == Bit(value, data + j)
      ensures Bit(expected, j) == (j < pad && on)
    {
      BitShr(value, data, j);
      BitMask(pad, j);
      BitZero(j);
    }
    if top == expected {
      forall q: nat | data <= q < data + pad ensures Bit(value, q) == on {
        assert Bit(top, q - data) == Bit(value, data + (q - data));
      }
    } else if PadBitsAre(value, data, pad, on) {
      BitExt(top, expected);
    }
  }

  lemma {:induction false} DataWidthPositive(segments: seq<Segment>)
    requires ValidSegments(segments) && segments != []
    ensures DataWidth(segments) > 0
  {
    assert ValidSegment(segments[0]);
  }

  /** Only the low `DataWidth` bits of the value matter to the segments. */
  lemma {:induction false} SegmentsSeeLowBits(segments: seq<Segment>, v: nat, u: nat)
    requires ValidSegments(segments)
    requires forall q: nat | q < DataWidth(segments) :: Bit(v, q) == Bit(u, q)
    ensures LiteralsAgree(segments, v) <==> LiteralsAgree(segments, u)
    ensures forall i: nat :: WrittenBit(segments, v, i) == WrittenBit(segments, u, i)
  {
    if segments != [] {
      SegmentsSeeLowBits(segments[1..], v, u);
      if segments[0].Literal? {
        var below, literal, width := DataWidth(segments[1..]), segments[0].literal, segments[0].width;
        if LiteralAt(v, below, literal, width) {
          forall j: nat | j < width ensures Bit(u, below + j) == Bit(literal, j) { assert Bit(v, below + j) == Bit(literal, j); }
        }
        if LiteralAt(u, below, literal, width) {
          forall j: nat | j < width ensures Bit(v, below + j) == Bit(literal, j) { assert Bit(u, below + j) == Bit(literal, j); }
        }
      }
    }
  }

  /** The data part of a value: what is left once the checked pad is cut off. */
  function DataPart(spec: Spec, value: nat): nat {
    if spec.pad.Some? then value % Pow2(DataWidth(spec.segments)) else value
  }

  lemma DataPartBits(spec: Spec, value: nat)
    requires ValidSpec(spec)
    ensures forall q: nat | q < DataWidth(spec.segments) :: Bit(DataPart(spec, value), q) == Bit(value, q)
  {
    forall q: nat | q < DataWidth(spec.segments) ensures Bit(DataPart(spec, value), q) == Bit(value, q) {
      BitMod(value, DataWidth(spec.segments), q);
    }
  }

  predicate PadOn(spec: Spec, value: nat) {
    spec.pad.Some? && spec.pad.value.kind == SignPad && DataWidth(spec.segments) > 0
    && Bit(value, DataWidth(spec.segments) - 1)
  }

  /** The pad check passes exactly when the pad bits are zeros, or copies of the sign bit. */
  lemma CheckPadIff(spec: Spec, value: nat)
    requires ValidSpec(spec) && value < Pow2(TotalWidth(spec))
    ensures CheckPad(spec, value).Ok?
      <==> PadBitsAre(value, DataWidth(spec.segments), TotalWidth(spec) - DataWidth(spec.segments), PadOn(spec, value))
    ensures CheckPad(spec, value).Ok? ==> CheckPad(spec, value).value == DataPart(spec, value)
  {
    var data := DataWidth(spec.segments);
    DataWidthPositive(spec.segments);
    if spec.pad.Some? {
      var pad := spec.pad.value.width;
      PadField(value, data, pad, PadOn(spec, value));
      MaskIs(pad);
      MaskIs(data);
      AndLowMask(value, data);
      BitShr(value, data - 1, 0);
    }
  }

  /** A write succeeds exactly on the accepted values, whatever the container holds. */
  lemma WriteAccepts(spec: Spec, container: nat, value: nat)
    requires ValidSpec(spec) && IsU64(container) && IsU64(value)
    ensures WriteBits(spec, container, value).Ok? <==> Accepts(spec, value)
    ensures Accepts(spec, value) ==>
      WriteBits(spec, container, value) == PutSegments(spec.segments, container, DataPart(spec, value))
  {
    var total := TotalWidth(spec);
    DataWidthPositive(spec.segments);
    Pow2Within(total);
    ShrZero(value, total);
    if value < Pow2(total) {
      CheckPadIff(spec, value);
      DataPartBits(spec, value);
      SegmentsSeeLowBits(spec.segments, DataPart(spec, value), value);
      PutSegmentsBits(spec.segments, container, DataPart(spec, value));
    }
  }

  /** The container after an accepted write, bit by bit. */
  lemma WriteBitsBits(spec: Spec, container: nat, value: nat)
    requires ValidSpec(spec) && IsU64(container) && IsU64(value) && Accepts(spec, value)
    ensures WriteBits(spec, container, value).Ok? && IsU64(WriteBits(spec, container, value).value)
    ensures forall i: nat :: Bit(WriteBits(spec, container, value).value, i) == OutBit(spec.segments, container, value, i)
  {
    WriteAccepts(spec, container, value);
    DataPartBits(spec, value);
    SegmentsSeeLowBits(spec.segments, DataPart(spec, value), value);
    PutSegmentsBits(spec.segments, container, DataPart(spec, value));
  }
}
