/** Which bits of a word the text of a bit spec denotes (`src/soc/prog/types/bitfield.rs`), and with it what the subfields
    of a form, the constants of a mask and the enable expression of a space say about an instruction word
    (`src/soc/isa/machine/{space,instruction,disassembly}.rs`). */
module BitSpecs {
  import opened Words
  import opened Results
  import opened BitFields
  import opened BitFieldLaws
  import opened Machine
  import opened Encoding
  import opened Decoding

  // ---- What the tokens denote ----

  /** A range within n bits, or a literal of at most 64. */
  predicate Proper(token: Token, n: nat) {
    match token
    case RangeToken(start, end) => start <= end < n
    case LiteralToken(_, bits) => 1 <= bits <= 64
    case PadToken(_) => true
  }

  function WidthOf(token: Token): nat {
    match token
    case RangeToken(start, end) => if start <= end then end - start + 1 else 0
    case LiteralToken(_, bits) => bits
    case PadToken(_) => 0
  }

  function WidthOfAll(tokens: seq<Token>): nat {
    if tokens == [] then 0 else WidthOf(tokens[0]) + WidthOfAll(tokens[1..])
  }

  /** Bit j, from the low end, of what a token contributes: a range counts the bits of the word from the high end, so its
      last one, `end`, is bit 0 and stands at n - 1 - end. */
  predicate TokenBit(token: Token, n: nat, bits: nat, j: nat) {
    match token
    case RangeToken(_, end) => end < n && Bit(bits, n - 1 - end + j)
    case LiteralToken(value, _) => Bit(value, j)
    case PadToken(_) => false
  }

  /** Bit q of the tokens put side by side, the first one on top. */
  predicate TokensBit(tokens: seq<Token>, n: nat, bits: nat, q: nat) {
    tokens != [] &&
    var below := WidthOfAll(tokens[1..]);
    if q < below then TokensBit(tokens[1..], n, bits, q) else q - below < WidthOf(tokens[0]) && TokenBit(tokens[0], n, bits, q - below)
  }

  /** Bit q of the padded value: a sign pad repeats the top bit up to the size of the container. */
  predicate ValueBit(tokens: seq<Token>, n: nat, bits: nat, q: nat) {
    var width := WidthOfAll(tokens);
    if q < width then TokensBit(tokens, n, bits, q)
    else 0 < width && q < n && SignsPad(tokens) && TokensBit(tokens, n, bits, width - 1)
  }

  predicate HasPad(tokens: seq<Token>) {
    exists k | 0 <= k < |tokens| :: tokens[k].PadToken?
  }

  predicate SignsPad(tokens: seq<Token>) {
    PadToken(SignPad) in tokens
  }

  /** The specs that are accepted in a container of n bits. */
  predicate Readable(tokens: seq<Token>, n: nat) {
    && 1 <= n <= 64
    && (forall t | t in tokens :: Proper(t, n))
    && (exists t | t in tokens :: !t.PadToken?)
    && (forall j, k | 0 <= j < k < |tokens| && tokens[j].PadToken? :: !tokens[k].PadToken?)
    && WidthOfAll(tokens) <= (if HasPad(tokens) then n else 64)
  }

  // ---- The parser against them ----

  lemma TokenMeans(token: Token, n: nat, bits: nat)
    requires n <= 64 && !token.PadToken?
    ensures TokenSegment(token, n).Ok? <==> Proper(token, n)
    ensures TokenSegment(token, n).Ok? ==>
      var s := TokenSegment(token, n).value;
      s.width == WidthOf(token) && forall j: nat | j < s.width :: SegmentBit(s, bits, j) == TokenBit(token, n, bits, j)
  {}

  lemma {:induction false} TokensMean(tokens: seq<Token>, n: nat, bits: nat)
    requires n <= 64
    ensures TokenSegments(tokens, n).Ok? <==> forall t | t in tokens :: Proper(t, n)
    ensures TokenSegments(tokens, n).Ok? ==>
      var segments := TokenSegments(tokens, n).value;
      && DataWidth(segments) == WidthOfAll(tokens)
      && (segments == [] <==> forall t | t in tokens :: t.PadToken?)
      && forall q: nat :: DataBit(segments, bits, q) == TokensBit(tokens, n, bits, q)
  {
    if tokens != [] {
      var tail := tokens[1..];
      assert tokens == [tokens[0]] + tail;
      TokensMean(tail, n, bits);
      if !tokens[0].PadToken? {
        TokenMeans(tokens[0], n, bits);
        if TokenSegments(tokens, n).Ok? { HeadMeans(tokens, n, bits); }
      } else if TokenSegments(tail, n).Ok? {
        forall q: nat ensures TokensBit(tokens, n, bits, q) == TokensBit(tail, n, bits, q) { AboveIsClear(tail, n, bits, q); }
      }
    }
  }

  lemma {:induction false} AboveIsClear(tokens: seq<Token>, n: nat, bits: nat, q: nat)
    ensures q >= WidthOfAll(tokens) ==> !TokensBit(tokens, n, bits, q)
  {}

  lemma HeadMeans(tokens: seq<Token>, n: nat, bits: nat)
    requires n <= 64 && tokens != [] && !tokens[0].PadToken? && TokenSegments(tokens, n).Ok?
    requires var tail := TokenSegments(tokens[1..], n).value;
      DataWidth(tail) == WidthOfAll(tokens[1..]) && forall q: nat :: DataBit(tail, bits, q) == TokensBit(tokens[1..], n, bits, q)
    ensures var segments := TokenSegments(tokens, n).value;
      DataWidth(segments) == WidthOfAll(tokens) && forall q: nat :: DataBit(segments, bits, q) == TokensBit(tokens, n, bits, q)
  {
    TokenMeans(tokens[0], n, bits);
    var head, tail := TokenSegment(tokens[0], n).value, TokenSegments(tokens[1..], n).value;
    var segments := TokenSegments(tokens, n).value;
    assert segments == [head] + tail && segments[1..] == tail;
    forall q: nat ensures DataBit(segments, bits, q) == TokensBit(tokens, n, bits, q) {
      assert DataBit(tail, bits, q) == TokensBit(tokens[1..], n, bits, q);
    }
  }

  /** The pads of a spec, in order. */
  lemma {:induction false} PadsMean(tokens: seq<Token>)
    ensures PadKinds(tokens) == [] <==> !HasPad(tokens)
    ensures |PadKinds(tokens)| <= 1 <==> forall j, k | 0 <= j < k < |tokens| && tokens[j].PadToken? :: !tokens[k].PadToken?
    ensures |PadKinds(tokens)| == 1 ==> (PadKinds(tokens)[0] == SignPad <==> SignsPad(tokens))
  {
    if tokens != [] {
      var tail := tokens[1..];
      assert tokens == [tokens[0]] + tail;
      PadsMean(tail);
      PadsCons(tokens);
    }
  }

  lemma {:induction false} CutMeans(tokens: seq<Token>, padded: bool)
    ensures CutFault(tokens, padded).None? <==>
      (forall t | t in tokens :: (t.RangeToken? ==> t.start <= t.end) && (t.LiteralToken? ==> t.bits <= 64))
      && |PadKinds(tokens)| <= (if padded then 0 else 1)
  {
    if tokens != [] {
      assert tokens == [tokens[0]] + tokens[1..];
      CutMeans(tokens[1..], padded || tokens[0].PadToken?);
    }
  }

  lemma PadsCons(tokens: seq<Token>)
    requires tokens != []
    ensures HasPad(tokens) <==> tokens[0].PadToken? || HasPad(tokens[1..])
    ensures (forall j, k | 0 <= j < k < |tokens| && tokens[j].PadToken? :: !tokens[k].PadToken?) <==>
      (tokens[0].PadToken? ==> !HasPad(tokens[1..]))
      && forall j, k | 0 <= j < k < |tokens[1..]| && tokens[1..][j].PadToken? :: !tokens[1..][k].PadToken?
  {
    var tail := tokens[1..];
    forall k | 1 <= k < |tokens| ensures tokens[k] == tail[k - 1] {}
    forall k | 0 <= k < |tail| ensures tail[k] == tokens[k + 1] {}
    if HasPad(tail) {
      var k :| 0 <= k < |tail| && tail[k].PadToken?;
      assert tokens[k + 1].PadToken?;
    }
  }

  /** A spec is accepted exactly when it is readable. The value it reads from a word is the tokens side by side, the first
      on top; a pad extends it to the size of the word, with zeros or with copies of its top bit, and only a sign pad
      that has room makes it signed. */
  lemma SpecMeans(tokens: seq<Token>, n: nat, bits: nat)
    ensures FromTokens(tokens, n).Ok? <==> Readable(tokens, n)
    ensures FromTokens(tokens, n).Ok? ==>
      var spec, width := FromTokens(tokens, n).value, WidthOfAll(tokens);
      && ValidSpec(spec) && TotalWidth(spec) == (if HasPad(tokens) then n else width)
      && (IsSigned(spec) <==> SignsPad(tokens) && width < n)
      && (forall q: nat :: Bit(ReadBits(spec, bits).0, q) == ValueBit(tokens, n, bits, q))
  {
    PadsMean(tokens);
    CutMeans(tokens, false);
    if 1 <= n <= 64 {
      TokensMean(tokens, n, bits);
      if FromTokens(tokens, n).Ok? {
        SpecBits(tokens, n, bits);
      }
    }
  }

  /** The pad that the tokens ask for, beside data of this width. */
  function PadOf(tokens: seq<Token>, n: nat, data: nat): Option<Pad> {
    if HasPad(tokens) && n > data then Some(Pad(if SignsPad(tokens) then SignPad else ZeroPad, n - data)) else None
  }

  lemma SpecShape(tokens: seq<Token>, n: nat)
    requires FromTokens(tokens, n).Ok?
    ensures TokenSegments(tokens, n).Ok?
    ensures var spec, segments := FromTokens(tokens, n).value, TokenSegments(tokens, n).value;
      spec == Spec(segments, PadOf(tokens, n, DataWidth(segments)), false) && (HasPad(tokens) ==> DataWidth(segments) <= n)
  {
    PadsMean(tokens);
    CutMeans(tokens, false);
  }

  lemma SpecBits(tokens: seq<Token>, n: nat, bits: nat)
    requires FromTokens(tokens, n).Ok? && n <= 64
    requires var segments := TokenSegments(tokens, n).value;
      segments != [] && DataWidth(segments) == WidthOfAll(tokens) && forall q: nat :: DataBit(segments, bits, q) == TokensBit(tokens, n, bits, q)
    ensures var spec, width := FromTokens(tokens, n).value, WidthOfAll(tokens);
      && ValidSpec(spec) && TotalWidth(spec) == (if HasPad(tokens) then n else width)
      && (IsSigned(spec) <==> SignsPad(tokens) && width < n)
      && (forall q: nat :: Bit(ReadBits(spec, bits).0, q) == ValueBit(tokens, n, bits, q))
  {
    var spec, width := FromTokens(tokens, n).value, WidthOfAll(tokens);
    FromTokensValid(tokens, n);
    SpecShape(tokens, n);
    DataWidthPositive(spec.segments);
    ReadBitsBits(spec, bits);
    assert SignsPad(tokens) ==> HasPad(tokens);
    forall q: nat ensures FieldBit(spec, bits, q) == ValueBit(tokens, n, bits, q) {
      assert DataBit(spec.segments, bits, width - 1) == TokensBit(tokens, n, bits, width - 1);
      assert DataBit(spec.segments, bits, q) == TokensBit(tokens, n, bits, q);
    }
    forall q: nat ensures Bit(ReadBits(spec, bits).0, q) == ValueBit(tokens, n, bits, q) {
      assert Bit(ReadBits(spec, bits).0, q) == FieldBit(spec, bits, q);
    }
  }

  /** One range reads bits n - 1 - end up to n - 1 - start of the word, and writes them. */
  lemma OneRangeMeans(start: nat, end: nat, n: nat, bits: nat, j: nat)
    requires n <= 64
    ensures FromTokens([RangeToken(start, end)], n).Ok? <==> start <= end < n
    ensures start <= end < n ==>
      Bit(ReadBits(FromTokens([RangeToken(start, end)], n).value, bits).0, j) == (j <= end - start && Bit(bits, n - 1 - end + j))
  {
    var tokens := [RangeToken(start, end)];
    assert tokens[1..] == [] && tokens[0] in tokens;
    SpecMeans(tokens, n, bits);
    if start <= end < n {
      assert Readable(tokens, n);
      assert !SignsPad(tokens);
      assert Bit(ReadBits(FromTokens(tokens, n).value, bits).0, j) == ValueBit(tokens, n, bits, j);
    }
  }

  /** What is written to a range stands in those bits, and the other bits of the word stay. */
  lemma OneRangeWrites(start: nat, end: nat, n: nat, container: nat, value: nat, i: nat)
    requires start <= end < n <= 64 && IsU64(container) && IsU64(value)
    ensures FromTokens([RangeToken(start, end)], n).Ok?
    ensures var spec := FromTokens([RangeToken(start, end)], n).value;
      && ValidSpec(spec)
      && (WriteBits(spec, container, value).Ok? <==> value < Pow2(end - start + 1))
      && (WriteBits(spec, container, value).Ok? ==>
            Bit(WriteBits(spec, container, value).value, i) ==
              if n - 1 - end <= i <= n - 1 - start then Bit(value, i - (n - 1 - end)) else Bit(container, i))
  {
    OneRangeMeans(start, end, n, 0, 0);
    OneSlice(start, end, n);
    var spec := FromTokens([RangeToken(start, end)], n).value;
    FromTokensValid([RangeToken(start, end)], n);
    WriteAccepts(spec, container, value);
    assert LiteralsAgree(spec.segments[1..], value);
    if Accepts(spec, value) {
      WriteBitsBits(spec, container, value);
      assert WrittenBit(spec.segments[1..], value, i) == None;
    }
  }

  lemma OneSlice(start: nat, end: nat, n: nat)
    requires start <= end < n <= 64
    ensures var spec := FromTokens([RangeToken(start, end)], n);
      && spec.Ok? && spec.value.pad == None && |spec.value.segments| == 1
      && spec.value.segments[0].Slice? && spec.value.segments[0].offset == n - 1 - end && spec.value.segments[0].width == end - start + 1
      && TotalWidth(spec.value) == DataWidth(spec.value.segments) == end - start + 1
  {
    var tokens := [RangeToken(start, end)];
    assert tokens[1..] == [];
    var segment := TokenSegment(tokens[0], n).value;
    assert TokenSegments([], n) == Ok([]) && [segment] + [] == [segment];
    assert TokenSegments(tokens, n) == Ok([segment]);
    assert CutFault([], false) == None && CutFault(tokens, false) == None;
    assert PadKinds([]) == [] && PadKinds(tokens) == [];
    assert DataWidth([]) == 0 && [segment][1..] == [];
    assert DataWidth([segment]) == segment.width;
  }

  // ---- Bytes ----

  /** The place in the string of the byte that holds bits 8 * k and up of the word. */
  function BytePlace(n: nat, endianness: Endianness, k: nat): nat
    requires k < n
  {
    if endianness.Little? then k else n - 1 - k
  }

  /** Bit i of the k-th byte of a word, from the low end, is bit 8 * k + i of the word. */
  lemma {:induction false} WordBit(bytes: seq<Byte>, endianness: Endianness, k: nat, i: nat)
    requires k < |bytes| && i < 8
    ensures Bit(DecodeWord(bytes, endianness), 8 * k + i) == Bit(bytes[BytePlace(|bytes|, endianness, k)], i)
    decreases |bytes|
  {
    var last := |bytes| - 1;
    var rest := if endianness.Little? then bytes[1..] else bytes[..last];
    var low: Byte := if endianness.Little? then bytes[0] else bytes[last];
    EightBits();
    BitJoin(DecodeWord(rest, endianness), 8, low, 8 * k + i);
    if k > 0 { WordBit(rest, endianness, k - 1, i); }
  }

  lemma EightBits()
    ensures Pow2(8) == 256
  {
    assert Pow2(4) == 16;
    Pow2Add(4, 4);
  }

  /** And the k-th byte from the low end holds those bits when a word is cut. */
  lemma CutBit(bits: nat, n: nat, endianness: Endianness, k: nat, i: nat)
    requires k < n && i < 8
    ensures Bit(WordBytes(bits, n, endianness)[BytePlace(n, endianness, k)], i) == Bit(bits, 8 * k + i)
  {
    WordBytesAt(bits, n, endianness, 0, BytePlace(n, endianness, k));
    EightBits();
    BitMod(Shr(bits, 8 * k), 8, i);
    BitShr(bits, 8 * k, i);
  }

  /** The word a space sees has the bits of its bytes. */
  lemma HeadWordBit(space: DecodeSpace, bytes: seq<Byte>, k: nat, i: nat)
    requires ValidDecodeSpace(space) && space.wordBytes <= |bytes| && k < space.wordBytes && i < 8
    ensures Bit(HeadWord(space, bytes), 8 * k + i) == Bit(bytes[BytePlace(space.wordBytes, space.endianness, k)], i)
  {
    var word := bytes[..space.wordBytes];
    WordBit(word, space.endianness, k, i);
    BitAnd(DecodeWord(word, space.endianness), space.mask, 8 * k + i);
    MaskIs(space.wordBits);
    BitMask(space.wordBits, 8 * k + i);
  }

  // ---- Space selection ----

  /** A space without an enable expression takes every word that is there. */
  lemma NoEnableMeans(space: DecodeSpace, bytes: seq<Byte>)
    requires space.enable.None?
    ensures AcceptsHead(space, bytes) <==> space.wordBytes <= |bytes|
  {}

  function EnabledBy(space: DecodeSpace, e: EnableExpr): DecodeSpace {
    space.(enable := Some(e))
  }

  /** `field == c` takes the words whose field has the bits of c; `field != c` takes the others. */
  lemma EnableEqualMeans(space: DecodeSpace, bytes: seq<Byte>, spec: Spec, c: U64)
    requires ValidSpec(spec) && space.wordBytes <= |bytes|
    ensures var word := HeadWord(space, bytes);
      && (AcceptsHead(EnabledBy(space, EnableBinary(EnableEq, EnableField(spec), EnableLiteral(c))), bytes)
          <==> forall q: nat :: Bit(c, q) == FieldBit(spec, word, q))
      && (AcceptsHead(EnabledBy(space, EnableBinary(EnableNe, EnableField(spec), EnableLiteral(c))), bytes)
          <==> exists q: nat :: Bit(c, q) != FieldBit(spec, word, q))
  {
    var word := HeadWord(space, bytes);
    var value := ReadBits(spec, word).0;
    ReadBitsBits(spec, word);
    assert Evaluate(EnableField(spec), word) == Number(value) && Evaluate(EnableLiteral(c), word) == Number(c);
    if value != c {
      if forall q: nat :: Bit(c, q) == Bit(value, q) { BitExt(c, value); }
      var q: nat :| Bit(c, q) != Bit(value, q);
      assert Bit(value, q) == FieldBit(spec, word, q);
    }
  }

  /** A field alone takes the words in which one of its bits is set. */
  lemma EnableFieldMeans(space: DecodeSpace, bytes: seq<Byte>, spec: Spec)
    requires ValidSpec(spec) && space.wordBytes <= |bytes|
    ensures AcceptsHead(EnabledBy(space, EnableField(spec)), bytes) <==> exists q: nat :: FieldBit(spec, HeadWord(space, bytes), q)
  {
    EnableEqualMeans(space, bytes, spec, 0);
    var word := HeadWord(space, bytes);
    forall q: nat ensures !Bit(0, q) { BitZero(q); }
    assert Evaluate(EnableField(spec), word) == Number(ReadBits(spec, word).0) && Evaluate(EnableLiteral(0), word) == Number(0);
  }

  /** `&&` takes the words that both sides take, `||` those that one takes; `==` and `!=` of two conditions compare them. */
  lemma EnableConnectives(space: DecodeSpace, bytes: seq<Byte>, a: EnableExpr, b: EnableExpr)
    requires space.wordBytes <= |bytes|
    ensures var left, right := AcceptsHead(EnabledBy(space, a), bytes), AcceptsHead(EnabledBy(space, b), bytes);
      && (AcceptsHead(EnabledBy(space, EnableBinary(EnableAnd, a, b)), bytes) <==> left && right)
      && (AcceptsHead(EnabledBy(space, EnableBinary(EnableOr, a, b)), bytes) <==> left || right)
      && (IsCondition(a) && IsCondition(b) ==>
            (AcceptsHead(EnabledBy(space, EnableBinary(EnableEq, a, b)), bytes) <==> (left <==> right)))
      && (IsCondition(a) && IsCondition(b) ==>
            (AcceptsHead(EnabledBy(space, EnableBinary(EnableNe, a, b)), bytes) <==> (left <==> !right)))
  {}

  predicate IsCondition(e: EnableExpr) {
    e.EnableBool? || e.EnableBinary?
  }

  // ---- Mask constants ----

  /** The fields that the selectors of a mask denote are these. */
  ghost predicate Selects(instr: Instruction, space: Space, fields: seq<MaskField>, specs: seq<Spec>) {
    && space.wordBits.Some? && |specs| == |fields|
    && forall k | 0 <= k < |fields| :: ResolveSelector(instr, space, space.wordBits.value, fields[k].selector) == Ok(specs[k])
  }

  /** No bit of the word is taken twice, within a field or by two fields. */
  ghost predicate AllDisjoint(specs: seq<Spec>) {
    && (forall k | 0 <= k < |specs| :: Disjoint(specs[k].segments))
    && (forall k, l, i: nat | 0 <= k < l < |specs| && Occupied(specs[k].segments, i) :: !Occupied(specs[l].segments, i))
  }

  /** Bit i of the word stands under the k-th field. */
  ghost predicate Under(specs: seq<Spec>, k: nat, i: nat) {
    k < |specs| && Occupied(specs[k].segments, i)
  }

  /** The entries of a mask: each covers its field and holds its constant there. */
  ghost predicate EntriesHold(entries: seq<(nat, nat)>, fields: seq<MaskField>, specs: seq<Spec>) {
    && |entries| == |fields| == |specs|
    && forall k | 0 <= k < |fields| ::
         && ValidSpec(specs[k]) && IsU64(entries[k].0) && IsU64(entries[k].1) && Inside(entries[k].1, entries[k].0)
         && WriteBits(specs[k], 0, fields[k].value) == Ok(entries[k].1)
         && (forall i: nat :: Bit(entries[k].0, i) == Occupied(specs[k].segments, i))
  }

  lemma {:induction false} EntriesMean(instr: Instruction, space: Space, fields: seq<MaskField>, specs: seq<Spec>)
    requires space.wordBits.Some? && FormsBuilt(space) && Selects(instr, space, fields, specs)
    requires MaskEntries(instr, space, space.wordBits.value, fields).Ok?
    ensures EntriesHold(MaskEntries(instr, space, space.wordBits.value, fields).value, fields, specs)
    decreases |fields|
  {
    if fields != [] {
      var wordBits := space.wordBits.value;
      SelectorIsValid(instr, space, wordBits, fields[0].selector);
      EncodeConstantPlaces(specs[0], fields[0].value);
      var entries := MaskEntries(instr, space, wordBits, fields).value;
      InsideFromBits(entries[0].1, entries[0].0);
      forall k | 0 <= k < |fields[1..]|
        ensures ResolveSelector(instr, space, wordBits, fields[1..][k].selector) == Ok(specs[1..][k])
      {
        assert fields[1..][k] == fields[k + 1];
      }
      EntriesMean(instr, space, fields[1..], specs[1..]);
      assert entries[1..] == MaskEntries(instr, space, wordBits, fields[1..]).value;
      EntriesCons(entries, fields, specs);
    }
  }

  lemma EntriesCons(entries: seq<(nat, nat)>, fields: seq<MaskField>, specs: seq<Spec>)
    requires |entries| == |fields| == |specs| > 0 && EntriesHold(entries[..1], fields[..1], specs[..1])
    requires EntriesHold(entries[1..], fields[1..], specs[1..])
    ensures EntriesHold(entries, fields, specs)
  {
    forall k | 0 <= k < |fields|
      ensures && ValidSpec(specs[k]) && IsU64(entries[k].0) && IsU64(entries[k].1) && Inside(entries[k].1, entries[k].0)
         && WriteBits(specs[k], 0, fields[k].value) == Ok(entries[k].1)
         && (forall i: nat :: Bit(entries[k].0, i) == Occupied(specs[k].segments, i))
    {
      if k == 0 {
        assert specs[..1][0] == specs[0];
      } else {
        assert specs[1..][k - 1] == specs[k] && fields[1..][k - 1] == fields[k] && entries[1..][k - 1] == entries[k];
      }
    }
  }

  /** Each entry's mask covers its field. */
  ghost predicate Covered(entries: seq<(nat, nat)>, specs: seq<Spec>) {
    |entries| == |specs| && ValidEntries(entries)
    && forall k, i: nat | 0 <= k < |entries| :: Bit(entries[k].0, i) == Under(specs, k, i)
  }

  lemma CoveredTail(entries: seq<(nat, nat)>, specs: seq<Spec>)
    requires entries != [] && Covered(entries, specs)
    ensures Covered(entries[1..], specs[1..])
    ensures forall k: nat, i: nat :: Under(specs[1..], k, i) == Under(specs, k + 1, i)
  {
    forall k: nat, i: nat ensures Under(specs[1..], k, i) == Under(specs, k + 1, i) {
      if k < |specs| - 1 { assert specs[1..][k] == specs[k + 1]; }
    }
    forall k, i: nat | 0 <= k < |entries[1..]| ensures Bit(entries[1..][k].0, i) == Under(specs[1..], k, i) {
      assert entries[1..][k] == entries[k + 1];
    }
  }

  lemma FoldStep(entries: seq<(nat, nat)>, mask: nat, value: nat, i: nat)
    requires entries != [] && ValidEntries(entries) && IsU64(mask) && IsU64(value)
    ensures var m, v := Or(mask, entries[0].0), Overlay(value, entries[0].0, entries[0].1);
      && IsU64(m) && IsU64(v) && PatternFold(entries, mask, value) == PatternFold(entries[1..], m, v)
      && Bit(m, i) == (Bit(mask, i) || Bit(entries[0].0, i))
      && Bit(v, i) == if Bit(entries[0].0, i) then Bit(entries[0].1, i) else Bit(value, i)
  {
    assert entries[0] in entries;
    OrIsU64(mask, entries[0].0);
    OverlayBit(value, entries[0].0, entries[0].1, i);
    BitOr(mask, entries[0].0, i);
  }

  /** Bits under no field stay as they were. */
  lemma {:induction false} FoldKeeps(entries: seq<(nat, nat)>, specs: seq<Spec>, mask: nat, value: nat, i: nat)
    requires Covered(entries, specs) && IsU64(mask) && IsU64(value) && forall k: nat :: !Under(specs, k, i)
    ensures var (m, v) := PatternFold(entries, mask, value); Bit(m, i) == Bit(mask, i) && Bit(v, i) == Bit(value, i)
    decreases |entries|
  {
    if entries != [] {
      CoveredTail(entries, specs);
      FoldStep(entries, mask, value, i);
      assert !Bit(entries[0].0, i) by { assert !Under(specs, 0, i); }
      FoldKeeps(entries[1..], specs[1..], Or(mask, entries[0].0), Overlay(value, entries[0].0, entries[0].1), i);
    }
  }

  ghost predicate OnlyUnder(specs: seq<Spec>, k: nat, i: nat) {
    Under(specs, k, i) && forall l: nat :: Under(specs, l, i) ==> l == k
  }

  /** A bit under one field alone is fixed to the bit of its constant. */
  lemma {:induction false} FoldFixes(entries: seq<(nat, nat)>, specs: seq<Spec>, mask: nat, value: nat, k: nat, i: nat)
    requires Covered(entries, specs) && IsU64(mask) && IsU64(value) && OnlyUnder(specs, k, i)
    ensures var (m, v) := PatternFold(entries, mask, value); Bit(m, i) && Bit(v, i) == Bit(entries[k].1, i)
    decreases |entries|
  {
    CoveredTail(entries, specs);
    FoldStep(entries, mask, value, i);
    var m, v := Or(mask, entries[0].0), Overlay(value, entries[0].0, entries[0].1);
    if k == 0 {
      forall l: nat ensures !Under(specs[1..], l, i) { assert Under(specs[1..], l, i) == Under(specs, l + 1, i); }
      FoldKeeps(entries[1..], specs[1..], m, v, i);
    } else {
      forall l: nat | Under(specs[1..], l, i) ensures l == k - 1 { assert Under(specs, l + 1, i); }
      assert Under(specs[1..], k - 1, i);
      FoldFixes(entries[1..], specs[1..], m, v, k - 1, i);
    }
  }

  /** The word has the bits of the constant under the field. */
  ghost predicate HasConstant(bits: nat, spec: Spec, encoded: nat) {
    forall i: nat | Occupied(spec.segments, i) :: Bit(bits, i) == Bit(encoded, i)
  }

  /** Which is to say that the field reads the constant. */
  lemma ConstantReads(bits: nat, spec: Spec, value: nat, encoded: nat)
    requires ValidSpec(spec) && Disjoint(spec.segments) && IsU64(bits) && IsU64(value) && WriteBits(spec, 0, value) == Ok(encoded)
    ensures HasConstant(bits, spec, encoded) <==> ReadBits(spec, bits).0 == value
  {
    WriteAccepts(spec, 0, value);
    WriteBitsBits(spec, 0, value);
    if HasConstant(bits, spec, encoded) {
      ReadLocal(spec, bits, encoded);
      PutGet(spec, 0, value);
    }
    if ReadBits(spec, bits).0 == value {
      GetPut(spec, bits);
      WriteBitsBits(spec, bits, value);
      forall i: nat | Occupied(spec.segments, i) ensures Bit(bits, i) == Bit(encoded, i) {
        WrittenIffOccupied(spec.segments, value, i);
      }
    }
  }

  lemma PatternMatches(entries: seq<(nat, nat)>, specs: seq<Spec>, bits: nat)
    requires Covered(entries, specs) && AllDisjoint(specs)
    ensures var (m, v) := PatternFold(entries, 0, 0);
      And(bits, m) == v <==> forall k | 0 <= k < |specs| :: HasConstant(bits, specs[k], entries[k].1)
  {
    var (m, v) := PatternFold(entries, 0, 0);
    if And(bits, m) == v {
      forall k | 0 <= k < |specs| ensures HasConstant(bits, specs[k], entries[k].1) {
        forall i: nat | Occupied(specs[k].segments, i) ensures Bit(bits, i) == Bit(entries[k].1, i) {
          assert OnlyUnder(specs, k, i);
          FoldFixes(entries, specs, 0, 0, k, i);
          BitAnd(bits, m, i);
        }
      }
    }
    if forall k | 0 <= k < |specs| :: HasConstant(bits, specs[k], entries[k].1) {
      forall i: nat ensures Bit(And(bits, m), i) == Bit(v, i) {
        BitAnd(bits, m, i);
        BitZero(i);
        if k: nat :| Under(specs, k, i) {
          assert OnlyUnder(specs, k, i);
          FoldFixes(entries, specs, 0, 0, k, i);
          assert HasConstant(bits, specs[k], entries[k].1);
        } else {
          FoldKeeps(entries, specs, 0, 0, i);
        }
      }
      BitExt(And(bits, m), v);
    }
  }

  /** A word matches the pattern of an instruction whose mask fields share no bit exactly when each of them, read from the
      word, is its constant. */
  lemma MatchMeans(space: Space, idx: nat, instr: Instruction, pattern: Pattern, specs: seq<Spec>, bits: nat)
    requires space.logic && FormsBuilt(space) && BuildPattern(space, idx, instr) == Ok(Some(pattern)) && IsU64(bits)
    requires Selects(instr, space, instr.mask.value, specs) && AllDisjoint(specs)
    ensures Matches(pattern, instr.space, bits) <==>
      forall k | 0 <= k < |specs| :: ReadBits(specs[k], bits).0 == instr.mask.value[k].value
  {
    var fields := instr.mask.value;
    var entries := MaskEntries(instr, space, space.wordBits.value, fields).value;
    EntriesMean(instr, space, fields, specs);
    EntriesValid(instr, space, space.wordBits.value, fields);
    PatternMatches(entries, specs, bits);
    forall k | 0 <= k < |specs|
      ensures HasConstant(bits, specs[k], entries[k].1) <==> ReadBits(specs[k], bits).0 == fields[k].value
    {
      ConstantReads(bits, specs[k], fields[k].value, entries[k].1);
    }
  }

  /** The specificity of a pattern is the number of its fixed bits. */
  function SetBits(x: nat, n: nat): nat {
    if n == 0 then 0 else SetBits(x, n - 1) + (if Bit(x, n - 1) then 1 else 0)
  }

  lemma {:induction false} SetBitsHalf(x: nat, n: nat)
    ensures SetBits(x, n + 1) == (if Bit(x, 0) then 1 else 0) + SetBits(x / 2, n)
  {
    if n > 0 { SetBitsHalf(x, n - 1); }
  }

  lemma {:induction false} SpecificityMeans(x: nat, n: nat)
    requires x < Pow2(n)
    ensures CountOnes(x) == SetBits(x, n)
    decreases n
  {
    if n == 0 {
      assert CountOnes(0) == 0;
    } else {
      SetBitsHalf(x, n - 1);
      SpecificityMeans(x / 2, n - 1);
    }
  }
}
