/** The decoder of `src/soc/isa/machine/disassembly.rs`: width-ordered space selection,
    most-specific match, and the two loops that walk a byte stream. */
module Decoding {
  import opened Words
  import opened Results
  import opened Seqs
  import opened BitFields
  import opened BitFieldLaws
  import opened Machine
  import opened Encoding

  /** A word size in bytes; a word of no bytes would keep the walking loops in place for ever. */
  type Positive = n: nat | 0 < n < WORD witness 1

  datatype DecodeSpace = DecodeSpace(
    name: string, wordBits: nat, wordBytes: Positive, mask: nat, endianness: Endianness, enable: Option<EnableExpr>)

  /** What `build_decode_spaces` establishes for whole-byte words of 8 to 64 bits. */
  predicate ValidDecodeSpace(space: DecodeSpace) {
    && 0 < space.wordBits <= 64 && space.wordBits == 8 * space.wordBytes
    && space.mask == MaskForWidth(space.wordBits)
  }

  predicate ByWidth(spaces: seq<DecodeSpace>) {
    && (forall s | s in spaces :: ValidDecodeSpace(s))
    && (forall k, l | 0 <= k < l < |spaces| :: spaces[k].wordBits <= spaces[l].wordBits)
  }

  function ToDecodeSpace(space: Space): DecodeSpace
    requires ValidSpace(space)
  {
    DecodeSpace(space.name, space.wordBits.value, space.wordBits.value / 8,
                MaskForWidth(space.wordBits.value), space.endianness, space.enable)
  }

  function InsertByWidth(space: DecodeSpace, sorted: seq<DecodeSpace>): seq<DecodeSpace> {
    if sorted == [] || space.wordBits <= sorted[0].wordBits then [space] + sorted
    else [sorted[0]] + InsertByWidth(space, sorted[1..])
  }

  /** The logic spaces, taken in name order and sorted by width; names order the ties. */
  function BuildDecodeSpaces(spaces: seq<Space>): seq<DecodeSpace>
    requires forall s | s in spaces :: s.logic ==> ValidSpace(s)
  {
    if spaces == [] then []
    else if spaces[0].logic then InsertByWidth(ToDecodeSpace(spaces[0]), BuildDecodeSpaces(spaces[1..]))
    else BuildDecodeSpaces(spaces[1..])
  }

  lemma {:induction false} InsertKeepsContents(space: DecodeSpace, sorted: seq<DecodeSpace>)
    ensures multiset(InsertByWidth(space, sorted)) == multiset{space} + multiset(sorted)
  {
    if sorted != [] && sorted[0].wordBits < space.wordBits {
      InsertKeepsContents(space, sorted[1..]);
      assert sorted == [sorted[0]] + sorted[1..];
    }
  }

  lemma {:induction false} InsertKeepsOrder(space: DecodeSpace, sorted: seq<DecodeSpace>)
    requires ByWidth(sorted) && ValidDecodeSpace(space)
    ensures ByWidth(InsertByWidth(space, sorted))
    ensures forall s | s in InsertByWidth(space, sorted) :: s == space || s in sorted
  {
    var result := InsertByWidth(space, sorted);
    if sorted != [] && sorted[0].wordBits < space.wordBits {
      InsertKeepsOrder(space, sorted[1..]);
      forall k, l | 0 <= k < l < |result| ensures result[k].wordBits <= result[l].wordBits {
        var rest := InsertByWidth(space, sorted[1..]);
        assert result[l] == rest[l - 1] && rest[l - 1] in rest;
        if k > 0 { assert result[k] == rest[k - 1]; }
      }
    } else {
      forall k, l | 0 <= k < l < |result| ensures result[k].wordBits <= result[l].wordBits {
        assert result[l] == sorted[l - 1];
        assert sorted[0].wordBits <= sorted[l - 1].wordBits;
      }
    }
  }

  /** The logic spaces of a description, in its order. */
  function LogicSpaces(spaces: seq<Space>): seq<DecodeSpace>
    requires forall s | s in spaces :: s.logic ==> ValidSpace(s)
  {
    if spaces == [] then []
    else if spaces[0].logic then [ToDecodeSpace(spaces[0])] + LogicSpaces(spaces[1..])
    else LogicSpaces(spaces[1..])
  }

  /** The decode spaces are the logic spaces, in order of width. */
  lemma {:induction false} DecodeSpacesSorted(spaces: seq<Space>)
    requires forall s | s in spaces :: s.logic ==> ValidSpace(s)
    ensures ByWidth(BuildDecodeSpaces(spaces))
    ensures multiset(BuildDecodeSpaces(spaces)) == multiset(LogicSpaces(spaces))
  {
    if spaces != [] {
      DecodeSpacesSorted(spaces[1..]);
      if spaces[0].logic {
        assert spaces[0] in spaces;
        var rest := BuildDecodeSpaces(spaces[1..]);
        InsertKeepsOrder(ToDecodeSpace(spaces[0]), rest);
        InsertKeepsContents(ToDecodeSpace(spaces[0]), rest);
      }
    }
  }

  // ---- Words ----

  /** `decode_word` */
  function DecodeWord(bytes: seq<Byte>, endianness: Endianness): nat {
    if bytes == [] then 0
    else if endianness.Little? then bytes[0] + 256 * DecodeWord(bytes[1..], endianness)
    else 256 * DecodeWord(bytes[..|bytes| - 1], endianness) + bytes[|bytes| - 1]
  }

  datatype EnableValue = Number(number: nat) | Flag(flag: bool)

  function AsBool(v: EnableValue): bool {
    if v.Flag? then v.flag else v.number != 0
  }

  function AsNumber(v: EnableValue): nat {
    if v.Number? then v.number else if v.flag then 1 else 0
  }

  function Evaluate(expr: EnableExpr, bits: nat): EnableValue {
    match expr
    case EnableLiteral(value) => Number(value)
    case EnableBool(flag) => Flag(flag)
    case EnableField(spec) => Number(ReadBits(spec, bits).0)
    case EnableBinary(op, lhs, rhs) =>
      match op
      case EnableEq => Flag(AsNumber(Evaluate(lhs, bits)) == AsNumber(Evaluate(rhs, bits)))
      case EnableNe => Flag(AsNumber(Evaluate(lhs, bits)) != AsNumber(Evaluate(rhs, bits)))
      case EnableAnd => if !AsBool(Evaluate(lhs, bits)) then Flag(false) else Flag(AsBool(Evaluate(rhs, bits)))
      case EnableOr => if AsBool(Evaluate(lhs, bits)) then Flag(true) else Flag(AsBool(Evaluate(rhs, bits)))
  }

  /** The word a space sees at the head of the bytes. */
  function HeadWord(space: DecodeSpace, bytes: seq<Byte>): nat
    requires space.wordBytes <= |bytes|
  {
    And(DecodeWord(bytes[..space.wordBytes], space.endianness), space.mask)
  }

  predicate AcceptsHead(space: DecodeSpace, bytes: seq<Byte>) {
    space.wordBytes <= |bytes| &&
    (space.enable.None? || AsBool(Evaluate(space.enable.value, HeadWord(space, bytes))))
  }

  /** `select_space`: the first space that fits and is enabled. */
  function SelectSpace(spaces: seq<DecodeSpace>, bytes: seq<Byte>): (r: Option<DecodeSpace>)
    ensures r.Some? ==> AcceptsHead(r.value, bytes)
  {
    if spaces == [] then None
    else if AcceptsHead(spaces[0], bytes) then Some(spaces[0])
    else SelectSpace(spaces[1..], bytes)
  }

  /** The selected space accepts, and every space before it does not. */
  lemma {:induction false} SelectSpaceFirst(spaces: seq<DecodeSpace>, bytes: seq<Byte>)
    ensures SelectSpace(spaces, bytes).None? <==> forall s | s in spaces :: !AcceptsHead(s, bytes)
    ensures SelectSpace(spaces, bytes).Some? ==> exists k ::
      && 0 <= k < |spaces| && SelectSpace(spaces, bytes).value == spaces[k]
      && AcceptsHead(spaces[k], bytes) && forall j | 0 <= j < k :: !AcceptsHead(spaces[j], bytes)
  {
    if spaces != [] && !AcceptsHead(spaces[0], bytes) {
      SelectSpaceFirst(spaces[1..], bytes);
      if SelectSpace(spaces, bytes).Some? {
        var k :| 0 <= k < |spaces[1..]| && SelectSpace(spaces[1..], bytes).value == spaces[1..][k]
          && AcceptsHead(spaces[1..][k], bytes) && forall j | 0 <= j < k :: !AcceptsHead(spaces[1..][j], bytes);
        forall j | 0 <= j < k + 1 ensures !AcceptsHead(spaces[j], bytes) {
          if j > 0 { assert spaces[1..][j - 1] == spaces[j]; }
        }
        assert spaces[k + 1] == spaces[1..][k];
      }
    }
  }

  // ---- Matching ----

  predicate Matches(pattern: Pattern, space: string, bits: nat) {
    pattern.space == space && And(bits, pattern.mask) == pattern.value
  }

  /** The last of the most specific matches among the first n patterns. */
  function BestOf(patterns: seq<Pattern>, n: nat, space: string, bits: nat): Option<Pattern>
    requires n <= |patterns|
  {
    if n == 0 then None
    else
      var earlier := BestOf(patterns, n - 1, space, bits);
      var last := patterns[n - 1];
      if Matches(last, space, bits) && (earlier.None? || earlier.value.specificity <= last.specificity)
      then Some(last) else earlier
  }

  /** `filter(..).max_by_key(specificity)` */
  function BestMatch(patterns: seq<Pattern>, space: string, bits: nat): Option<Pattern> {
    BestOf(patterns, |patterns|, space, bits)
  }

  /** Among the first n patterns, a match at index k that no other match beats, and none after it equals. */
  ghost predicate WinsAmong(patterns: seq<Pattern>, n: nat, space: string, bits: nat, k: nat)
    requires n <= |patterns|
  {
    && k < n && Matches(patterns[k], space, bits)
    && (forall j | 0 <= j < k && Matches(patterns[j], space, bits) :: patterns[j].specificity <= patterns[k].specificity)
    && (forall j | k < j < n && Matches(patterns[j], space, bits) :: patterns[j].specificity < patterns[k].specificity)
  }

  ghost predicate Wins(patterns: seq<Pattern>, space: string, bits: nat, k: nat) {
    WinsAmong(patterns, |patterns|, space, bits, k)
  }

  lemma {:induction false} BestOfWins(patterns: seq<Pattern>, n: nat, space: string, bits: nat) returns (k: nat)
    requires n <= |patterns|
    ensures BestOf(patterns, n, space, bits).None? ==> forall j | 0 <= j < n :: !Matches(patterns[j], space, bits)
    ensures BestOf(patterns, n, space, bits).Some? ==>
      WinsAmong(patterns, n, space, bits, k) && BestOf(patterns, n, space, bits) == Some(patterns[k])
  {
    k := 0;
    if n > 0 {
      k := BestOfWins(patterns, n - 1, space, bits);
      if BestOf(patterns, n, space, bits) != BestOf(patterns, n - 1, space, bits) {
        k := n - 1;
      } else if Matches(patterns[n - 1], space, bits) && BestOf(patterns, n - 1, space, bits).value.specificity <= patterns[n - 1].specificity {
        k := n - 1;
      }
    }
  }

  /** `best_match` finds the winner when something matches, and only then. */
  lemma BestMatchWins(patterns: seq<Pattern>, space: string, bits: nat)
    ensures BestMatch(patterns, space, bits).None? <==> forall k | 0 <= k < |patterns| :: !Matches(patterns[k], space, bits)
    ensures BestMatch(patterns, space, bits).Some? ==>
      exists k: nat :: Wins(patterns, space, bits, k) && BestMatch(patterns, space, bits) == Some(patterns[k])
  {
    var k := BestOfWins(patterns, |patterns|, space, bits);
    if BestMatch(patterns, space, bits).Some? { assert Wins(patterns, space, bits, k); }
  }

  /** A match that every other match is strictly less specific than is the one chosen. */
  lemma UniqueWinner(patterns: seq<Pattern>, space: string, bits: nat, pattern: Pattern)
    requires pattern in patterns && Matches(pattern, space, bits)
    requires forall p | p in patterns && p != pattern && Matches(p, space, bits) :: p.specificity < pattern.specificity
    ensures BestMatch(patterns, space, bits) == Some(pattern)
  {
    var k := BestOfWins(patterns, |patterns|, space, bits);
    var own :| 0 <= own < |patterns| && patterns[own] == pattern;
    assert Matches(patterns[own], space, bits) && patterns[k] in patterns;
  }

  /** Fewer mask bits, all of them shared: strictly less specific. */
  lemma {:induction false} SubMaskLessSpecific(a: nat, b: nat)
    requires And(a, b) == a && a != b
    ensures CountOnes(a) < CountOnes(b)
    decreases a + b
  {
    if a == 0 {
      PositiveOnes(b);
    } else {
      assert b != 0;
      assert And(a, b) == 2 * And(a / 2, b / 2) + (if a % 2 == 1 && b % 2 == 1 then 1 else 0);
      assert And(a / 2, b / 2) == a / 2 && (a % 2 == 1 ==> b % 2 == 1);
      if a / 2 != b / 2 { SubMaskLessSpecific(a / 2, b / 2); }
    }
  }

  lemma {:induction false} PositiveOnes(b: nat)
    requires b > 0
    ensures CountOnes(b) > 0
  {
    if b % 2 == 0 { PositiveOnes(b / 2); }
  }

  /** A pattern whose mask is a strict part of another match's mask is never chosen. */
  lemma GeneralPatternLoses(patterns: seq<Pattern>, space: string, bits: nat, j: nat, k: nat)
    requires forall p | p in patterns :: p.specificity == CountOnes(p.mask)
    requires j < |patterns| && k < |patterns|
    requires Matches(patterns[j], space, bits) && Matches(patterns[k], space, bits)
    requires And(patterns[j].mask, patterns[k].mask) == patterns[j].mask && patterns[j].mask != patterns[k].mask
    ensures BestMatch(patterns, space, bits).Some? && BestMatch(patterns, space, bits).value.mask != patterns[j].mask
  {
    SubMaskLessSpecific(patterns[j].mask, patterns[k].mask);
    BestMatchWins(patterns, space, bits);
    var w: nat :| Wins(patterns, space, bits, w) && BestMatch(patterns, space, bits) == Some(patterns[w]);
    assert patterns[w] in patterns && patterns[k] in patterns;
  }

  // ---- The stream ----

  /** One word of a listing; `pattern` is absent for an "unknown" line. */
  datatype Entry = Entry(address: U64, bits: nat, size: Positive, endianness: Endianness, pattern: Option<Pattern>)

  datatype Decoder = Decoder(spaces: seq<DecodeSpace>, patterns: seq<Pattern>)

  /** `address += size` on 64 bits */
  function AdvanceAddress(address: U64, size: Positive): U64 {
    if address + size < WORD then address + size else address + size - WORD
  }

  /** The word at the cursor, if a space accepts it. */
  function HeadEntry(d: Decoder, bytes: seq<Byte>, cursor: nat, address: U64): (r: Option<Entry>)
    requires cursor <= |bytes|
    ensures r.Some? ==> cursor + r.value.size <= |bytes|
  {
    var remaining := bytes[cursor..];
    var space := SelectSpace(d.spaces, remaining);
    if space.None? then None
    else
      var bits := HeadWord(space.value, remaining);
      Some(Entry(address, bits, space.value.wordBytes, space.value.endianness,
                 BestMatch(d.patterns, space.value.name, bits)))
  }

  /** `disassemble_from`, from the cursor on */
  function Disassemble(d: Decoder, bytes: seq<Byte>, cursor: nat, address: U64): seq<Entry>
    requires cursor <= |bytes|
    decreases |bytes| - cursor
  {
    if cursor == |bytes| then []
    else
      var head := HeadEntry(d, bytes, cursor, address);
      if head.None? then []
      else [head.value] + Disassemble(d, bytes, cursor + head.value.size, AdvanceAddress(address, head.value.size))
  }

  lemma DisassembleCons(d: Decoder, bytes: seq<Byte>, cursor: nat, address: U64, entry: Entry)
    requires cursor < |bytes| && HeadEntry(d, bytes, cursor, address) == Some(entry)
    ensures cursor + entry.size <= |bytes|
    ensures Disassemble(d, bytes, cursor, address)
      == [entry] + Disassemble(d, bytes, cursor + entry.size, AdvanceAddress(address, entry.size))
  {}

  /** The three choices made at the cursor determine the entry. */
  lemma HeadEntryIs(d: Decoder, bytes: seq<Byte>, cursor: nat, address: U64, space: DecodeSpace, word: nat, pattern: Option<Pattern>)
    requires cursor <= |bytes| && SelectSpace(d.spaces, bytes[cursor..]) == Some(space)
    requires HeadWord(space, bytes[cursor..]) == word && BestMatch(d.patterns, space.name, word) == pattern
    ensures HeadEntry(d, bytes, cursor, address) == Some(Entry(address, word, space.wordBytes, space.endianness, pattern))
  {}

  function Matched(listing: seq<Entry>): seq<Entry> {
    if listing == [] then []
    else Maybe(listing[0].pattern.Some?, listing[0]) + Matched(listing[1..])
  }

  /** `decode_instructions`, a copy of the listing loop that keeps only the matches. */
  function Decode(d: Decoder, bytes: seq<Byte>, cursor: nat, address: U64): seq<Entry>
    requires cursor <= |bytes|
    decreases |bytes| - cursor
  {
    if cursor == |bytes| then []
    else
      var head := HeadEntry(d, bytes, cursor, address);
      if head.None? then []
      else
        Maybe(head.value.pattern.Some?, head.value)
        + Decode(d, bytes, cursor + head.value.size, AdvanceAddress(address, head.value.size))
  }

  /** The decoded entries are exactly the matched words of the listing. */
  lemma {:induction false} DecodeIsMatched(d: Decoder, bytes: seq<Byte>, cursor: nat, address: U64)
    requires cursor <= |bytes|
    ensures Decode(d, bytes, cursor, address) == Matched(Disassemble(d, bytes, cursor, address))
    decreases |bytes| - cursor
  {
    if cursor < |bytes| {
      var head := HeadEntry(d, bytes, cursor, address);
      if head.Some? {
        var next := AdvanceAddress(address, head.value.size);
        DecodeIsMatched(d, bytes, cursor + head.value.size, next);
        ConsTail(head.value, Disassemble(d, bytes, cursor + head.value.size, next));
      }
    }
  }

  lemma ListingStep(d: Decoder, bytes: seq<Byte>, cursor: nat, address: U64, head: Entry, listing: seq<Entry>)
    requires cursor < |bytes| && HeadEntry(d, bytes, cursor, address) == Some(head)
    ensures listing + Disassemble(d, bytes, cursor, address) ==
            (listing + [head]) + Disassemble(d, bytes, cursor + head.size, AdvanceAddress(address, head.size))
  {
    AppendAssoc(listing, [head], Disassemble(d, bytes, cursor + head.size, AdvanceAddress(address, head.size)));
  }

  lemma DecodeStep(d: Decoder, bytes: seq<Byte>, cursor: nat, address: U64, head: Entry, entries: seq<Entry>)
    requires cursor < |bytes| && HeadEntry(d, bytes, cursor, address) == Some(head)
    ensures var rest := Decode(d, bytes, cursor + head.size, AdvanceAddress(address, head.size));
      && (head.pattern.Some? ==> entries + Decode(d, bytes, cursor, address) == (entries + [head]) + rest)
      && (head.pattern.None? ==> entries + Decode(d, bytes, cursor, address) == entries + rest)
  {
    AppendMaybe(entries, head.pattern.Some?, head, Decode(d, bytes, cursor + head.size, AdvanceAddress(address, head.size)));
  }

  /** Where the loops stop nothing is left to list. */
  lemma ListingEnds(d: Decoder, bytes: seq<Byte>, cursor: nat, address: U64, listing: seq<Entry>)
    requires cursor <= |bytes| && (cursor == |bytes| || HeadEntry(d, bytes, cursor, address).None?)
    ensures listing + Disassemble(d, bytes, cursor, address) == listing
    ensures listing + Decode(d, bytes, cursor, address) == listing
  {}

  method DisassembleFrom(d: Decoder, bytes: seq<Byte>, base: U64) returns (listing: seq<Entry>)
    ensures listing == Disassemble(d, bytes, 0, base)
  {
    var cursor, address := 0, base;
    listing := [];
    while cursor < |bytes|
      invariant 0 <= cursor <= |bytes|
      invariant listing + Disassemble(d, bytes, cursor, address) == Disassemble(d, bytes, 0, base)
    {
      var head := HeadEntry(d, bytes, cursor, address);
      if head.None? { break; }
      ListingStep(d, bytes, cursor, address, head.value, listing);
      listing := listing + [head.value];
      cursor, address := cursor + head.value.size, AdvanceAddress(address, head.value.size);
    }
    ListingEnds(d, bytes, cursor, address, listing);
  }

  method DecodeInstructions(d: Decoder, bytes: seq<Byte>, base: U64) returns (entries: seq<Entry>)
    ensures entries == Decode(d, bytes, 0, base)
  {
    var cursor, address := 0, base;
    entries := [];
    while cursor < |bytes|
      invariant 0 <= cursor <= |bytes|
      invariant entries + Decode(d, bytes, cursor, address) == Decode(d, bytes, 0, base)
    {
      var head := HeadEntry(d, bytes, cursor, address);
      if head.None? { break; }
      DecodeStep(d, bytes, cursor, address, head.value, entries);
      if head.value.pattern.Some? {
        entries := entries + [head.value];
      }
      cursor, address := cursor + head.value.size, AdvanceAddress(address, head.value.size);
    }
    ListingEnds(d, bytes, cursor, address, entries);
  }

  // ---- A listing loses nothing ----

  /** The bytes a listing was read from. */
  function ListingBytes(listing: seq<Entry>): seq<Byte> {
    if listing == [] then []
    else WordBytes(listing[0].bits, listing[0].size, listing[0].endianness) + ListingBytes(listing[1..])
  }

  function ListingSize(listing: seq<Entry>): nat {
    if listing == [] then 0 else listing[0].size + ListingSize(listing[1..])
  }

  lemma {:induction false} DecodeWordBound(bytes: seq<Byte>, endianness: Endianness)
    ensures DecodeWord(bytes, endianness) < Pow2(8 * |bytes|)
    decreases |bytes|
  {
    if bytes != [] {
      var n := |bytes|;
      Pow2Add(8, 8 * (n - 1));
      assert Pow2(8) == 256;
      if endianness.Little? { DecodeWordBound(bytes[1..], endianness); } else { DecodeWordBound(bytes[..n - 1], endianness); }
    }
  }

  lemma {:induction false} BytesOfLittle(bytes: seq<Byte>, k: nat)
    requires k < |bytes|
    ensures Shr(DecodeWord(bytes, Little), 8 * k) % 256 == bytes[k]
    decreases |bytes|
  {
    var w := DecodeWord(bytes, Little);
    var rest := DecodeWord(bytes[1..], Little);
    assert w == bytes[0] + 256 * rest;
    if k == 0 {
      assert Shr(w, 0) == w;
    } else {
      ShiftByte(w, k);
      assert w / 256 == rest;
      BytesOfLittle(bytes[1..], k - 1);
    }
  }

  lemma {:induction false} BytesOfBig(bytes: seq<Byte>, k: nat)
    requires k < |bytes|
    ensures Shr(DecodeWord(bytes, Big), 8 * (|bytes| - 1 - k)) % 256 == bytes[k]
    decreases |bytes|
  {
    var n, w := |bytes|, DecodeWord(bytes, Big);
    var front := DecodeWord(bytes[..n - 1], Big);
    assert w == 256 * front + bytes[n - 1];
    if k == n - 1 {
      assert Shr(w, 0) == w;
    } else {
      ShiftByte(w, n - 1 - k);
      assert w / 256 == front;
      BytesOfBig(bytes[..n - 1], k);
    }
  }

  lemma ShiftByte(w: nat, k: nat)
    requires k > 0
    ensures Shr(w, 8 * k) == Shr(w / 256, 8 * (k - 1))
  {
    assert Pow2(8) == 256;
    DivPow2Add(w, 8, 8 * (k - 1));
  }

  lemma BytesOfWord(bytes: seq<Byte>, endianness: Endianness)
    ensures WordBytes(DecodeWord(bytes, endianness), |bytes|, endianness) == bytes
  {
    forall k | 0 <= k < |bytes| ensures WordByte(DecodeWord(bytes, endianness), |bytes|, endianness, k) == bytes[k] {
      if endianness.Little? { BytesOfLittle(bytes, k); } else { BytesOfBig(bytes, k); }
    }
    WordBytesAre(DecodeWord(bytes, endianness), |bytes|, endianness, bytes);
  }

  lemma HeadWordIsWord(space: DecodeSpace, bytes: seq<Byte>)
    requires ValidDecodeSpace(space) && space.wordBytes <= |bytes|
    ensures HeadWord(space, bytes) == DecodeWord(bytes[..space.wordBytes], space.endianness)
  {
    var w := DecodeWord(bytes[..space.wordBytes], space.endianness);
    DecodeWordBound(bytes[..space.wordBytes], space.endianness);
    MaskIs(space.wordBits);
    AndLowMask(w, space.wordBits);
    ModSmall(w, Pow2(space.wordBits));
  }

  /** The entry's word, laid out again, is what the bytes hold at the cursor. */
  predicate EntryAt(e: Entry, bytes: seq<Byte>, cursor: nat) {
    cursor + e.size <= |bytes| && WordBytes(e.bits, e.size, e.endianness) == bytes[cursor..cursor + e.size]
  }

  predicate Tiles(listing: seq<Entry>, bytes: seq<Byte>, cursor: nat) {
    listing == [] || (EntryAt(listing[0], bytes, cursor) && Tiles(listing[1..], bytes, cursor + listing[0].size))
  }

  lemma HeadEntryBytes(d: Decoder, bytes: seq<Byte>, cursor: nat, address: U64)
    requires ByWidth(d.spaces) && cursor <= |bytes| && HeadEntry(d, bytes, cursor, address).Some?
    ensures EntryAt(HeadEntry(d, bytes, cursor, address).value, bytes, cursor)
  {
    var remaining := bytes[cursor..];
    var space := SelectSpace(d.spaces, remaining).value;
    SelectSpaceFirst(d.spaces, remaining);
    HeadWordIsWord(space, remaining);
    BytesOfWord(remaining[..space.wordBytes], space.endianness);
  }

  /** The listing stops at the end of the input, or where no space accepts what is left. */
  lemma {:induction false} ListingStops(d: Decoder, bytes: seq<Byte>, cursor: nat, address: U64, listing: seq<Entry>)
    requires cursor <= |bytes| && listing == Disassemble(d, bytes, cursor, address)
    ensures cursor + ListingSize(listing) <= |bytes|
    ensures cursor + ListingSize(listing) < |bytes| ==>
      SelectSpace(d.spaces, bytes[cursor + ListingSize(listing)..]).None?
    decreases |bytes| - cursor
  {
    if listing != [] {
      var head := HeadEntry(d, bytes, cursor, address).value;
      var next := cursor + head.size;
      var rest := Disassemble(d, bytes, next, AdvanceAddress(address, head.size));
      DisassembleCons(d, bytes, cursor, address, head);
      ConsTail(head, rest);
      ListingStops(d, bytes, next, AdvanceAddress(address, head.size), rest);
      assert cursor + ListingSize(listing) == next + ListingSize(rest);
    } else if cursor < |bytes| {
      assert HeadEntry(d, bytes, cursor, address).None?;
    }
  }

  lemma {:induction false} ListingTiles(d: Decoder, bytes: seq<Byte>, cursor: nat, address: U64)
    requires ByWidth(d.spaces) && cursor <= |bytes|
    ensures Tiles(Disassemble(d, bytes, cursor, address), bytes, cursor)
    decreases |bytes| - cursor
  {
    if cursor < |bytes| && HeadEntry(d, bytes, cursor, address).Some? {
      var head := HeadEntry(d, bytes, cursor, address).value;
      HeadEntryBytes(d, bytes, cursor, address);
      ListingTiles(d, bytes, cursor + head.size, AdvanceAddress(address, head.size));
      ConsTail(head, Disassemble(d, bytes, cursor + head.size, AdvanceAddress(address, head.size)));
    }
  }

  lemma {:induction false} TilesAreBytes(listing: seq<Entry>, bytes: seq<Byte>, cursor: nat)
    requires cursor <= |bytes| && Tiles(listing, bytes, cursor)
    ensures cursor + ListingSize(listing) <= |bytes|
    ensures ListingBytes(listing) == bytes[cursor..cursor + ListingSize(listing)]
    decreases |listing|
  {
    if listing != [] {
      var middle, end := cursor + listing[0].size, cursor + ListingSize(listing);
      assert EntryAt(listing[0], bytes, cursor);
      TilesAreBytes(listing[1..], bytes, middle);
      assert ListingBytes(listing[1..]) == bytes[middle..end];
      JoinSlices(bytes, cursor, middle, end);
    }
  }

  /** The words of a listing, laid out again, are exactly the bytes it was read from. */
  lemma ListingLosesNothing(d: Decoder, bytes: seq<Byte>, address: U64)
    requires ByWidth(d.spaces)
    ensures var listing := Disassemble(d, bytes, 0, address);
      ListingSize(listing) <= |bytes| && ListingBytes(listing) == bytes[..ListingSize(listing)]
  {
    ListingTiles(d, bytes, 0, address);
    TilesAreBytes(Disassemble(d, bytes, 0, address), bytes, 0);
  }

  /** Every entry stands one word after the one before. */
  predicate Chained(listing: seq<Entry>, address: U64) {
    listing == [] || (listing[0].address == address && Chained(listing[1..], AdvanceAddress(address, listing[0].size)))
  }

  lemma {:induction false} DisassembleChained(d: Decoder, bytes: seq<Byte>, cursor: nat, address: U64)
    requires cursor <= |bytes|
    ensures Chained(Disassemble(d, bytes, cursor, address), address)
    decreases |bytes| - cursor
  {
    if cursor < |bytes| && HeadEntry(d, bytes, cursor, address).Some? {
      var head := HeadEntry(d, bytes, cursor, address).value;
      var rest := Disassemble(d, bytes, cursor + head.size, AdvanceAddress(address, head.size));
      DisassembleChained(d, bytes, cursor + head.size, AdvanceAddress(address, head.size));
      ConsTail(head, rest);
    }
  }

  lemma {:induction false} ChainedAddress(listing: seq<Entry>, address: U64, k: nat)
    requires Chained(listing, address) && k < |listing|
    ensures listing[k].address == (address + ListingSize(listing[..k])) % WORD
    decreases k
  {
    if k == 0 {
      ModSmall(address, WORD);
    } else {
      var before := ListingSize(listing[1..][..k - 1]);
      ChainedAddress(listing[1..], AdvanceAddress(address, listing[0].size), k - 1);
      assert listing[..k][1..] == listing[1..][..k - 1];
      WrapTwice(address, listing[0].size, before);
    }
  }

  /** Each address is the base plus the sizes of the words before it. */
  lemma ListingAddresses(d: Decoder, bytes: seq<Byte>, cursor: nat, address: U64, k: nat)
    requires cursor <= |bytes| && k < |Disassemble(d, bytes, cursor, address)|
    ensures var listing := Disassemble(d, bytes, cursor, address);
      listing[k].address == (address + ListingSize(listing[..k])) % WORD
  {
    DisassembleChained(d, bytes, cursor, address);
    ChainedAddress(Disassemble(d, bytes, cursor, address), address, k);
  }

  lemma WrapTwice(a: nat, b: nat, c: nat)
    ensures ((a + b) % WORD + c) % WORD == (a + (b + c)) % WORD
  {}

  // ---- The harness pairs decoded entries with listing lines ----

  /** `execute_block` zips the two lists; a pair is right when both come from the same word. */
  predicate PairedRight(listing: seq<Entry>, k: nat)
    requires k < |listing| && k < |Matched(listing)|
  {
    Matched(listing)[k] == listing[k]
  }

  lemma {:induction false} MatchedPrefix(listing: seq<Entry>, k: nat)
    requires k <= |listing| && forall j | 0 <= j < k :: listing[j].pattern.Some?
    ensures k <= |Matched(listing)| && Matched(listing)[..k] == listing[..k]
    decreases |listing|
  {
    if k > 0 { MatchedPrefix(listing[1..], k - 1); }
  }

  lemma {:induction false} MatchedAreMatched(listing: seq<Entry>)
    ensures |Matched(listing)| <= |listing|
    ensures forall e | e in Matched(listing) :: e.pattern.Some?
    decreases |listing|
  {
    if listing != [] { MatchedAreMatched(listing[1..]); }
  }

  /** The first k+1 pairs of the zip are right exactly when the first k+1 words all matched. */
  lemma PairingRightIff(listing: seq<Entry>, k: nat)
    requires k < |Matched(listing)|
    ensures k < |listing|
    ensures (forall j: nat | j <= k :: PairedRight(listing, j)) <==> forall j: nat | j <= k :: listing[j].pattern.Some?
  {
    MatchedAreMatched(listing);
    if forall j: nat | j <= k :: listing[j].pattern.Some? {
      MatchedPrefix(listing, k + 1);
      forall j: nat | j <= k ensures PairedRight(listing, j) {
        assert Matched(listing)[j] == Matched(listing)[..k + 1][j] == listing[..k + 1][j];
      }
    }
    if forall j: nat | j <= k :: PairedRight(listing, j) {
      forall j: nat | j <= k ensures listing[j].pattern.Some? {
        assert PairedRight(listing, j);
        assert Matched(listing)[j] in Matched(listing);
      }
    }
  }

  // ---- An input ----

  const BYTES: DecodeSpace := DecodeSpace("s", 8, 1, 255, Little, None)
  const ONE: Pattern := Pattern(0, "s", None, 255, 1, [], 8)

  lemma ByteEntry(bytes: seq<Byte>, cursor: nat, address: U64, b: Byte)
    requires cursor < |bytes| && bytes[cursor] == b && b < 2
    ensures HeadEntry(Decoder([BYTES], [ONE]), bytes, cursor, address)
            == Some(Entry(address, b, 1, Little, if b == 1 then Some(ONE) else None))
  {
    var remaining := bytes[cursor..];
    assert remaining[..1] == [b] && [b][1..] == [];
    assert DecodeWord([b], Little) == b;
    assert And(b, 255) == b;
    assert HeadWord(BYTES, remaining) == b;
    assert BestOf([ONE], 0, "s", b) == None;
  }

  /** Two words, the first of them unknown: the one decoded entry, which stands for the second word, is paired with the
      first line of the listing. */
  lemma UnknownWordShiftsPairs()
    ensures var d, bytes := Decoder([BYTES], [ONE]), [0, 1];
      var listing := Disassemble(d, bytes, 0, 0);
      && listing == [Entry(0, 0, 1, Little, None), Entry(1, 1, 1, Little, Some(ONE))]
      && Decode(d, bytes, 0, 0) == [listing[1]] && Matched(listing) == [listing[1]] && !PairedRight(listing, 0)
  {
    var d, bytes: seq<Byte> := Decoder([BYTES], [ONE]), [0, 1];
    var first, second := Entry(0, 0, 1, Little, None), Entry(1, 1, 1, Little, Some(ONE));
    ByteEntry(bytes, 0, 0, 0);
    ByteEntry(bytes, 1, 1, 1);
    DisassembleCons(d, bytes, 0, 0, first);
    DisassembleCons(d, bytes, 1, 1, second);
    assert Disassemble(d, bytes, 2, 2) == [];
    assert Disassemble(d, bytes, 1, 1) == [second];
    assert Disassemble(d, bytes, 0, 0) == [first, second];
    DecodeIsMatched(d, bytes, 0, 0);
    assert [first, second][1..] == [second] && [second][1..] == [];
    assert Matched([second]) == [second];
    assert Matched([first, second]) == [second];
  }
}
