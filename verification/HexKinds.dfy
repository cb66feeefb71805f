/** What the reader of Intel HEX files makes of a line, by the two digits of its kind
    (`obsolete/dotnet/programs/binary/IntelHexidecimalFile.cs`). */
module HexKinds {
  import opened Words
  import opened Results
  import opened IntelHex
  import opened HexImage

  /** The number that the hexadecimal digits spell. */
  function NumberOf(digits: string): nat {
    if digits == "" then 0 else 16 * NumberOf(digits[..|digits| - 1]) + Nibble(digits[|digits| - 1])
  }

  /** The digits, in both cases. */
  lemma DigitMeans(n: nat)
    requires n < 16
    ensures Nibble("0123456789ABCDEF"[n]) == n && Nibble("0123456789abcdef"[n]) == n
  {}

  predicate Within(c: char, low: char, high: char) {
    low <= c <= high
  }

  /** Other characters count as zero. */
  lemma OtherDigit(c: char)
    requires !Within(c, '0', '9') && !Within(c, 'A', 'F') && !Within(c, 'a', 'f')
    ensures Nibble(c) == 0
  {}

  lemma TwoDigits(line: string, i: nat)
    requires i + 2 <= |line|
    ensures NumberOf(line[i..i + 2]) == ByteAt(line, i)
  {
    var d := line[i..i + 2];
    assert d[..1] == [d[0]] && d[..1][..0] == "";
    assert NumberOf(d[..1]) == 16 * NumberOf("") + Nibble(d[0]);
  }

  lemma {:induction false} Concatenated(a: string, b: string, c: char)
    ensures NumberOf(a + [c]) == 16 * NumberOf(a) + Nibble(c)
  {
    assert (a + [c])[..|a|] == a;
  }

  lemma FourDigits(line: string, i: nat)
    requires i + 4 <= |line|
    ensures NumberOf(line[i..i + 4]) == Half(ByteAt(line, i), ByteAt(line, i + 2))
  {
    var d := line[i..i + 4];
    TwoDigits(line, i);
    assert d[..3][..2] == line[i..i + 2];
    assert NumberOf(d[..3]) == 16 * NumberOf(d[..3][..2]) + Nibble(line[i + 2]);
    assert NumberOf(d) == 16 * NumberOf(d[..3]) + Nibble(line[i + 3]);
  }

  // ---- Lines ----

  /** A line of this kind with as many payload bytes as its length field says. */
  predicate IsLine(line: string, kind: string, length: nat) {
    |line| == 2 * length + 11 && line[0] == ':' && NumberOf(line[1..3]) == length && line[7..9] == kind
  }

  /** The line is read, and leaves this state but for the count of warnings. */
  predicate Leaves(s: ReaderState, line: string, after: ReaderState) {
    var next := ReadLine(s, line);
    next.Some? && next.value.(warnings := 0) == after.(warnings := 0)
  }

  lemma LineParts(line: string, kind: string, length: nat, k: Byte)
    requires |kind| == 2 && IsLine(line, kind, length) && NumberOf(kind) == k
    ensures length < 0x100 && ByteAt(line, 1) == length && ByteAt(line, 7) == k
    ensures ParseLine(line) == DecodeRow(k, length, Half(ByteAt(line, 3), ByteAt(line, 5)), BytesAt(line, 9, length), ByteAt(line, 9 + 2 * length))
  {
    TwoDigits(line, 1);
    TwoDigits(line, 7);
  }

  lemma {:induction false} PayloadByte(line: string, i: nat, n: nat, k: nat)
    requires i + 2 * n <= |line| && k < n
    ensures BytesAt(line, i, n)[k] == ByteAt(line, i + 2 * k)
    decreases n
  {
    if k > 0 { PayloadByte(line, i + 2, n - 1, k - 1); }
  }

  /** Two digits of the kind. */
  lemma KindDigits(c: char)
    ensures NumberOf(['0', c]) == Nibble(c)
  {
    assert ['0', c][..1] == ['0'] && ['0'][..0] == "";
    assert NumberOf(['0']) == 16 * NumberOf("") + Nibble('0');
  }

  /** Kind 02 sets the base to 16 times its number, kind 04 to 2^16 times it; with another length they end the reading. */
  lemma BaseLine(s: ReaderState, line: string, digit: char, length: nat)
    requires IsLine(line, ['0', digit], length) && (digit == '2' || digit == '4')
    ensures length == 2 ==> Leaves(s, line, s.(base := NumberOf(line[9..13]) * (if digit == '2' then 16 else 0x1_0000)))
    ensures length != 2 ==> ReadLine(s, line) == None
  {
    KindDigits(digit);
    LineParts(line, ['0', digit], length, Nibble(digit));
    if length == 2 {
      FourDigits(line, 9);
      PayloadByte(line, 9, 2, 0);
      PayloadByte(line, 9, 2, 1);
    }
  }

  /** Kinds 03 and 05 set the entry to their 32-bit number; with another length they end the reading. */
  lemma EntryLine(s: ReaderState, line: string, digit: char, length: nat)
    requires IsLine(line, ['0', digit], length) && (digit == '3' || digit == '5')
    ensures length == 4 ==>
      var number := 0x1_0000 * NumberOf(line[9..13]) + NumberOf(line[13..17]);
      number < 0x1_0000_0000 && Leaves(s, line, s.(entry := Some(number)))
    ensures length != 4 ==> ReadLine(s, line) == None
  {
    KindDigits(digit);
    LineParts(line, ['0', digit], length, Nibble(digit));
    EntryRow(Nibble(digit), length, Half(ByteAt(line, 3), ByteAt(line, 5)), BytesAt(line, 9, length), ByteAt(line, 9 + 2 * length));
    if length == 4 { EntryPayload(line); }
  }

  lemma EntryRow(kind: Byte, length: Byte, offset: U16, payload: seq<Byte>, checksum: Byte)
    requires (kind == 3 || kind == 5) && |payload| == length
    ensures DecodeRow(kind, length, offset, payload, checksum)
      == if length != 4 then BadFormat
         else Read(Row(kind, length, offset, Address(Half(payload[0], payload[1]), Half(payload[2], payload[3])), []), checksum)
  {}

  lemma EntryPayload(line: string)
    requires |line| >= 17
    ensures var payload := BytesAt(line, 9, 4);
      Address(Half(payload[0], payload[1]), Half(payload[2], payload[3])) == 0x1_0000 * NumberOf(line[9..13]) + NumberOf(line[13..17])
  {
    FourDigits(line, 9);
    FourDigits(line, 13);
    PayloadByte(line, 9, 4, 0);
    PayloadByte(line, 9, 4, 1);
    PayloadByte(line, 9, 4, 2);
    PayloadByte(line, 9, 4, 3);
  }

  /** The bytes that two digits each spell. */
  function DataOf(line: string, length: nat): seq<Byte>
    requires 2 * length + 11 == |line|
  {
    seq(length, k requires 0 <= k < length => ByteAt(line, 9 + 2 * k))
  }

  /** The block joins the current range if that ends where it starts, else it opens a new one. */
  predicate PlacedIn(s: ReaderState, after: ReaderState, b: Block) {
    && after.base == s.base && after.entry == s.entry && after.placed == s.placed + [b] && after.current.Some?
    && after.current.value.next == b.start + |b.data|
    && (s.current.Some? && s.current.value.next == b.start ==>
          after.current.value.start == s.current.value.start && after.closed == s.closed)
    && (s.current.Some? && s.current.value.next != b.start ==>
          after.current.value.start == b.start && after.closed == s.closed + [s.current.value])
    && (s.current.None? ==> after.current.value.start == b.start && after.closed == s.closed)
  }

  lemma PlaceMeans(s: ReaderState, b: Block)
    ensures PlacedIn(s, Place(s, b), b)
  {}

  lemma WarningsApart(s: ReaderState, w: nat, after: ReaderState, b: Block)
    ensures PlacedIn(s.(warnings := w), after, b) <==> PlacedIn(s, after, b)
  {}

  /** Kind 00 places its bytes at the base plus its offset. */
  lemma DataLine(s: ReaderState, line: string, length: nat)
    requires IsLine(line, "00", length)
    ensures ReadLine(s, line).Some?
    ensures PlacedIn(s, ReadLine(s, line).value, Block(s.base + NumberOf(line[3..7]), DataOf(line, length)))
  {
    DataIsRead(line, length);
    FourDigits(line, 3);
    TakeData(s, ParseLine(line).row, ParseLine(line).checksum);
  }

  lemma TakeData(s: ReaderState, row: Row, checksum: Byte)
    requires row.kind == 0
    ensures PlacedIn(s, Take(s, row, checksum), Block(s.base + row.offset, row.data))
  {
    var start, b := if checksum == Checksum(row) then s else s.(warnings := s.warnings + 1), Block(s.base + row.offset, row.data);
    assert Take(s, row, checksum) == Place(start, b);
    PlaceMeans(start, b);
    WarningsApart(s, start.warnings, Place(start, b), b);
  }

  lemma DataIsRead(line: string, length: nat)
    requires IsLine(line, "00", length)
    ensures length < 0x100
    ensures ParseLine(line)
      == Read(Row(0, length, Half(ByteAt(line, 3), ByteAt(line, 5)), 0, DataOf(line, length)), ByteAt(line, 9 + 2 * length))
  {
    KindDigits('0');
    LineParts(line, "00", length, 0);
    forall k | 0 <= k < length ensures BytesAt(line, 9, length)[k] == DataOf(line, length)[k] { PayloadByte(line, 9, length, k); }
    assert BytesAt(line, 9, length) == DataOf(line, length);
  }

  /** Kind 01, and every kind above 05, changes nothing; reading goes on. */
  lemma OtherLine(s: ReaderState, line: string, kind: string, length: nat)
    requires |kind| == 2 && IsLine(line, kind, length) && (NumberOf(kind) == 1 || NumberOf(kind) > 5)
    ensures Leaves(s, line, s)
  {
    TwoDigits(line, 7);
    LineParts(line, kind, length, NumberOf(kind));
  }

  /** A line without the mark, or shorter than 11 characters, is passed over; one of the wrong length ends the reading. */
  lemma MarkAndLength(s: ReaderState, line: string)
    ensures |line| < 11 || line[0] != ':' ==> ReadLine(s, line) == Some(s)
    ensures |line| >= 11 && line[0] == ':' && |line| != 2 * NumberOf(line[1..3]) + 11 ==> ReadLine(s, line) == None
  {
    if |line| >= 3 { TwoDigits(line, 1); }
  }

  // ---- Checksums ----

  /** The sum of the bytes of a line, the checksum among them. */
  function LineSum(line: string, length: nat): nat
    requires 2 * length + 11 == |line|
  {
    Sum(BytesAt(line, 1, length + 5))
  }

  lemma {:induction false} SumAppend(a: seq<Byte>, b: seq<Byte>)
    ensures Sum(a + b) == Sum(a) + Sum(b)
  {
    if a == [] { assert a + b == b; } else { assert (a + b)[1..] == a[1..] + b; SumAppend(a[1..], b); }
  }

  lemma {:induction false} BytesSplit(line: string, i: nat, n: nat, m: nat)
    requires i + 2 * (n + m) <= |line|
    ensures BytesAt(line, i, n + m) == BytesAt(line, i, n) + BytesAt(line, i + 2 * n, m)
    decreases n
  {
    if n > 0 { BytesSplit(line, i + 2, n - 1, m); }
  }

  lemma HeaderIs(line: string, length: Byte, kind: Byte)
    requires |line| >= 9 && ByteAt(line, 1) == length && ByteAt(line, 7) == kind
    ensures HeaderBytes(length, Half(ByteAt(line, 3), ByteAt(line, 5)), kind) == BytesAt(line, 1, 4)
  {
    PayloadByte(line, 1, 4, 0);
    PayloadByte(line, 1, 4, 1);
    PayloadByte(line, 1, 4, 2);
    PayloadByte(line, 1, 4, 3);
    HalfParts(ByteAt(line, 3), ByteAt(line, 5));
  }

  lemma HalfParts(high: Byte, low: Byte)
    ensures Half(high, low) / 0x100 == high && Half(high, low) % 0x100 == low
  {}

  lemma NegateIff(sum: nat, check: Byte)
    ensures check == Negate(sum) <==> (sum + check) % 0x100 == 0
  {
    assert sum == 0x100 * (sum / 0x100) + sum % 0x100;
  }

  lemma LineSumIs(line: string, length: nat)
    requires 2 * length + 11 == |line|
    ensures LineSum(line, length) == Sum(BytesAt(line, 1, 4)) + Sum(BytesAt(line, 9, length)) + ByteAt(line, 9 + 2 * length)
  {
    BytesSplit(line, 1, 4, length + 1);
    BytesSplit(line, 9, length, 1);
    SumAppend(BytesAt(line, 1, 4), BytesAt(line, 9, length + 1));
    SumAppend(BytesAt(line, 9, length), BytesAt(line, 9 + 2 * length, 1));
    OneByte(line, 9 + 2 * length);
  }

  lemma OneByte(line: string, i: nat)
    requires i + 2 <= |line|
    ensures Sum(BytesAt(line, i, 1)) == ByteAt(line, i)
  {
    var one := BytesAt(line, i, 1);
    assert BytesAt(line, i + 2, 0) == [];
    assert one == [ByteAt(line, i)] && one[1..] == [];
    assert Sum(one) == one[0] + Sum([]);
  }

  /** The line counts as one with a bad checksum. */
  predicate Warns(s: ReaderState, line: string) {
    ReadLine(s, line).Some? && ReadLine(s, line).value.warnings == s.warnings + 1
  }

  lemma TakeWarns(s: ReaderState, row: Row, checksum: Byte)
    ensures Take(s, row, checksum).warnings == s.warnings + 1 <==> checksum != Checksum(row)
  {}

  lemma RowWarns(s: ReaderState, line: string, kind: Byte, length: Byte, row: Row)
    requires 2 * length + 11 == |line| && ByteAt(line, 1) == length && ByteAt(line, 7) == kind
    requires ParseLine(line) == Read(row, ByteAt(line, 9 + 2 * length))
    requires row.kind == kind && row.length == length && row.offset == Half(ByteAt(line, 3), ByteAt(line, 5))
    ensures Warns(s, line) <==> (LineSum(line, length) - Sum(BytesAt(line, 9, length)) + Sum(Payload(row))) % 0x100 != 0
  {
    TakeWarns(s, row, ByteAt(line, 9 + 2 * length));
    HeaderIs(line, length, kind);
    LineSumIs(line, length);
    SumAppend(Header(row), Payload(row));
    NegateIff(Sum(Header(row)) + Sum(Payload(row)), ByteAt(line, 9 + 2 * length));
  }

  /** A data line, or one of kind 03, 04 or 05 that is read, counts as bad exactly when the sum of its bytes is not zero
      modulo 256. */
  lemma WarnsIff(s: ReaderState, line: string, digit: char, length: nat)
    requires IsLine(line, ['0', digit], length) && (digit == '0' || '3' <= digit <= '5')
    requires digit == '4' ==> length == 2
    requires digit == '3' || digit == '5' ==> length == 4
    ensures Warns(s, line) <==> LineSum(line, length) % 0x100 != 0
  {
    var row := LineRead(line, digit, length);
    RowWarns(s, line, Nibble(digit), length, row);
  }

  lemma LineRead(line: string, digit: char, length: nat) returns (row: Row)
    requires IsLine(line, ['0', digit], length) && (digit == '0' || '3' <= digit <= '5')
    requires (digit == '4' ==> length == 2) && (digit == '3' || digit == '5' ==> length == 4)
    ensures length < 0x100 && ByteAt(line, 1) == length && ByteAt(line, 7) == Nibble(digit)
    ensures ParseLine(line) == Read(row, ByteAt(line, 9 + 2 * length)) && Payload(row) == BytesAt(line, 9, length)
    ensures row.kind == Nibble(digit) && row.length == length && row.offset == Half(ByteAt(line, 3), ByteAt(line, 5))
  {
    KindDigits(digit);
    LineParts(line, ['0', digit], length, Nibble(digit));
    row := RowRead(Nibble(digit), length, Half(ByteAt(line, 3), ByteAt(line, 5)), BytesAt(line, 9, length), ByteAt(line, 9 + 2 * length));
  }

  lemma RowRead(kind: Byte, length: Byte, offset: U16, payload: seq<Byte>, checksum: Byte) returns (row: Row)
    requires |payload| == length && kind in {0, 3, 4, 5} && (kind == 4 ==> length == 2) && (kind == 3 || kind == 5 ==> length == 4)
    ensures DecodeRow(kind, length, offset, payload, checksum) == Read(row, checksum)
    ensures row.kind == kind && row.length == length && row.offset == offset && Payload(row) == payload
  {
    row := DecodeRow(kind, length, offset, payload, checksum).row;
    PayloadIs(payload, kind, row);
  }

  lemma PayloadIs(payload: seq<Byte>, kind: Byte, row: Row)
    requires |payload| < 0x100 && kind in {0, 3, 4, 5} && row.kind == kind
    requires kind == 0 ==> row.data == payload
    requires kind == 4 ==> |payload| == 2 && row.start == Address(Half(payload[0], payload[1]), 0)
    requires kind == 3 || kind == 5 ==> |payload| == 4 && row.start == Address(Half(payload[0], payload[1]), Half(payload[2], payload[3]))
    ensures Payload(row) == payload
  {
    if kind == 4 {
      AddressHalves(Half(payload[0], payload[1]), 0);
      HalfParts(payload[0], payload[1]);
    } else if kind != 0 {
      AddressHalves(Half(payload[0], payload[1]), Half(payload[2], payload[3]));
      HalfParts(payload[0], payload[1]);
      HalfParts(payload[2], payload[3]);
    }
  }

  lemma AddressHalves(high: U16, low: U16)
    ensures Address(high, low) / 0x1_0000 == high && Address(high, low) % 0x1_0000 == low
  {}

  /** The checksum of a line of kind 02 is computed over the address the segment stands for and not over the segment, so
      a line whose bytes do balance is counted as bad unless its payload a, b has a + b = a / 16 modulo 256. */
  lemma SegmentWarnsIff(s: ReaderState, line: string)
    requires IsLine(line, "02", 2)
    ensures Warns(s, line) <==> (LineSum(line, 2) - ByteAt(line, 9) - ByteAt(line, 11) + ByteAt(line, 9) / 16) % 0x100 != 0
  {
    KindDigits('2');
    LineParts(line, "02", 2, 2);
    var row, payload := ParseLine(line).row, BytesAt(line, 9, 2);
    PayloadByte(line, 9, 2, 0);
    PayloadByte(line, 9, 2, 1);
    ParagraphBytes(payload[0], payload[1]);
    assert payload == [payload[0], payload[1]] && payload[1..] == [payload[1]] && payload[1..][1..] == [];
    assert Sum(payload) == payload[0] + Sum(payload[1..]) && Sum(payload[1..]) == payload[1] + Sum([]);
    var sum := Payload(row);
    assert sum == [0, payload[0] / 16] && sum[1..] == [payload[0] / 16] && sum[1..][1..] == [];
    assert Sum(sum) == 0 + Sum(sum[1..]) && Sum(sum[1..]) == payload[0] / 16 + Sum([]);
    RowWarns(s, line, 2, 2, row);
  }

  lemma ParagraphBytes(a: Byte, b: Byte)
    ensures AddressByte(Paragraph(Half(a, b)), 3) == 0 && AddressByte(Paragraph(Half(a, b)), 2) == a / 16
  {}

  /** The line of segment 1000 with the checksum that the format asks for. */
  lemma BalancedSegmentWarns(s: ReaderState, line: string)
    requires line == ":020000021000EC"
    ensures LineSum(line, 2) == 0x100 && Warns(s, line)
  {
    BalancedBytes(line);
    BalancedSum(line);
    SegmentWarnsIff(s, line);
  }

  lemma BalancedSum(line: string)
    requires |line| == 15 && BytesAt(line, 1, 7) == [2, 0, 0, 2, 0x10, 0, 0xEC]
    ensures LineSum(line, 2) == 0x100
  {
    SumSeven(2, 0, 0, 2, 0x10, 0, 0xEC);
  }

  lemma BalancedBytes(line: string)
    requires line == ":020000021000EC"
    ensures IsLine(line, "02", 2) && ByteAt(line, 9) == 0x10 && ByteAt(line, 11) == 0
    ensures BytesAt(line, 1, 7) == [2, 0, 0, 2, 0x10, 0, 0xEC]
  {
    TwoDigits(line, 1);
    assert line[7..9] == "02";
    forall k | 0 <= k < 7 ensures BytesAt(line, 1, 7)[k] == ByteAt(line, 1 + 2 * k) { PayloadByte(line, 1, 7, k); }
  }

  lemma SumSeven(a: Byte, b: Byte, c: Byte, d: Byte, e: Byte, f: Byte, g: Byte)
    ensures Sum([a, b, c, d, e, f, g]) == a + b + c + d + e + f + g
  {
    SumCons(a, [b, c, d, e, f, g]);
    SumCons(b, [c, d, e, f, g]);
    SumCons(c, [d, e, f, g]);
    SumCons(d, [e, f, g]);
    SumCons(e, [f, g]);
    SumCons(f, [g]);
    SumCons(g, []);
  }

  lemma SumCons(x: Byte, rest: seq<Byte>)
    ensures Sum([x] + rest) == x + Sum(rest)
  {
    assert ([x] + rest)[1..] == rest;
  }
}
