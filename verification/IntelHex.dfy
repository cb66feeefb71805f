/** Rows of an Intel HEX file and their text (`obsolete/dotnet/programs/binary/IntelHexidecimalFile.cs`). */
module IntelHex {
  import opened Words
  import opened Results

  const DATA: Byte := 0
  const END_OF_FILE: Byte := 1
  const EXTENDED_SEGMENT: Byte := 2
  const START_SEGMENT: Byte := 3
  const EXTENDED_LINEAR: Byte := 4
  const START_LINEAR: Byte := 5

  type U16 = x: nat | x < 0x1_0000
  type U32 = x: nat | x < 0x1_0000_0000

  /** `IntelHexidecimalRow`; `start` is the address a record carries, `data` is only used by data records. */
  datatype Row = Row(kind: Byte, length: Byte, offset: U16, start: U32, data: seq<Byte>)

  // ---- Writing ----

  /** Byte `position` of an address, the lowest first. */
  function AddressByte(start: U32, position: nat): Byte
    requires position < 4
  {
    var half := if position < 2 then start % 0x1_0000 else start / 0x1_0000;
    if position % 2 == 0 then half % 0x100 else half / 0x100
  }

  /** The bytes between the header and the checksum. */
  function Payload(row: Row): seq<Byte> {
    if row.kind == DATA then row.data
    else if row.kind == EXTENDED_LINEAR || row.kind == EXTENDED_SEGMENT then
      [AddressByte(row.start, 3), AddressByte(row.start, 2)]
    else if row.kind == START_LINEAR || row.kind == START_SEGMENT then
      [AddressByte(row.start, 3), AddressByte(row.start, 2), AddressByte(row.start, 1), AddressByte(row.start, 0)]
    else []
  }

  function HeaderBytes(length: Byte, offset: U16, kind: Byte): (h: seq<Byte>)
    ensures |h| == 4
  {
    [length, offset / 0x100, offset % 0x100, kind]
  }

  function Header(row: Row): (h: seq<Byte>)
    ensures |h| == 4
  {
    HeaderBytes(row.length, row.offset, row.kind)
  }

  function Sum(bytes: seq<Byte>): nat {
    if bytes == [] then 0 else bytes[0] + Sum(bytes[1..])
  }

  /** `(byte)-sum` */
  function Negate(sum: nat): Byte {
    var low := sum % 0x100;
    if low == 0 then 0 else 0x100 - low
  }

  /** `CalculateChecksum` */
  function Checksum(row: Row): Byte {
    Negate(Sum(Header(row) + Payload(row)))
  }

  function HexDigit(n: nat): char
    requires n < 16
  {
    "0123456789ABCDEF"[n]
  }

  function Hex(bytes: seq<Byte>): (text: string)
    ensures |text| == 2 * |bytes|
  {
    if bytes == [] then [] else [HexDigit(bytes[0] / 16), HexDigit(bytes[0] % 16)] + Hex(bytes[1..])
  }

  /** `Finalize` */
  function Finalize(row: Row): string {
    ":" + Hex(Header(row) + Payload(row) + [Checksum(row)])
  }

  // ---- Reading ----

  /** `NibbleHex2ValueTable` */
  function Nibble(c: char): (n: nat)
    ensures n < 16
  {
    if '0' <= c <= '9' then (c - '0') as nat
    else if 'A' <= c <= 'F' then 10 + (c - 'A') as nat
    else if 'a' <= c <= 'f' then 10 + (c - 'a') as nat
    else 0
  }

  function ByteAt(line: string, i: nat): Byte
    requires i + 1 < |line|
  {
    Nibble(line[i]) * 16 + Nibble(line[i + 1])
  }

  function BytesAt(line: string, i: nat, n: nat): (bytes: seq<Byte>)
    requires i + 2 * n <= |line|
    ensures |bytes| == n
    decreases n
  {
    if n == 0 then [] else [ByteAt(line, i)] + BytesAt(line, i + 2, n - 1)
  }

  datatype LineResult =
    | Skipped
    | BadFormat
    | Read(row: Row, checksum: Byte)

  /** What the reader makes of one line. */
  function ParseLine(line: string): LineResult {
    if |line| < 11 || line[0] != ':' then Skipped
    else
      var length := ByteAt(line, 1);
      if |line| != 2 * length + 11 then BadFormat
      else
        DecodeRow(ByteAt(line, 7), length, Half(ByteAt(line, 3), ByteAt(line, 5)), BytesAt(line, 9, length), ByteAt(line, 9 + 2 * length))
  }

  function Half(high: nat, low: nat): U16
    requires high < 0x100 && low < 0x100
  {
    high * 0x100 + low
  }

  function Address(high: U16, low: U16): U32 {
    high * 0x1_0000 + low
  }

  /** The record of a line, with the length its kind demands. */
  function DecodeRow(kind: Byte, length: Byte, offset: U16, payload: seq<Byte>, checksum: Byte): LineResult
    requires |payload| == length
  {
    if kind == DATA then Read(Row(kind, length, offset, 0, payload), checksum)
    else if kind == EXTENDED_LINEAR then
      if length != 2 then BadFormat
      else Read(Row(kind, length, offset, Address(Half(payload[0], payload[1]), 0), []), checksum)
    else if kind == START_LINEAR || kind == START_SEGMENT then
      if length != 4 then BadFormat
      else Read(Row(kind, length, offset, Address(Half(payload[0], payload[1]), Half(payload[2], payload[3])), []), checksum)
    else if kind == EXTENDED_SEGMENT then
      if length != 2 then BadFormat
      else Read(Row(kind, length, offset, Paragraph(Half(payload[0], payload[1])), []), checksum)
    else Read(Row(kind, length, offset, 0, []), checksum)
  }

  function Paragraph(segment: U16): U32 {
    var s: nat := segment;
    s * 0x10
  }

  // ---- Lines read back ----

  lemma HexByte(b: Byte)
    ensures Nibble(HexDigit(b / 16)) * 16 + Nibble(HexDigit(b % 16)) == b
  {
    NibbleOfDigit(b / 16);
    NibbleOfDigit(b % 16);
  }

  lemma NibbleOfDigit(n: nat)
    requires n < 16
    ensures Nibble(HexDigit(n)) == n
  {}

  lemma {:induction false} HexAt(bytes: seq<Byte>, k: nat)
    requires k < |bytes|
    ensures ByteAt(Hex(bytes), 2 * k) == bytes[k]
  {
    if k == 0 {
      HexByte(bytes[0]);
    } else {
      HexAt(bytes[1..], k - 1);
      assert Hex(bytes)[2 * k] == Hex(bytes[1..])[2 * (k - 1)];
      assert Hex(bytes)[2 * k + 1] == Hex(bytes[1..])[2 * (k - 1) + 1];
    }
  }

  lemma LineByte(bytes: seq<Byte>, k: nat)
    requires k < |bytes|
    ensures ByteAt(":" + Hex(bytes), 1 + 2 * k) == bytes[k]
  {
    HexAt(bytes, k);
  }

  lemma {:induction false} LineBytes(bytes: seq<Byte>, k: nat, n: nat)
    requires k + n <= |bytes|
    ensures BytesAt(":" + Hex(bytes), 1 + 2 * k, n) == bytes[k..k + n]
    decreases n
  {
    if n > 0 {
      LineByte(bytes, k);
      LineBytes(bytes, k + 1, n - 1);
    }
  }

  /** The rows that the writer emits: the length is that of the payload. */
  predicate Emitted(row: Row) {
    && row.length == |Payload(row)|
    && (row.kind == DATA ==> row.start == 0)
    && (row.kind != DATA ==> row.data == [])
    && row.kind != EXTENDED_SEGMENT
    && (row.kind == END_OF_FILE || row.kind > START_LINEAR ==> row.start == 0)
  }

  /** What a line carries of a row: an extended linear address has no low half. */
  function Carried(row: Row): Row {
    if row.kind == EXTENDED_LINEAR then row.(start := Address(row.start / 0x1_0000, 0)) else row
  }

  lemma AddressParts(start: U32)
    ensures Half(AddressByte(start, 3), AddressByte(start, 2)) == start / 0x1_0000
    ensures Half(AddressByte(start, 1), AddressByte(start, 0)) == start % 0x1_0000
  {
    HalfBytes(start / 0x1_0000);
    HalfBytes(start % 0x1_0000);
  }

  lemma HalfBytes(h: U16)
    ensures Half(h / 0x100, h % 0x100) == h
  {}

  lemma HighKept(start: U32)
    ensures Address(start / 0x1_0000, 0) / 0x1_0000 == start / 0x1_0000
  {}

  lemma CarriedChecksum(row: Row)
    ensures Checksum(Carried(row)) == Checksum(row)
  {
    if row.kind == EXTENDED_LINEAR {
      HighKept(row.start);
      assert Payload(Carried(row)) == Payload(row);
    }
  }

  lemma PayloadDecodes(row: Row, checksum: Byte)
    requires Emitted(row)
    ensures DecodeRow(row.kind, row.length, row.offset, Payload(row), checksum) == Read(Carried(row), checksum)
  {
    AddressParts(row.start);
  }

  /** The parts of a line whose bytes are known. */
  lemma ParseBytes(line: string, bytes: seq<Byte>, length: nat)
    requires |bytes| == length + 5 && bytes[0] == length && |line| == 1 + 2 * |bytes| && line[0] == ':'
    requires forall k | 0 <= k < |bytes| :: ByteAt(line, 1 + 2 * k) == bytes[k]
    requires BytesAt(line, 9, length) == bytes[4..4 + length]
    ensures ParseLine(line) == DecodeRow(bytes[3], bytes[0], Half(bytes[1], bytes[2]), bytes[4..4 + length], bytes[4 + length])
  {
    assert ByteAt(line, 1 + 2 * 0) == bytes[0];
    assert ByteAt(line, 1 + 2 * 1) == bytes[1];
    assert ByteAt(line, 1 + 2 * 2) == bytes[2];
    assert ByteAt(line, 1 + 2 * 3) == bytes[3];
    assert ByteAt(line, 1 + 2 * (4 + length)) == bytes[4 + length];
  }

  lemma ParseHex(bytes: seq<Byte>, length: nat)
    requires |bytes| == length + 5 && bytes[0] == length
    ensures ParseLine(":" + Hex(bytes)) == DecodeRow(bytes[3], bytes[0], Half(bytes[1], bytes[2]), bytes[4..4 + length], bytes[4 + length])
  {
    forall k | 0 <= k < |bytes| ensures ByteAt(":" + Hex(bytes), 1 + 2 * k) == bytes[k] {
      LineByte(bytes, k);
    }
    LineBytes(bytes, 4, length);
    ParseBytes(":" + Hex(bytes), bytes, length);
  }

  /** Reading the text of a row gives what it carries, with the checksum that the reader computes for it. */
  lemma LineRoundTrip(row: Row)
    requires Emitted(row)
    ensures ParseLine(Finalize(row)) == Read(Carried(row), Checksum(Carried(row)))
  {
    var bytes := Header(row) + Payload(row) + [Checksum(row)];
    ParseHex(bytes, row.length);
    assert bytes[4..4 + row.length] == Payload(row);
    PayloadDecodes(row, Checksum(row));
    CarriedChecksum(row);
  }

  /** The byte sum of a whole line is zero modulo 256. */
  lemma ChecksumBalances(row: Row)
    ensures (Sum(Header(row) + Payload(row)) + Checksum(row)) % 0x100 == 0
  {}

  lemma {:induction false} SumChange(bytes: seq<Byte>, k: nat, b: Byte)
    requires k < |bytes|
    ensures Sum(bytes[k := b]) == Sum(bytes) - bytes[k] + b
  {
    if k > 0 {
      assert bytes[k := b][1..] == bytes[1..][k - 1 := b];
      SumChange(bytes[1..], k - 1, b);
    } else {
      assert bytes[k := b][1..] == bytes[1..];
    }
  }

  /** A change of any one byte changes the checksum. */
  lemma ChecksumDetects(bytes: seq<Byte>, k: nat, b: Byte)
    requires k < |bytes|
    ensures Negate(Sum(bytes[k := b])) == Negate(Sum(bytes)) <==> b == bytes[k]
  {
    SumChange(bytes, k, b);
    NegateApart(Sum(bytes), Sum(bytes[k := b]));
  }

  lemma NegateApart(s: nat, t: nat)
    requires s - 0x100 < t < s + 0x100
    ensures Negate(t) == Negate(s) <==> t == s
  {
    if Negate(t) == Negate(s) {
      assert s == 0x100 * (s / 0x100) + s % 0x100 && t == 0x100 * (t / 0x100) + t % 0x100;
    }
  }
}
