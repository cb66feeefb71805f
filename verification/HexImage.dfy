/** Writing and reading an Intel HEX image (`ToStream` and `FromStreamReader` of
    `obsolete/dotnet/programs/binary/IntelHexidecimalFile.cs`), line by line. */
module HexImage {
  import opened Words
  import opened Results
  import opened Seqs
  import opened IntelHex

  datatype Block = Block(start: nat, data: seq<Byte>)

  datatype Image = Image(blocks: seq<Block>, entry: Option<U32>)

  function End(b: Block): nat {
    b.start + |b.data|
  }

  const LIMIT: nat := 0x1_0000_0000

  /** The bytes of the blocks have 32-bit addresses. */
  predicate InRange(blocks: seq<Block>) {
    forall b | b in blocks :: b.start + |b.data| <= LIMIT
  }

  // ---- What an image holds ----

  predicate HoldsAt(b: Block, address: nat, value: Byte) {
    b.start <= address < End(b) && b.data[address - b.start] == value
  }

  ghost predicate Holds(blocks: seq<Block>, address: nat, value: Byte) {
    exists b :: b in blocks && HoldsAt(b, address, value)
  }

  /** The same byte at every address. */
  ghost predicate SameBytes(a: seq<Block>, b: seq<Block>) {
    forall address, value :: Holds(a, address, value) <==> Holds(b, address, value)
  }

  // ---- Writing ----

  const ROW_WIDTH: nat := 0x20
  const PAGE: nat := 0x1_0000

  /** What a row takes of what is left: no more than its width, and nothing beyond the 64 KiB page. */
  function Fitting(offset: nat, left: nat): (n: nat)
    requires offset < PAGE
    ensures n <= left && n <= ROW_WIDTH && offset + n <= PAGE && (left > 0 ==> n > 0)
  {
    var n := if left > ROW_WIDTH then ROW_WIDTH else left;
    if n > PAGE - offset then PAGE - offset else n
  }

  function RowSize(address: nat, left: nat): (n: nat)
    ensures n <= left && n <= ROW_WIDTH && (left > 0 ==> n > 0)
  {
    Fitting(address % PAGE, left)
  }

  /** The run of bytes that one data row carries. */
  type Chunk = b: Block | 0 < |b.data| <= ROW_WIDTH && b.start + |b.data| <= LIMIT witness Block(0, [0])

  /** How a run of bytes is cut into rows. */
  function Chunks(address: nat, data: seq<Byte>): seq<Chunk>
    requires address + |data| <= LIMIT
    decreases |data|
  {
    if data == [] then []
    else
      var n := RowSize(address, |data|);
      [Block(address, data[..n])] + Chunks(address + n, data[n..])
  }

  lemma ChunksUnfold(address: nat, data: seq<Byte>, n: nat, head: seq<Byte>, tail: seq<Byte>)
    requires address + |data| <= LIMIT && data != [] && n == RowSize(address, |data|)
    requires head == data[..n] && tail == data[n..]
    ensures Chunks(address, data) == [Block(address, head)] + Chunks(address + n, tail)
  {}

  function AllChunks(blocks: seq<Block>): seq<Chunk>
    requires InRange(blocks)
  {
    if blocks == [] then []
    else
      assert blocks[0] in blocks;
      Chunks(blocks[0].start, blocks[0].data) + AllChunks(blocks[1..])
  }

  function ExtendedRow(address: U32): Row {
    Row(EXTENDED_LINEAR, 2, 0, address, [])
  }

  function DataRow(c: Chunk): Row {
    Row(DATA, |c.data|, c.start % PAGE, 0, c.data)
  }

  /** An extended address record where the page differs from that of the row before. */
  function PageRow(address: U32, page: Option<nat>): seq<Row> {
    if page == Some(address / PAGE) then [] else [ExtendedRow(address)]
  }

  /** The rows of the chunks, after a row in the given page. */
  function ChunkRows(chunks: seq<Chunk>, page: Option<nat>): seq<Row> {
    if chunks == [] then []
    else
      PageRow(chunks[0].start, page) + ([DataRow(chunks[0])] + ChunkRows(chunks[1..], Some(chunks[0].start / PAGE)))
  }

  function EntryRow(entry: U32): Row {
    Row(START_LINEAR, 4, 0, entry, [])
  }

  /** `OrderBy`, which keeps the order of blocks with equal starts. */
  function InsertBlock(b: Block, sorted: seq<Block>): seq<Block> {
    if sorted == [] || b.start <= sorted[0].start then [b] + sorted else [sorted[0]] + InsertBlock(b, sorted[1..])
  }

  function SortBlocks(blocks: seq<Block>): seq<Block> {
    if blocks == [] then [] else InsertBlock(blocks[0], SortBlocks(blocks[1..]))
  }

  function Lines(rows: seq<Row>): seq<string> {
    if rows == [] then [] else [Finalize(rows[0])] + Lines(rows[1..])
  }

  function EntryRows(entry: Option<U32>): seq<Row> {
    if entry.Some? then [EntryRow(entry.value)] else []
  }

  const END_LINE: string := ":00000001FF"

  /** `ToStream`: the file as its lines. */
  function WriteImage(image: Image): seq<string>
    requires InRange(image.blocks)
  {
    SortedContents(image.blocks);
    Lines(ChunkRows(AllChunks(SortBlocks(image.blocks)), None)) + Lines(EntryRows(image.entry)) + [END_LINE]
  }

  lemma {:induction false} InsertedContents(b: Block, sorted: seq<Block>)
    ensures forall x :: x in InsertBlock(b, sorted) <==> x == b || x in sorted
  {
    if sorted != [] {
      InsertedContents(b, sorted[1..]);
      assert sorted == [sorted[0]] + sorted[1..];
    }
  }

  lemma {:induction false} SortedContents(blocks: seq<Block>)
    ensures forall x :: x in SortBlocks(blocks) <==> x in blocks
  {
    if blocks != [] {
      SortedContents(blocks[1..]);
      InsertedContents(blocks[0], SortBlocks(blocks[1..]));
      assert blocks == [blocks[0]] + blocks[1..];
    }
  }

  // ---- Reading ----

  /** An address range under construction: its start and the address expected next. */
  datatype Span = Span(start: nat, next: nat)

  datatype ReaderState = ReaderState(base: nat, current: Option<Span>, closed: seq<Span>, placed: seq<Block>,
                                     entry: Option<U32>, warnings: nat)

  const INITIAL := ReaderState(0, None, [], [], None, 0)

  /** A data record continues the current range or opens a new one. */
  function Place(s: ReaderState, b: Block): ReaderState {
    var next := s.current.Some? && b.start == s.current.value.next;
    s.(current := Some(Span(if next then s.current.value.start else b.start, End(b))),
       closed := if s.current.Some? && !next then s.closed + [s.current.value] else s.closed,
       placed := s.placed + [b])
  }

  function Apply(s: ReaderState, row: Row): ReaderState {
    if row.kind == DATA then Place(s, Block(s.base + row.offset, row.data))
    else if row.kind == EXTENDED_LINEAR || row.kind == EXTENDED_SEGMENT then s.(base := row.start)
    else if row.kind == START_LINEAR || row.kind == START_SEGMENT then s.(entry := Some(row.start))
    else s
  }

  /** A record counts a warning when its checksum is not the one computed for it. */
  function Take(s: ReaderState, row: Row, checksum: Byte): ReaderState {
    Apply(if checksum == Checksum(row) then s else s.(warnings := s.warnings + 1), row)
  }

  /** One line; a badly formed one ends the reading. */
  function ReadLine(s: ReaderState, line: string): Option<ReaderState> {
    match ParseLine(line)
    case Skipped => Some(s)
    case BadFormat => None
    case Read(row, checksum) => Some(Take(s, row, checksum))
  }

  function ReadLines(s: ReaderState, lines: seq<string>): Option<ReaderState>
    decreases |lines|
  {
    if lines == [] then Some(s)
    else
      var next := ReadLine(s, lines[0]);
      if next.None? then None else ReadLines(next.value, lines[1..])
  }

  function Put(b: Block, position: nat, data: seq<Byte>): Block
    requires position + |data| <= |b.data|
  {
    b.(data := b.data[..position] + data + b.data[position + |data|..])
  }

  /** A record outside the block at hand goes to the start of the next one. */
  function Target(blocks: seq<Block>, at: nat, r: Block): (nat, nat)
    requires at < |blocks|
  {
    if blocks[at].start <= r.start < End(blocks[at]) then (at, r.start - blocks[at].start) else (at + 1, 0)
  }

  /** The records are copied into the blocks. */
  function Fill(blocks: seq<Block>, at: nat, placed: seq<Block>): Option<seq<Block>>
    requires at < |blocks|
    decreases |placed|
  {
    if placed == [] then Some(blocks)
    else
      var (next, position) := Target(blocks, at, placed[0]);
      if next >= |blocks| || position + |placed[0].data| > |blocks[next].data| then None
      else Fill(blocks[next := Put(blocks[next], position, placed[0].data)], next, placed[1..])
  }

  function Blank(span: Span): Block {
    Block(span.start, seq(if span.next < span.start then 0 else span.next - span.start, i => 0))
  }

  function Blanks(spans: seq<Span>): (r: seq<Block>)
    ensures |r| == |spans|
  {
    if spans == [] then [] else [Blank(spans[0])] + Blanks(spans[1..])
  }

  /** The file is loaded, rejected, or its records do not fit the ranges made for them. */
  datatype Loaded = Loaded(image: Image, warnings: nat) | Rejected | Crashed

  function Finish(s: ReaderState): Loaded {
    if s.current.None? then Rejected
    else
      var blocks := Fill(Blanks(s.closed + [s.current.value]), 0, s.placed);
      if blocks.None? then Crashed else Loaded(Image(blocks.value, s.entry), s.warnings)
  }

  /** `FromStreamReader`: the loop only starts when there is a second line. */
  function ReadImage(lines: seq<string>): Loaded {
    if |lines| <= 1 then Rejected
    else
      var s := ReadLines(INITIAL, lines);
      if s.None? then Rejected else Finish(s.value)
  }
}
