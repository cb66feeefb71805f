/** The Intel HEX writer and reader as they run: row objects that are refilled, nested loops over blocks
    and pages, and a reading loop over several variables, proved to compute `WriteImage` and `ReadImage`
    (`obsolete/dotnet/programs/binary/IntelHexidecimalFile.cs`). */
module HexStreams {
  import opened Words
  import opened Results
  import opened Seqs
  import opened IntelHex
  import opened HexImage
  import opened HexRoundTrip

  /** `IntelHexidecimalRow` */
  class HexRow {
    const kind: Byte
    var length: Byte
    var offset: U16
    var start: U32
    const data: array<Byte>
    var checksum: Byte

    constructor (kind: Byte, length: Byte, width: nat)
      requires kind == DATA ==> length <= width
      ensures this.kind == kind && this.length == length && offset == 0 && start == 0
      ensures fresh(data) && data.Length == width
    {
      this.kind := kind;
      this.length := length;
      offset := 0;
      start := 0;
      checksum := 0;
      data := new Byte[width](_ => 0);
    }

    ghost predicate Valid()
      reads this
    {
      kind == DATA ==> length <= data.Length
    }

    ghost function Contents(): Row
      requires Valid()
      reads this, data
    {
      Row(kind, length, offset, start, if kind == DATA then data[..length] else [])
    }

    /** `CalculateChecksum`: a byte that wraps round. */
    method CalculateChecksum() returns (c: Byte)
      requires Valid()
      ensures c == Checksum(Contents())
    {
      var sum := ByteSum(0, HeaderBytes(length, offset, kind));
      ghost var header := sum;
      if kind == DATA {
        var i := 0;
        while i < length
          invariant 0 <= i <= length
          invariant sum == ByteSum(header, data[..i])
        {
          assert data[..i + 1] == data[..i] + [data[i]];
          ByteSumSnoc(header, data[..i], data[i]);
          sum := AddByte(sum, data[i]);
          i := i + 1;
        }
      } else if kind == EXTENDED_LINEAR || kind == EXTENDED_SEGMENT {
        sum := ByteSum(sum, [AddressByte(start, 3), AddressByte(start, 2)]);
      } else if kind == START_LINEAR || kind == START_SEGMENT {
        sum := ByteSum(sum, [AddressByte(start, 3), AddressByte(start, 2), AddressByte(start, 1), AddressByte(start, 0)]);
      }
      ChecksumIs(Contents(), header, sum);
      c := Negate(sum);
    }

    /** The digits of the data bytes, one after the other. */
    method DataDigits() returns (digits: string)
      requires Valid() && kind == DATA
      ensures digits == Hex(data[..length])
    {
      digits := "";
      var i := 0;
      while i < length
        invariant 0 <= i <= length
        invariant digits == Hex(data[..i])
      {
        assert data[..i + 1] == data[..i] + [data[i]];
        HexAppend(data[..i], [data[i]]);
        digits := digits + Hex([data[i]]);
        i := i + 1;
      }
    }

    /** `Finalize`: the checksum is stored and the line built. */
    method FinalizeLine() returns (line: string)
      requires Valid()
      modifies this`checksum
      ensures line == Finalize(Contents()) && checksum == Checksum(Contents())
    {
      checksum := CalculateChecksum();
      var digits := "";
      if kind == DATA {
        digits := DataDigits();
      } else if kind == EXTENDED_LINEAR || kind == EXTENDED_SEGMENT {
        digits := Hex([AddressByte(start, 3), AddressByte(start, 2)]);
      } else if kind == START_LINEAR || kind == START_SEGMENT {
        digits := Hex([AddressByte(start, 3), AddressByte(start, 2), AddressByte(start, 1), AddressByte(start, 0)]);
      }
      line := ":" + Hex(HeaderBytes(length, offset, kind)) + digits + Hex([checksum]);
      LineIs(Contents());
    }
  }

  function AddByte(sum: Byte, b: Byte): Byte {
    var s: nat := sum;
    (s + b) % 0x100
  }

  /** Adding bytes to a byte that wraps round. */
  function ByteSum(sum: Byte, bytes: seq<Byte>): Byte
    decreases |bytes|
  {
    if bytes == [] then sum else ByteSum(AddByte(sum, bytes[0]), bytes[1..])
  }

  lemma {:induction false} ByteSumIs(sum: Byte, bytes: seq<Byte>)
    ensures var s: nat := sum; ByteSum(sum, bytes) == (s + Sum(bytes)) % 0x100
    decreases |bytes|
  {
    if bytes != [] {
      ByteSumIs(AddByte(sum, bytes[0]), bytes[1..]);
      AddWraps(sum, bytes[0], Sum(bytes[1..]));
    }
  }

  lemma AddWraps(s: nat, b: nat, rest: nat)
    ensures ((s + b) % 0x100 + rest) % 0x100 == (s + (b + rest)) % 0x100
  {}

  lemma {:induction false} ByteSumAppend(sum: Byte, a: seq<Byte>, b: seq<Byte>)
    ensures ByteSum(sum, a + b) == ByteSum(ByteSum(sum, a), b)
    decreases |a|
  {
    if a == [] {
      assert a + b == b;
    } else {
      assert (a + b)[0] == a[0] && (a + b)[1..] == a[1..] + b;
      ByteSumAppend(AddByte(sum, a[0]), a[1..], b);
    }
  }

  lemma ByteSumSnoc(sum: Byte, a: seq<Byte>, b: Byte)
    ensures ByteSum(sum, a + [b]) == AddByte(ByteSum(sum, a), b)
  {
    ByteSumAppend(sum, a, [b]);
    assert [b][1..] == [];
  }

  lemma ChecksumIs(row: Row, header: Byte, sum: Byte)
    requires header == ByteSum(0, Header(row)) && sum == ByteSum(header, Payload(row))
    ensures Negate(sum) == Checksum(row)
  {
    ByteSumAppend(0, Header(row), Payload(row));
    ByteSumIs(0, Header(row) + Payload(row));
    NegateLow(Sum(Header(row) + Payload(row)));
  }

  lemma NegateLow(s: nat)
    ensures Negate(s % 0x100) == Negate(s)
  {}

  lemma LineIs(row: Row)
    ensures Finalize(row) == ":" + Hex(Header(row)) + Hex(Payload(row)) + Hex([Checksum(row)])
  {
    HexAppend(Header(row), Payload(row));
    HexAppend(Header(row) + Payload(row), [Checksum(row)]);
  }

  lemma {:induction false} HexAppend(a: seq<Byte>, b: seq<Byte>)
    ensures Hex(a + b) == Hex(a) + Hex(b)
  {
    if a == [] {
      assert a + b == b;
    } else {
      assert (a + b)[0] == a[0] && (a + b)[1..] == a[1..] + b;
      HexAppend(a[1..], b);
    }
  }

  // ---- The writer ----

  /** The chunks still to be written: the rest of the block at hand and the blocks after it. */
  ghost function Left(b: Block, copied: nat, later: seq<Block>): seq<Chunk>
    requires copied <= |b.data| && End(b) <= LIMIT && InRange(later)
  {
    Chunks(b.start + copied, b.data[copied..]) + AllChunks(later)
  }

  /** Their lines. */
  ghost function Todo(b: Block, copied: nat, later: seq<Block>, page: Option<nat>): seq<string>
    requires copied <= |b.data| && End(b) <= LIMIT && InRange(later)
  {
    Lines(ChunkRows(Left(b, copied, later), page))
  }

  lemma LinesCons(row: Row, rest: seq<Row>)
    ensures Lines([row] + rest) == [Finalize(row)] + Lines(rest)
  {
    ConsTail(row, rest);
  }

  lemma PageLines(chunks: seq<Chunk>, page: Option<nat>, address: U32)
    requires chunks != [] && chunks[0].start == address
    ensures var own := Some(address / PAGE);
      Lines(ChunkRows(chunks, page)) ==
        (if page == own then [] else [Finalize(ExtendedRow(address))]) + Lines(ChunkRows(chunks, own))
  {
    var own := Some(address / PAGE);
    var rest := [DataRow(chunks[0])] + ChunkRows(chunks[1..], own);
    assert ChunkRows(chunks, own) == rest by { assert [] + rest == rest; }
    if page == own {
      assert [] + Lines(rest) == Lines(rest);
    } else {
      LinesCons(ExtendedRow(address), rest);
    }
  }

  lemma LeftStarts(b: Block, copied: nat, later: seq<Block>)
    requires copied < |b.data| && End(b) <= LIMIT && InRange(later)
    ensures Left(b, copied, later) != [] && Left(b, copied, later)[0].start == b.start + copied
  {}

  /** Turning to a new page writes its address, and nothing when the page is the one at hand. */
  lemma TodoPage(b: Block, copied: nat, later: seq<Block>, page: Option<nat>)
    requires copied < |b.data| && End(b) <= LIMIT && InRange(later)
    ensures var address := b.start + copied;
      Todo(b, copied, later, page) ==
        (if page == Some(address / PAGE) then [] else [Finalize(ExtendedRow(address))])
        + Todo(b, copied, later, Some(address / PAGE))
  {
    var left := Left(b, copied, later);
    assert left != [] && left[0].start == b.start + copied by { LeftStarts(b, copied, later); }
    PageLines(left, page, b.start + copied);
  }

  lemma RowsCons(c: Chunk, rest: seq<Chunk>)
    ensures var page := Some(c.start / PAGE);
      Lines(ChunkRows([c] + rest, page)) == [Finalize(DataRow(c))] + Lines(ChunkRows(rest, page))
  {
    var page := Some(c.start / PAGE);
    ConsTail(c, rest);
    assert PageRow(c.start, page) == [];
    var rows := [DataRow(c)] + ChunkRows(rest, page);
    assert [] + rows == rows;
    LinesCons(DataRow(c), ChunkRows(rest, page));
  }

  /** The chunk that the next row carries. */
  function ChunkAt(b: Block, copied: nat, n: nat): Chunk
    requires 0 < n <= ROW_WIDTH && copied + n <= |b.data| && End(b) <= LIMIT
  {
    Block(b.start + copied, b.data[copied..copied + n])
  }

  lemma ChunksCons(b: Block, copied: nat, n: nat)
    requires copied < |b.data| && End(b) <= LIMIT && n == RowSize(b.start + copied, |b.data| - copied)
    ensures Chunks(b.start + copied, b.data[copied..]) == [ChunkAt(b, copied, n)] + Chunks(b.start + copied + n, b.data[copied + n..])
  {
    SliceOfDrop(b.data, copied, n);
    ChunksUnfold(b.start + copied, b.data[copied..], n, b.data[copied..copied + n], b.data[copied + n..]);
  }

  lemma LeftCons(b: Block, copied: nat, later: seq<Block>, n: nat)
    requires 0 < n <= ROW_WIDTH && copied + n <= |b.data| && End(b) <= LIMIT && InRange(later)
    requires Chunks(b.start + copied, b.data[copied..]) == [ChunkAt(b, copied, n)] + Chunks(b.start + copied + n, b.data[copied + n..])
    ensures Left(b, copied, later) == [ChunkAt(b, copied, n)] + Left(b, copied + n, later)
  {
    var c, rest, all := ChunkAt(b, copied, n), Chunks(b.start + copied + n, b.data[copied + n..]), AllChunks(later);
    assert Left(b, copied, later) == ([c] + rest) + all;
    assert Left(b, copied + n, later) == rest + all;
    ConsAppend(c, rest, all);
  }

  /** The address is at the offset on the page. */
  predicate At(address: nat, page: nat, offset: nat) {
    address == page * PAGE + offset && offset < PAGE
  }

  lemma AtIs(address: nat, page: nat, offset: nat)
    ensures At(address, page, offset) <==> page == address / PAGE && offset == address % PAGE
  {
    if At(address, page, offset) { QuotientUnique(address, PAGE, page, offset); }
  }

  lemma TodoCons(b: Block, copied: nat, later: seq<Block>, n: nat, page: nat)
    requires 0 < n <= ROW_WIDTH && copied + n <= |b.data| && End(b) <= LIMIT && InRange(later)
    requires Left(b, copied, later) == [ChunkAt(b, copied, n)] + Left(b, copied + n, later)
    requires ChunkAt(b, copied, n).start / PAGE == page
    ensures Todo(b, copied, later, Some(page)) == [Finalize(DataRow(ChunkAt(b, copied, n)))] + Todo(b, copied + n, later, Some(page))
  {
    RowsCons(ChunkAt(b, copied, n), Left(b, copied + n, later));
  }

  /** On the page at hand, the next line is that of the next chunk. */
  lemma TodoChunk(b: Block, copied: nat, later: seq<Block>, page: nat, offset: nat, n: nat)
    requires copied < |b.data| && End(b) <= LIMIT && InRange(later) && At(b.start + copied, page, offset)
    requires n == Fitting(offset, |b.data| - copied)
    ensures Todo(b, copied, later, Some(page)) == [Finalize(DataRow(ChunkAt(b, copied, n)))] + Todo(b, copied + n, later, Some(page))
  {
    assert n == RowSize(b.start + copied, |b.data| - copied) && (b.start + copied) / PAGE == page by {
      AtIs(b.start + copied, page, offset);
    }
    assert Left(b, copied, later) == [ChunkAt(b, copied, n)] + Left(b, copied + n, later) by {
      ChunksCons(b, copied, n);
      LeftCons(b, copied, later, n);
    }
    TodoCons(b, copied, later, n, page);
  }

  /** The lines of the blocks from number k on. */
  ghost function TodoFrom(blocks: seq<Block>, k: nat, page: Option<nat>): seq<string>
    requires k <= |blocks| && InRange(blocks)
  {
    Lines(ChunkRows(AllChunks(blocks[k..]), page))
  }

  lemma TodoNext(blocks: seq<Block>, k: nat, page: Option<nat>)
    requires k < |blocks| && InRange(blocks)
    ensures TodoFrom(blocks, k, page) == Todo(blocks[k], 0, blocks[k + 1..], page)
    ensures TodoFrom(blocks, k + 1, page) == Todo(blocks[k], |blocks[k].data|, blocks[k + 1..], page)
  {
    var b := blocks[k];
    assert b in blocks;
    assert blocks[k..][1..] == blocks[k + 1..];
    DropWhole(b.data);
    assert b.data[|b.data|..] == [];
    assert Chunks(End(b), []) + AllChunks(blocks[k + 1..]) == AllChunks(blocks[k + 1..]);
  }

  lemma Reassociate(a: seq<string>, b: seq<string>, c: seq<string>)
    ensures a + (b + c) == (a + b) + c
  {}

  lemma LineWritten(lines: seq<string>, line: string, todo: seq<string>, rest: seq<string>)
    requires todo == [line] + rest
    ensures (lines + [line]) + rest == lines + todo
  {
    Reassociate(lines, [line], rest);
  }

  /** The record takes the next bytes: no more than its width, and none beyond the page. */
  method FillRecord(record: HexRow, b: Block, copied: nat) returns (n: nat)
    requires record.kind == DATA && record.data.Length == ROW_WIDTH
    requires copied < |b.data|
    modifies record`length, record.data
    ensures n == Fitting(record.offset, |b.data| - copied)
    ensures record.length == n && record.data[..n] == b.data[copied..copied + n]
  {
    n := |b.data| - copied;
    if n > ROW_WIDTH { n := ROW_WIDTH; }
    if n > PAGE - record.offset { n := PAGE - record.offset; }
    forall i | 0 <= i < n { record.data[i] := b.data[copied + i]; }
    record.length := n;
  }

  /** `_offset += n` in sixteen bits */
  function WrapAdd(offset: U16, n: nat): (r: U16)
    ensures offset + n < PAGE ==> r == offset + n
    ensures offset + n == PAGE ==> r == 0
  {
    (offset + n) % PAGE
  }

  lemma RecordIs(row: Row, b: Block, copied: nat, n: nat, page: nat, offset: nat)
    requires 0 < n <= ROW_WIDTH && copied + n <= |b.data| && End(b) <= LIMIT && At(b.start + copied, page, offset)
    requires row == Row(DATA, n, offset, 0, b.data[copied..copied + n])
    ensures row == DataRow(ChunkAt(b, copied, n))
  {
    AtIs(b.start + copied, page, offset);
  }

  /** One pass of the inner loop: a data row, after which the offset may have rolled over. */
  method WriteRow(record: HexRow, b: Block, copied: nat, ghost page: nat) returns (next: nat, line: string)
    requires record.kind == DATA && record.data.Length == ROW_WIDTH && record.start == 0
    requires copied < |b.data| && End(b) <= LIMIT && At(b.start + copied, page, record.offset)
    modifies record, record.data
    ensures record.start == 0 && next == copied + Fitting(old(record.offset), |b.data| - copied)
    ensures record.offset == 0 || At(b.start + next, page, record.offset)
    ensures line == Finalize(DataRow(ChunkAt(b, copied, next - copied)))
  {
    var n := FillRecord(record, b, copied);
    line := record.FinalizeLine();
    RecordIs(record.Contents(), b, copied, n, page, record.offset);
    next := copied + n;
    record.offset := WrapAdd(record.offset, n);
  }

  lemma RowWritten(b: Block, copied: nat, later: seq<Block>, page: nat, offset: nat, n: nat, lines: seq<string>, line: string)
    requires copied < |b.data| && End(b) <= LIMIT && InRange(later) && At(b.start + copied, page, offset)
    requires n == Fitting(offset, |b.data| - copied) && line == Finalize(DataRow(ChunkAt(b, copied, n)))
    ensures (lines + [line]) + Todo(b, copied + n, later, Some(page)) == lines + Todo(b, copied, later, Some(page))
  {
    TodoChunk(b, copied, later, page, offset, n);
    LineWritten(lines, line, Todo(b, copied, later, Some(page)), Todo(b, copied + n, later, Some(page)));
  }

  /** The inner loop: rows until the block ends or the offset rolls over. */
  method WritePage(record: HexRow, b: Block, copied: nat, ghost page: nat, ghost later: seq<Block>, lines: seq<string>)
    returns (next: nat, written: seq<string>)
    requires record.kind == DATA && record.data.Length == ROW_WIDTH && record.start == 0
    requires copied < |b.data| && End(b) <= LIMIT && InRange(later) && At(b.start + copied, page, record.offset)
    modifies record, record.data
    ensures record.start == 0 && copied < next <= |b.data|
    ensures written + Todo(b, next, later, Some(page)) == lines + Todo(b, copied, later, Some(page))
  {
    next, written := copied, lines;
    var rolled := false;
    while next < |b.data| && !rolled
      invariant copied <= next <= |b.data| && record.start == 0 && (rolled ==> copied < next)
      invariant !rolled ==> At(b.start + next, page, record.offset)
      invariant written + Todo(b, next, later, Some(page)) == lines + Todo(b, copied, later, Some(page))
      decreases |b.data| - next
    {
      ghost var at, offset := next, record.offset;
      var line: string;
      next, line := WriteRow(record, b, next, page);
      RowWritten(b, at, later, page, offset, next - at, written, line);
      written := written + [line];
      rolled := record.offset == 0;
    }
  }

  /** An extended address record, unless the page is the one at hand. */
  method WriteExtended(extended: HexRow, b: Block, copied: nat, ghost later: seq<Block>, lines: seq<string>, page: Option<nat>)
    returns (written: seq<string>)
    requires extended.kind == EXTENDED_LINEAR && extended.length == 2 && extended.offset == 0
    requires copied < |b.data| && End(b) <= LIMIT && InRange(later)
    modifies extended`start, extended`checksum
    ensures written + Todo(b, copied, later, Some((b.start + copied) / PAGE)) == lines + Todo(b, copied, later, page)
  {
    written := lines;
    extended.start := b.start + copied;
    if page != Some(extended.start / PAGE) {
      var line := extended.FinalizeLine();
      assert line == Finalize(ExtendedRow(b.start + copied));
      written := written + [line];
    }
    ExtendedWritten(b, copied, later, page, lines);
  }

  lemma ExtendedWritten(b: Block, copied: nat, later: seq<Block>, page: Option<nat>, lines: seq<string>)
    requires copied < |b.data| && End(b) <= LIMIT && InRange(later)
    ensures var own := Some((b.start + copied) / PAGE);
      (if page == own then lines else lines + [Finalize(ExtendedRow(b.start + copied))]) + Todo(b, copied, later, own)
      == lines + Todo(b, copied, later, page)
  {
    TodoPage(b, copied, later, page);
    var rest := Todo(b, copied, later, Some((b.start + copied) / PAGE));
    Reassociate(lines, [Finalize(ExtendedRow(b.start + copied))], rest);
    assert [] + rest == rest;
  }

  /** The loop over the pages of a block. */
  method WriteBlock(extended: HexRow, record: HexRow, b: Block, ghost later: seq<Block>, lines: seq<string>, page: Option<nat>)
    returns (newPage: Option<nat>, written: seq<string>)
    requires extended != record && extended.kind == EXTENDED_LINEAR && extended.length == 2 && extended.offset == 0
    requires record.kind == DATA && record.data.Length == ROW_WIDTH && record.start == 0
    requires End(b) <= LIMIT && InRange(later)
    modifies extended`start, extended`checksum, record, record.data
    ensures record.start == 0
    ensures written + Todo(b, |b.data|, later, newPage) == lines + Todo(b, 0, later, page)
  {
    var copied := 0;
    written, newPage := lines, page;
    while copied < |b.data|
      invariant 0 <= copied <= |b.data| && record.start == 0
      invariant written + Todo(b, copied, later, newPage) == lines + Todo(b, 0, later, page)
      decreases |b.data| - copied
    {
      written := WriteExtended(extended, b, copied, later, written, newPage);
      newPage := Some((b.start + copied) / PAGE);
      record.offset := (b.start + copied) % PAGE;
      AtIs(b.start + copied, newPage.value, record.offset);
      copied, written := WritePage(record, b, copied, newPage.value, later, written);
    }
  }

  lemma BlockWritten(blocks: seq<Block>, k: nat, before: Option<nat>, page: Option<nat>, written: seq<string>, lines: seq<string>)
    requires k < |blocks| && InRange(blocks) && End(blocks[k]) <= LIMIT
    requires lines + Todo(blocks[k], |blocks[k].data|, blocks[k + 1..], page) == written + Todo(blocks[k], 0, blocks[k + 1..], before)
    ensures lines + TodoFrom(blocks, k + 1, page) == written + TodoFrom(blocks, k, before)
  {
    TodoNext(blocks, k, before);
    TodoNext(blocks, k, page);
  }

  lemma InRangeDrop(blocks: seq<Block>, k: nat)
    requires k < |blocks| && InRange(blocks)
    ensures End(blocks[k]) <= LIMIT && InRange(blocks[k + 1..])
  {
    assert blocks[k] in blocks;
  }

  /** The loop over the blocks, in the order of their addresses. */
  method WriteBlocks(extended: HexRow, record: HexRow, blocks: seq<Block>) returns (lines: seq<string>)
    requires extended != record && extended.kind == EXTENDED_LINEAR && extended.length == 2 && extended.offset == 0
    requires record.kind == DATA && record.data.Length == ROW_WIDTH && record.start == 0
    requires InRange(blocks)
    modifies extended`start, extended`checksum, record, record.data
    ensures lines == TodoFrom(blocks, 0, None)
  {
    ghost var total := TodoFrom(blocks, 0, None);
    var page: Option<nat> := None;
    lines := [];
    assert [] + total == total;
    var k := 0;
    while k < |blocks|
      invariant 0 <= k <= |blocks| && record.start == 0
      invariant lines + TodoFrom(blocks, k, page) == total
    {
      InRangeDrop(blocks, k);
      ghost var before, written := page, lines;
      page, lines := WriteBlock(extended, record, blocks[k], blocks[k + 1..], lines, page);
      BlockWritten(blocks, k, before, page, written, lines);
      k := k + 1;
    }
    NothingLeft(blocks, page, lines);
  }

  lemma NothingLeft(blocks: seq<Block>, page: Option<nat>, lines: seq<string>)
    requires InRange(blocks)
    ensures lines + TodoFrom(blocks, |blocks|, page) == lines
  {
    assert lines + [] == lines;
  }

  /** `ToStream` */
  method ToStream(image: Image) returns (lines: seq<string>)
    requires InRange(image.blocks)
    ensures lines == WriteImage(image)
  {
    SortedContents(image.blocks);
    var blocks := SortBlocks(image.blocks);
    var extended := new HexRow(EXTENDED_LINEAR, 2, 0);
    var record := new HexRow(DATA, 0, ROW_WIDTH);
    lines := WriteBlocks(extended, record, blocks);
    assert blocks[0..] == blocks;
    ghost var body, trailer := lines, Lines(EntryRows(image.entry));
    if image.entry.Some? {
      var entry := new HexRow(START_LINEAR, 4, 0);
      entry.start := image.entry.value;
      var line := entry.FinalizeLine();
      assert entry.Contents() == EntryRow(image.entry.value);
      assert trailer == [line] by { OneLine(EntryRow(image.entry.value)); }
      lines := lines + [line];
    } else {
      assert body + trailer == body;
    }
    assert lines == body + trailer;
    lines := lines + [END_LINE];
  }

  // ---- The reader ----

  /** A data record continues the range at hand, or closes it and opens another. */
  method PlaceRecord(s: ReaderState, b: Block) returns (r: ReaderState)
    ensures r == Place(s, b)
  {
    r := s;
    if r.current.None? || b.start != r.current.value.next {
      if r.current.Some? { r := r.(closed := r.closed + [r.current.value]); }
      r := r.(current := Some(Span(b.start, b.start)));
    }
    r := r.(current := Some(Span(r.current.value.start, End(b))));
    r := r.(placed := r.placed + [b]);
  }

  /** One record, by its type. */
  method TakeRecord(s: ReaderState, row: Row, checksum: Byte) returns (r: ReaderState)
    ensures r == Take(s, row, checksum)
  {
    r := s;
    if checksum != Checksum(row) { r := r.(warnings := r.warnings + 1); }
    if row.kind == DATA {
      r := PlaceRecord(r, Block(r.base + row.offset, row.data));
    } else if row.kind == EXTENDED_LINEAR || row.kind == EXTENDED_SEGMENT {
      r := r.(base := row.start);
    } else if row.kind == START_LINEAR || row.kind == START_SEGMENT {
      r := r.(entry := Some(row.start));
    }
  }

  /** The records are copied into the blocks, one after the other. */
  method FillBlocks(blank: seq<Block>, placed: seq<Block>) returns (blocks: Option<seq<Block>>)
    requires |blank| > 0
    ensures blocks == Fill(blank, 0, placed)
  {
    var filled, at, j := blank, 0, 0;
    DropWhole(placed);
    while j < |placed|
      invariant 0 <= j <= |placed| && at < |filled|
      invariant Fill(filled, at, placed[j..]) == Fill(blank, 0, placed)
    {
      DropDrop(placed, j, 1);
      var (next, position) := Target(filled, at, placed[j]);
      if next >= |filled| || position + |placed[j].data| > |filled[next].data| { return None; }
      at := next;
      filled := filled[at := Put(filled[at], position, placed[j].data)];
      j := j + 1;
    }
    blocks := Some(filled);
  }

  /** `FromStreamReader`: ranges are collected line by line, then the blocks are filled. */
  method FromStreamReader(lines: seq<string>) returns (r: Loaded)
    ensures r == ReadImage(lines)
  {
    if |lines| <= 1 { return Rejected; }
    var s := INITIAL;
    DropWhole(lines);
    var i := 0;
    while i < |lines|
      invariant 0 <= i <= |lines|
      invariant ReadLines(INITIAL, lines) == ReadLines(s, lines[i..])
    {
      DropDrop(lines, i, 1);
      var parsed := ParseLine(lines[i]);
      if parsed.BadFormat? { return Rejected; }
      if parsed.Read? { s := TakeRecord(s, parsed.row, parsed.checksum); }
      i := i + 1;
    }
    if s.current.None? { return Rejected; }
    var blocks := FillBlocks(Blanks(s.closed + [s.current.value]), s.placed);
    if blocks.None? { return Crashed; }
    r := Loaded(Image(blocks.value, s.entry), s.warnings);
  }
}
