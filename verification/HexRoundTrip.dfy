/** Reading back a written Intel HEX image gives the same bytes at the same addresses. */
module HexRoundTrip {
  import opened Words
  import opened Results
  import opened Seqs
  import opened IntelHex
  import opened HexImage

  function PlaceAll(s: ReaderState, chunks: seq<Block>): ReaderState
    decreases |chunks|
  {
    if chunks == [] then s else PlaceAll(Place(s, chunks[0]), chunks[1..])
  }

  /** The base address of a page. */
  function PageBase(address: nat): nat {
    address / PAGE * PAGE
  }

  /** The base address after the rows of the chunks. */
  function FinalBase(chunks: seq<Chunk>, base: nat): nat {
    if chunks == [] then base else PageBase(chunks[|chunks| - 1].start)
  }

  lemma {:induction false} PlaceKeepsBase(s: ReaderState, chunks: seq<Block>, base: nat)
    ensures PlaceAll(s.(base := base), chunks) == PlaceAll(s, chunks).(base := base)
    decreases |chunks|
  {
    if chunks != [] { PlaceKeepsBase(Place(s, chunks[0]), chunks[1..], base); }
  }

  // ---- Rows read back ----

  predicate AllEmitted(rows: seq<Row>) {
    rows == [] || (Emitted(rows[0]) && AllEmitted(rows[1..]))
  }

  /** What the reader's state becomes over the rows. */
  function ReadRows(s: ReaderState, rows: seq<Row>): ReaderState
    decreases |rows|
  {
    if rows == [] then s else ReadRows(Apply(s, Carried(rows[0])), rows[1..])
  }

  lemma LineRead(s: ReaderState, row: Row)
    requires Emitted(row)
    ensures ReadLine(s, Finalize(row)) == Some(Apply(s, Carried(row)))
  {
    LineRoundTrip(row);
  }

  /** The lines of emitted rows are read without a warning. */
  lemma {:induction false} LinesRead(s: ReaderState, rows: seq<Row>)
    requires AllEmitted(rows)
    ensures ReadLines(s, Lines(rows)) == Some(ReadRows(s, rows))
    decreases |rows|
  {
    if rows != [] {
      LineRead(s, rows[0]);
      ConsTail(Finalize(rows[0]), Lines(rows[1..]));
      LinesRead(Apply(s, Carried(rows[0])), rows[1..]);
    }
  }

  lemma {:induction false} ReadRowsAppend(s: ReaderState, a: seq<Row>, b: seq<Row>)
    ensures ReadRows(s, a + b) == ReadRows(ReadRows(s, a), b)
    decreases |a|
  {
    if a == [] {
      assert a + b == b;
    } else {
      assert (a + b)[0] == a[0] && (a + b)[1..] == a[1..] + b;
      ReadRowsAppend(Apply(s, Carried(a[0])), a[1..], b);
    }
  }

  lemma OneRow(s: ReaderState, row: Row)
    ensures ReadRows(s, [row]) == Apply(s, Carried(row))
  {
    assert [row][1..] == [];
  }

  lemma PageSplit(address: nat)
    ensures PageBase(address) + address % PAGE == address
  {}

  lemma PageRowRead(s: ReaderState, address: U32, page: Option<nat>)
    requires page.Some? ==> s.base == page.value * PAGE
    ensures ReadRows(s, PageRow(address, page)) == s.(base := PageBase(address))
  {
    if page == Some(address / PAGE) {
      assert s.(base := PageBase(address)) == s;
    } else {
      OneRow(s, ExtendedRow(address));
    }
  }

  lemma DataRowApplied(s: ReaderState, c: Chunk)
    requires s.base + DataRow(c).offset == c.start
    ensures Apply(s, Carried(DataRow(c))) == Place(s, c)
  {
    assert Block(c.start, c.data) == c;
  }

  lemma DataRowRead(s: ReaderState, c: Chunk)
    requires s.base == PageBase(c.start)
    ensures ReadRows(s, [DataRow(c)]) == Place(s, c)
  {
    OneRow(s, DataRow(c));
    assert Apply(s, Carried(DataRow(c))) == Place(s, c) by {
      PageSplit(c.start);
      DataRowApplied(s, c);
    }
  }

  /** The rows of a chunk place it. */
  lemma ChunkRead(s: ReaderState, c: Chunk, page: Option<nat>, rest: seq<Row>)
    requires page.Some? ==> s.base == page.value * PAGE
    ensures ReadRows(s, PageRow(c.start, page) + ([DataRow(c)] + rest)) == ReadRows(Place(s, c).(base := PageBase(c.start)), rest)
  {
    var s1 := s.(base := PageBase(c.start));
    PageRowRead(s, c.start, page);
    DataRowRead(s1, c);
    ReadRowsAppend(s, PageRow(c.start, page), [DataRow(c)] + rest);
    ReadRowsAppend(s1, [DataRow(c)], rest);
  }

  /** The rows of a list of chunks place them all, in order. */
  lemma {:induction false} ChunkRowsRead(s: ReaderState, chunks: seq<Chunk>, page: Option<nat>)
    requires page.Some? ==> s.base == page.value * PAGE
    ensures ReadRows(s, ChunkRows(chunks, page)) == PlaceAll(s, chunks).(base := FinalBase(chunks, s.base))
    decreases |chunks|
  {
    if chunks == [] {
      assert s.(base := s.base) == s;
    } else {
      var c, next := chunks[0], Place(s, chunks[0]).(base := PageBase(chunks[0].start));
      ChunkRead(s, c, page, ChunkRows(chunks[1..], Some(c.start / PAGE)));
      ChunkRowsRead(next, chunks[1..], Some(c.start / PAGE));
      PlaceKeepsBase(Place(s, c), chunks[1..], next.base);
    }
  }

  lemma EmittedRow(row: Row)
    requires Emitted(row)
    ensures AllEmitted([row])
  {
    assert [row][1..] == [];
  }

  lemma {:induction false} EmittedAppend(a: seq<Row>, b: seq<Row>)
    requires AllEmitted(a) && AllEmitted(b)
    ensures AllEmitted(a + b)
  {
    if a == [] {
      assert a + b == b;
    } else {
      assert (a + b)[0] == a[0] && (a + b)[1..] == a[1..] + b;
      EmittedAppend(a[1..], b);
    }
  }

  lemma {:induction false} ChunkRowsEmitted(chunks: seq<Chunk>, page: Option<nat>)
    ensures AllEmitted(ChunkRows(chunks, page))
  {
    if chunks != [] {
      var c, rest := chunks[0], ChunkRows(chunks[1..], Some(chunks[0].start / PAGE));
      ChunkRowsEmitted(chunks[1..], Some(c.start / PAGE));
      EmittedRow(DataRow(c));
      EmittedRow(ExtendedRow(c.start));
      EmittedAppend([DataRow(c)], rest);
      EmittedAppend(PageRow(c.start, page), [DataRow(c)] + rest);
    }
  }

  const END_ROW: Row := Row(END_OF_FILE, 0, 0, 0, [])

  lemma EndLine()
    ensures Finalize(END_ROW) == END_LINE
  {
    var body := [0, 0, 0, 1];
    assert Header(END_ROW) + Payload(END_ROW) == body;
    SumCons(body, 0, [0, 0, 1]);
    SumCons([0, 0, 1], 0, [0, 1]);
    SumCons([0, 1], 0, [1]);
    SumCons([1], 1, []);
    assert body + [Checksum(END_ROW)] == [0] + ([0] + ([0] + ([1] + ([255] + []))));
    HexPair(0, [0] + ([0] + ([1] + ([255] + []))));
    HexPair(0, [0] + ([1] + ([255] + [])));
    HexPair(0, [1] + ([255] + []));
    HexPair(1, [255] + []);
    HexPair(255, []);
  }

  lemma SumCons(whole: seq<Byte>, b: Byte, rest: seq<Byte>)
    requires whole == [b] + rest
    ensures Sum(whole) == b + Sum(rest)
  {
    assert whole[1..] == rest;
  }

  lemma HexPair(b: Byte, rest: seq<Byte>)
    ensures Hex([b] + rest) == [HexDigit(b / 16), HexDigit(b % 16)] + Hex(rest)
  {
    ConsTail(b, rest);
  }

  /** The chunks of an image, in the order in which they are written. */
  function ImageChunks(image: Image): seq<Chunk>
    requires InRange(image.blocks)
  {
    SortedContents(image.blocks);
    AllChunks(SortBlocks(image.blocks))
  }

  /** The rows of a file. */
  function ImageRows(image: Image): seq<Row>
    requires InRange(image.blocks)
  {
    ChunkRows(ImageChunks(image), None) + EntryRows(image.entry) + [END_ROW]
  }

  lemma {:induction false} LinesAppend(a: seq<Row>, b: seq<Row>)
    ensures Lines(a + b) == Lines(a) + Lines(b)
    decreases |a|
  {
    if a == [] {
      assert a + b == b;
    } else {
      assert (a + b)[0] == a[0] && (a + b)[1..] == a[1..] + b;
      LinesAppend(a[1..], b);
    }
  }

  lemma OneLine(row: Row)
    ensures Lines([row]) == [Finalize(row)]
  {
    assert [row][1..] == [];
  }

  lemma ImageLines(image: Image)
    requires InRange(image.blocks)
    ensures WriteImage(image) == Lines(ImageRows(image))
  {
    var rows := ChunkRows(ImageChunks(image), None);
    LinesAppend(rows + EntryRows(image.entry), [END_ROW]);
    LinesAppend(rows, EntryRows(image.entry));
    EndLine();
    OneLine(END_ROW);
  }

  lemma ImageEmitted(image: Image)
    requires InRange(image.blocks)
    ensures AllEmitted(ImageRows(image))
  {
    var rows := ChunkRows(ImageChunks(image), None);
    ChunkRowsEmitted(ImageChunks(image), None);
    EmittedRow(END_ROW);
    if image.entry.Some? { EmittedRow(EntryRow(image.entry.value)); }
    EmittedAppend(rows, EntryRows(image.entry));
    EmittedAppend(rows + EntryRows(image.entry), [END_ROW]);
  }

  /** All the lines of a written image are read, without a warning. */
  lemma ImageRead(image: Image)
    requires InRange(image.blocks)
    ensures var chunks := ImageChunks(image);
      ReadLines(INITIAL, WriteImage(image)) == Some(PlaceAll(INITIAL, chunks).(base := FinalBase(chunks, 0), entry := image.entry))
  {
    var chunks := ImageChunks(image);
    ImageLines(image);
    ImageEmitted(image);
    LinesRead(INITIAL, ImageRows(image));
    ChunkRowsRead(INITIAL, chunks, None);
    PlaceKeepsEntry(INITIAL, chunks);
    TrailerRead(INITIAL, ChunkRows(chunks, None), PlaceAll(INITIAL, chunks).(base := FinalBase(chunks, 0)), image.entry);
  }

  lemma TrailerRead(s0: ReaderState, rows: seq<Row>, s: ReaderState, entry: Option<U32>)
    requires ReadRows(s0, rows) == s && s.entry.None?
    ensures ReadRows(s0, rows + EntryRows(entry) + [END_ROW]) == s.(entry := entry)
  {
    ReadRowsAppend(s0, rows, EntryRows(entry));
    if entry.Some? { OneRow(s, EntryRow(entry.value)); } else { assert s.(entry := entry) == s; }
    ReadRowsAppend(s0, rows + EntryRows(entry), [END_ROW]);
    OneRow(s.(entry := entry), END_ROW);
  }

  lemma {:induction false} PlaceKeepsEntry(s: ReaderState, chunks: seq<Block>)
    ensures PlaceAll(s, chunks).entry == s.entry && PlaceAll(s, chunks).warnings == s.warnings
    ensures PlaceAll(s, chunks).placed == s.placed + chunks
    decreases |chunks|
  {
    if chunks == [] {
      assert s.placed + chunks == s.placed;
    } else {
      PlaceKeepsEntry(Place(s, chunks[0]), chunks[1..]);
      AppendAssoc(s.placed, [chunks[0]], chunks[1..]);
      assert [chunks[0]] + chunks[1..] == chunks;
    }
  }
}
