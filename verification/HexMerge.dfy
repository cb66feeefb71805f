/** How the reader groups data records into blocks, and the round trip of whole images
    (`obsolete/dotnet/programs/binary/IntelHexidecimalFile.cs`). */
module HexMerge {
  import opened Words
  import opened Results
  import opened Seqs
  import opened IntelHex
  import opened HexImage
  import opened HexRoundTrip

  // ---- Blocks out of chunks ----

  /** A chunk that starts where the last block ends continues it. */
  function Extend(acc: seq<Block>, b: Block): seq<Block> {
    if acc != [] && End(acc[|acc| - 1]) == b.start then
      acc[..|acc| - 1] + [Block(acc[|acc| - 1].start, acc[|acc| - 1].data + b.data)]
    else acc + [b]
  }

  function MergeInto(acc: seq<Block>, chunks: seq<Block>): seq<Block>
    decreases |chunks|
  {
    if chunks == [] then acc else MergeInto(Extend(acc, chunks[0]), chunks[1..])
  }

  /** Chunks of at least one byte, each after the one before and none below `low`. */
  predicate AscendingFrom(low: nat, chunks: seq<Block>)
    decreases |chunks|
  {
    chunks == [] || (low <= chunks[0].start && chunks[0].data != [] && AscendingFrom(End(chunks[0]), chunks[1..]))
  }

  // ---- The ranges of the reader ----

  function SpanOf(b: Block): Span {
    Span(b.start, End(b))
  }

  /** The reader's ranges are those of the blocks merged so far. */
  predicate Mirrors(s: ReaderState, acc: seq<Block>) {
    if acc == [] then s.current.None? && s.closed == []
    else
      && s.current == Some(SpanOf(acc[|acc| - 1]))
      && |s.closed| == |acc| - 1
      && forall k | 0 <= k < |acc| - 1 :: s.closed[k] == SpanOf(acc[k])
  }

  lemma MirrorStep(s: ReaderState, acc: seq<Block>, b: Block)
    requires Mirrors(s, acc)
    ensures Mirrors(Place(s, b), Extend(acc, b))
  {}

  lemma {:induction false} MirrorAll(s: ReaderState, acc: seq<Block>, chunks: seq<Block>)
    requires Mirrors(s, acc)
    ensures Mirrors(PlaceAll(s, chunks), MergeInto(acc, chunks))
    decreases |chunks|
  {
    if chunks != [] {
      MirrorStep(s, acc, chunks[0]);
      MirrorAll(Place(s, chunks[0]), Extend(acc, chunks[0]), chunks[1..]);
    }
  }

  // ---- Merging only adds at the end ----

  /** `merged` begins with `acc`, the last block of which may have grown. */
  predicate Grows(acc: seq<Block>, merged: seq<Block>) {
    && |acc| <= |merged|
    && (forall k | 0 <= k < |acc| - 1 :: merged[k] == acc[k])
    && (acc != [] ==> GrowsBlock(acc[|acc| - 1], merged[|acc| - 1]))
  }

  predicate GrowsBlock(b: Block, grown: Block) {
    grown.start == b.start && b.data <= grown.data
  }

  lemma GrowsThrough(acc: seq<Block>, next: seq<Block>, merged: seq<Block>)
    requires Grows(acc, next) && Grows(next, merged)
    ensures Grows(acc, merged)
  {
    if acc != [] {
      var k := |acc| - 1;
      if k == |next| - 1 {
        PrefixThrough(acc[k].data, next[k].data, merged[k].data);
      }
    }
  }

  lemma PrefixThrough(a: seq<Byte>, b: seq<Byte>, c: seq<Byte>)
    requires a <= b && b <= c
    ensures a <= c
  {}

  lemma ExtendGrows(acc: seq<Block>, b: Block)
    ensures Grows(acc, Extend(acc, b))
  {}

  lemma {:induction false} MergeGrows(acc: seq<Block>, chunks: seq<Block>)
    ensures Grows(acc, MergeInto(acc, chunks))
    decreases |chunks|
  {
    if chunks != [] {
      ExtendGrows(acc, chunks[0]);
      MergeGrows(Extend(acc, chunks[0]), chunks[1..]);
      GrowsThrough(acc, Extend(acc, chunks[0]), MergeInto(acc, chunks));
    }
  }

  // ---- Filling the blocks ----

  /** The blocks have their final ranges, and hold what is merged so far. */
  predicate FilledUpTo(blocks: seq<Block>, acc: seq<Block>, merged: seq<Block>) {
    && |acc| <= |blocks| == |merged|
    && (forall k | 0 <= k < |merged| :: SpanOf(blocks[k]) == SpanOf(merged[k]))
    && (forall k | 0 <= k < |acc| :: acc[k].data <= blocks[k].data)
  }

  lemma FilledAll(blocks: seq<Block>, merged: seq<Block>)
    requires FilledUpTo(blocks, merged, merged)
    ensures blocks == merged
  {
    forall k | 0 <= k < |merged| ensures blocks[k] == merged[k] {
      assert SpanOf(blocks[k]) == SpanOf(merged[k]);
      assert |blocks[k].data| == |merged[k].data|;
    }
  }

  /** The next chunk belongs where the records put it. */
  lemma TargetIs(blocks: seq<Block>, acc: seq<Block>, merged: seq<Block>, b: Block)
    requires acc != [] && FilledUpTo(blocks, acc, merged) && Grows(Extend(acc, b), merged) && b.data != []
    requires End(acc[|acc| - 1]) <= b.start
    ensures var (next, position) := Target(blocks, |acc| - 1, b);
      && next == |Extend(acc, b)| - 1 < |blocks| && position + |b.data| <= |blocks[next].data|
      && position == if next < |acc| then |acc[next].data| else 0
  {
    var at, next := |acc| - 1, Extend(acc, b);
    assert SpanOf(blocks[at]) == SpanOf(merged[at]);
    if End(acc[at]) == b.start {
      assert next[at].data == acc[at].data + b.data && next[at].data <= merged[at].data;
    } else {
      assert merged[at] == acc[at];
      assert SpanOf(blocks[at + 1]) == SpanOf(merged[at + 1]);
      assert next[at + 1] == b && b.data <= merged[at + 1].data;
    }
  }

  lemma PutPrefix(b: Block, done: seq<Byte>, data: seq<Byte>)
    requires done <= b.data && |done| + |data| <= |b.data|
    ensures done + data <= Put(b, |done|, data).data
    ensures SpanOf(Put(b, |done|, data)) == SpanOf(b)
  {}

  /** Writing it there fills the blocks up to it. */
  lemma PutStep(blocks: seq<Block>, acc: seq<Block>, merged: seq<Block>, b: Block, next: nat, position: nat)
    requires acc != [] && FilledUpTo(blocks, acc, merged) && Grows(Extend(acc, b), merged)
    requires next == |Extend(acc, b)| - 1 < |blocks| && position + |b.data| <= |blocks[next].data|
    requires position == if next < |acc| then |acc[next].data| else 0
    ensures FilledUpTo(blocks[next := Put(blocks[next], position, b.data)], Extend(acc, b), merged)
  {
    if next < |acc| {
      PutPrefix(blocks[next], acc[next].data, b.data);
    } else {
      PutPrefix(blocks[next], [], b.data);
      assert [] + b.data == b.data;
    }
  }

  /** Filling puts every chunk where merging puts it. */
  lemma {:induction false} FillFrom(blocks: seq<Block>, acc: seq<Block>, chunks: seq<Block>, merged: seq<Block>)
    requires acc != [] && merged == MergeInto(acc, chunks) && FilledUpTo(blocks, acc, merged)
    requires AscendingFrom(End(acc[|acc| - 1]), chunks)
    ensures Fill(blocks, |acc| - 1, chunks) == Some(merged)
    decreases |chunks|
  {
    if chunks == [] {
      FilledAll(blocks, merged);
    } else {
      var b, grown := chunks[0], Extend(acc, chunks[0]);
      MergeGrows(grown, chunks[1..]);
      TargetIs(blocks, acc, merged, b);
      var (next, position) := Target(blocks, |acc| - 1, b);
      PutStep(blocks, acc, merged, b, next, position);
      ExtendEnd(acc, b);
      FillFrom(blocks[next := Put(blocks[next], position, b.data)], grown, chunks[1..], merged);
    }
  }

  lemma ExtendEnd(acc: seq<Block>, b: Block)
    ensures Extend(acc, b) != [] && End(Extend(acc, b)[|Extend(acc, b)| - 1]) == End(b)
  {}

  lemma {:induction false} BlankSpans(spans: seq<Span>)
    requires forall k | 0 <= k < |spans| :: spans[k].start <= spans[k].next
    ensures forall k | 0 <= k < |spans| :: SpanOf(Blanks(spans)[k]) == spans[k]
  {
    if spans != [] { BlankSpans(spans[1..]); }
  }

  /** The first chunk opens the first block. */
  lemma FirstStep(blocks: seq<Block>, merged: seq<Block>, b: Block)
    requires FilledUpTo(blocks, [], merged) && Grows([b], merged) && b.data != []
    ensures |blocks| > 0 && Target(blocks, 0, b) == (0, 0) && |b.data| <= |blocks[0].data|
    ensures FilledUpTo(blocks[0 := Put(blocks[0], 0, b.data)], [b], merged)
  {
    assert SpanOf(blocks[0]) == SpanOf(merged[0]);
    assert GrowsBlock(b, merged[0]);
    PutPrefix(blocks[0], [], b.data);
    assert [] + b.data == b.data;
  }

  /** The blocks made for the ranges are filled with the merged chunks. */
  lemma FillMerges(blocks: seq<Block>, chunks: seq<Block>)
    requires chunks != [] && AscendingFrom(0, chunks)
    requires FilledUpTo(blocks, [], MergeInto([], chunks))
    ensures |blocks| > 0 && Fill(blocks, 0, chunks) == Some(MergeInto([], chunks))
  {
    var b, merged := chunks[0], MergeInto([], chunks);
    assert Extend([], b) == [b];
    MergeGrows([b], chunks[1..]);
    FirstStep(blocks, merged, b);
    FillFrom(blocks[0 := Put(blocks[0], 0, b.data)], [b], chunks[1..], merged);
  }

  // ---- Merging keeps the bytes ----

  lemma HoldsSplit(a: seq<Block>, b: seq<Block>, address: nat, value: Byte)
    ensures Holds(a + b, address, value) <==> Holds(a, address, value) || Holds(b, address, value)
  {
    if Holds(a + b, address, value) {
      var x :| x in a + b && HoldsAt(x, address, value);
      assert x in a || x in b;
    }
    if Holds(a, address, value) {
      var x :| x in a && HoldsAt(x, address, value);
      assert x in a + b;
    }
    if Holds(b, address, value) {
      var x :| x in b && HoldsAt(x, address, value);
      assert x in a + b;
    }
  }

  lemma HoldsOne(b: Block, address: nat, value: Byte)
    ensures Holds([b], address, value) <==> HoldsAt(b, address, value)
  {
    assert b in [b];
  }

  lemma HoldsJoined(start: nat, a: seq<Byte>, b: seq<Byte>, address: nat, value: Byte)
    ensures HoldsAt(Block(start, a + b), address, value) <==>
            HoldsAt(Block(start, a), address, value) || HoldsAt(Block(start + |a|, b), address, value)
  {}

  lemma ExtendHolds(acc: seq<Block>, b: Block, address: nat, value: Byte)
    ensures Holds(Extend(acc, b), address, value) <==> Holds(acc, address, value) || HoldsAt(b, address, value)
  {
    HoldsOne(b, address, value);
    HoldsSplit(acc, [b], address, value);
    if acc != [] && End(acc[|acc| - 1]) == b.start {
      var front, last := acc[..|acc| - 1], acc[|acc| - 1];
      assert acc == front + [last];
      HoldsSplit(front, [last], address, value);
      HoldsOne(last, address, value);
      var joined := Block(last.start, last.data + b.data);
      HoldsSplit(front, [joined], address, value);
      HoldsOne(joined, address, value);
      HoldsJoined(last.start, last.data, b.data, address, value);
    }
  }

  lemma {:induction false} MergeHolds(acc: seq<Block>, chunks: seq<Block>, address: nat, value: Byte)
    ensures Holds(MergeInto(acc, chunks), address, value) <==> Holds(acc, address, value) || Holds(chunks, address, value)
    decreases |chunks|
  {
    if chunks != [] {
      ExtendHolds(acc, chunks[0], address, value);
      MergeHolds(Extend(acc, chunks[0]), chunks[1..], address, value);
      HoldsOne(chunks[0], address, value);
      HoldsSplit([chunks[0]], chunks[1..], address, value);
      assert [chunks[0]] + chunks[1..] == chunks;
    }
  }

  lemma HoldsPieces(start: nat, data: seq<Byte>, n: nat, address: nat, value: Byte)
    requires n <= |data|
    ensures HoldsAt(Block(start, data), address, value) <==>
            HoldsAt(Block(start, data[..n]), address, value) || HoldsAt(Block(start + n, data[n..]), address, value)
  {}

  lemma {:induction false} ChunksHold(start: nat, data: seq<Byte>, address: nat, value: Byte)
    requires start + |data| <= LIMIT
    ensures Holds(Chunks(start, data), address, value) <==> HoldsAt(Block(start, data), address, value)
    decreases |data|
  {
    if data != [] {
      var n := RowSize(start, |data|);
      var head, rest := Block(start, data[..n]), Chunks(start + n, data[n..]);
      ChunksHold(start + n, data[n..], address, value);
      HoldsOne(head, address, value);
      HoldsSplit([head], rest, address, value);
      HoldsPieces(start, data, n, address, value);
    }
  }

  lemma {:induction false} AllChunksHold(blocks: seq<Block>, address: nat, value: Byte)
    requires InRange(blocks)
    ensures Holds(AllChunks(blocks), address, value) <==> Holds(blocks, address, value)
  {
    if blocks != [] {
      var b, rest := blocks[0], blocks[1..];
      assert b in blocks;
      AllChunksHold(rest, address, value);
      ChunksHold(b.start, b.data, address, value);
      HoldsSplit(Chunks(b.start, b.data), AllChunks(rest), address, value);
      HoldsOne(b, address, value);
      HoldsSplit([b], rest, address, value);
      assert [b] + rest == blocks;
      assert Block(b.start, b.data) == b;
    }
  }

  lemma SortedHold(blocks: seq<Block>, address: nat, value: Byte)
    ensures Holds(SortBlocks(blocks), address, value) <==> Holds(blocks, address, value)
  {
    SortedContents(blocks);
  }

  // ---- Chunks of disjoint blocks ascend ----

  /** No address is in both blocks. */
  predicate Apart(a: Block, b: Block) {
    a.data == [] || b.data == [] || End(a) <= b.start || End(b) <= a.start
  }

  predicate AllApart(blocks: seq<Block>) {
    blocks == [] || ((forall b | b in blocks[1..] :: Apart(blocks[0], b)) && AllApart(blocks[1..]))
  }

  predicate ByStart(blocks: seq<Block>) {
    blocks == [] || ((forall b | b in blocks[1..] :: blocks[0].start <= b.start) && ByStart(blocks[1..]))
  }

  lemma {:induction false} InsertOrdered(b: Block, sorted: seq<Block>)
    requires ByStart(sorted) && AllApart(sorted) && forall x | x in sorted :: Apart(b, x)
    ensures ByStart(InsertBlock(b, sorted)) && AllApart(InsertBlock(b, sorted))
  {
    var inserted := InsertBlock(b, sorted);
    if sorted == [] || b.start <= sorted[0].start {
      assert inserted[1..] == sorted;
      if sorted != [] { assert sorted == [sorted[0]] + sorted[1..]; }
    } else {
      assert inserted[1..] == InsertBlock(b, sorted[1..]);
      InsertOrdered(b, sorted[1..]);
      InsertedContents(b, sorted[1..]);
      forall x | x in inserted[1..] ensures Apart(sorted[0], x) && sorted[0].start <= x.start {
        assert x == b || x in sorted[1..];
        assert Apart(b, sorted[0]);
      }
    }
  }

  lemma {:induction false} SortOrdered(blocks: seq<Block>)
    requires AllApart(blocks)
    ensures ByStart(SortBlocks(blocks)) && AllApart(SortBlocks(blocks))
  {
    if blocks != [] {
      SortOrdered(blocks[1..]);
      SortedContents(blocks[1..]);
      InsertOrdered(blocks[0], SortBlocks(blocks[1..]));
    }
  }

  function LastEnd(low: nat, chunks: seq<Block>): nat
    decreases |chunks|
  {
    if chunks == [] then low else LastEnd(End(chunks[0]), chunks[1..])
  }

  lemma {:induction false} AscendingAppend(low: nat, a: seq<Block>, b: seq<Block>)
    requires AscendingFrom(low, a) && AscendingFrom(LastEnd(low, a), b)
    ensures AscendingFrom(low, a + b)
    decreases |a|
  {
    if a == [] {
      assert a + b == b;
    } else {
      assert (a + b)[0] == a[0] && (a + b)[1..] == a[1..] + b;
      AscendingAppend(End(a[0]), a[1..], b);
    }
  }

  lemma {:induction false} ChunksAscend(low: nat, start: nat, data: seq<Byte>)
    requires start + |data| <= LIMIT && low <= start
    ensures AscendingFrom(low, Chunks(start, data))
    ensures LastEnd(low, Chunks(start, data)) == if data == [] then low else start + |data|
    decreases |data|
  {
    if data != [] {
      var n := RowSize(start, |data|);
      var head, rest := Block(start, data[..n]), Chunks(start + n, data[n..]);
      assert Chunks(start, data) == [head] + rest by { ChunksUnfold(start, data, n, data[..n], data[n..]); }
      ConsTail(head, rest);
      ChunksAscend(End(head), start + n, data[n..]);
    }
  }

  lemma {:induction false} AllChunksAscend(low: nat, blocks: seq<Block>)
    requires InRange(blocks) && ByStart(blocks) && AllApart(blocks)
    requires forall b | b in blocks :: b.data == [] || low <= b.start
    ensures AscendingFrom(low, AllChunks(blocks))
    decreases |blocks|
  {
    if blocks != [] {
      var b, rest := blocks[0], blocks[1..];
      assert b in blocks;
      if b.data == [] {
        assert Chunks(b.start, b.data) == [];
        assert [] + AllChunks(rest) == AllChunks(rest);
        AllChunksAscend(low, rest);
      } else {
        ChunksAscend(low, b.start, b.data);
        forall x | x in rest ensures x.data == [] || End(b) <= x.start {
          assert Apart(b, x) && b.start <= x.start;
        }
        AllChunksAscend(End(b), rest);
        AscendingAppend(low, Chunks(b.start, b.data), AllChunks(rest));
      }
    }
  }

  // ---- Merged blocks are separate ----

  /** Blocks in order of address with a gap after each. */
  predicate Canonical(blocks: seq<Block>) {
    && (forall k | 0 <= k < |blocks| - 1 :: End(blocks[k]) < blocks[k + 1].start)
    && (forall b | b in blocks :: b.data != [])
  }

  lemma ExtendCanonical(acc: seq<Block>, b: Block)
    requires Canonical(acc) && b.data != [] && (acc != [] ==> End(acc[|acc| - 1]) <= b.start)
    ensures Canonical(Extend(acc, b))
  {
    var next := Extend(acc, b);
    forall k | 0 <= k < |next| - 1 ensures End(next[k]) < next[k + 1].start {
      if k + 1 < |acc| { assert End(acc[k]) < acc[k + 1].start; }
    }
    forall x | x in next ensures x.data != [] {
      var k :| 0 <= k < |next| && next[k] == x;
      if k < |acc| { assert acc[k] in acc; }
    }
  }

  lemma {:induction false} MergeCanonical(acc: seq<Block>, chunks: seq<Block>)
    requires Canonical(acc) && AscendingFrom(if acc == [] then 0 else End(acc[|acc| - 1]), chunks)
    ensures Canonical(MergeInto(acc, chunks))
    decreases |chunks|
  {
    if chunks != [] {
      ExtendCanonical(acc, chunks[0]);
      ExtendEnd(acc, chunks[0]);
      MergeCanonical(Extend(acc, chunks[0]), chunks[1..]);
    }
  }

  // ---- Round trip ----

  ghost predicate HasBytes(blocks: seq<Block>) {
    exists b :: b in blocks && b.data != []
  }

  lemma {:induction false} ChunksNonempty(blocks: seq<Block>)
    requires InRange(blocks)
    ensures AllChunks(blocks) != [] <==> HasBytes(blocks)
  {
    if blocks != [] {
      var b, rest := blocks[0], blocks[1..];
      assert b in blocks;
      ChunksNonempty(rest);
      assert b.data != [] ==> Chunks(b.start, b.data) != [];
      assert forall x :: x in blocks <==> x == b || x in rest;
      if HasBytes(rest) {
        var x :| x in rest && x.data != [];
        assert x in blocks;
      }
    }
  }

  lemma FinishMerges(s: ReaderState, chunks: seq<Block>)
    requires chunks != [] && AscendingFrom(0, chunks) && Mirrors(s, MergeInto([], chunks)) && s.placed == chunks
    ensures Finish(s) == Loaded(Image(MergeInto([], chunks), s.entry), s.warnings)
  {
    var merged := MergeInto([], chunks);
    MergeGrows([chunks[0]], chunks[1..]);
    assert Extend([], chunks[0]) == [chunks[0]];
    var spans := s.closed + [s.current.value];
    assert forall k | 0 <= k < |spans| :: spans[k] == SpanOf(merged[k]);
    BlankSpans(spans);
    FillMerges(Blanks(spans), chunks);
  }

  lemma ChunksAreOrdered(image: Image)
    requires InRange(image.blocks) && AllApart(image.blocks)
    ensures AscendingFrom(0, ImageChunks(image))
    ensures ImageChunks(image) != [] <==> HasBytes(image.blocks)
  {
    SortedContents(image.blocks);
    SortOrdered(image.blocks);
    AllChunksAscend(0, SortBlocks(image.blocks));
    ChunksNonempty(SortBlocks(image.blocks));
  }

  lemma MergedBytes(image: Image)
    requires InRange(image.blocks)
    ensures SameBytes(MergeInto([], ImageChunks(image)), image.blocks)
  {
    SortedContents(image.blocks);
    forall address, value
      ensures Holds(MergeInto([], ImageChunks(image)), address, value) <==> Holds(image.blocks, address, value)
    {
      MergeHolds([], ImageChunks(image), address, value);
      AllChunksHold(SortBlocks(image.blocks), address, value);
      SortedHold(image.blocks, address, value);
    }
  }

  /** The state in which a written image leaves the reader. */
  lemma FinalState(image: Image) returns (s: ReaderState)
    requires InRange(image.blocks)
    ensures ReadLines(INITIAL, WriteImage(image)) == Some(s)
    ensures Mirrors(s, MergeInto([], ImageChunks(image))) && s.placed == ImageChunks(image) && s.entry == image.entry && s.warnings == 0
  {
    var chunks := ImageChunks(image);
    ImageRead(image);
    MirrorAll(INITIAL, [], chunks);
    PlaceKeepsEntry(INITIAL, chunks);
    assert [] + chunks == chunks;
    s := PlaceAll(INITIAL, chunks).(base := FinalBase(chunks, 0), entry := image.entry);
  }

  /** The written image is read as the merged chunks. */
  lemma WrittenIsMerged(image: Image)
    requires InRange(image.blocks) && AscendingFrom(0, ImageChunks(image))
    ensures ReadImage(WriteImage(image)) ==
            if ImageChunks(image) == [] then Rejected else Loaded(Image(MergeInto([], ImageChunks(image)), image.entry), 0)
  {
    var s := FinalState(image);
    if ImageChunks(image) != [] {
      FinishMerges(s, ImageChunks(image));
      EnoughLines(image);
    }
  }

  /** Reading a written image gives its entry point and the same bytes at the same addresses, every checksum
      accepted, touching blocks merged; an image without a byte is rejected. */
  lemma ImageRoundTrip(image: Image)
    requires InRange(image.blocks) && AllApart(image.blocks)
    ensures var r := ReadImage(WriteImage(image));
      && (r.Loaded? <==> HasBytes(image.blocks))
      && (r.Loaded? ==> r.warnings == 0 && r.image.entry == image.entry && Canonical(r.image.blocks))
      && (r.Loaded? ==> SameBytes(r.image.blocks, image.blocks))
  {
    ChunksAreOrdered(image);
    WrittenIsMerged(image);
    MergedBytes(image);
    MergeCanonical([], ImageChunks(image));
  }

  lemma EnoughLines(image: Image)
    requires InRange(image.blocks) && ImageChunks(image) != []
    ensures |WriteImage(image)| > 1
  {}
}
