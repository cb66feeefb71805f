/** The core state as it runs: registers stored in one byte buffer that is changed in place
    (`src/soc/core/state.rs`, `src/soc/device/memory/basic.rs`). */
module CoreMemory {
  import opened Words
  import opened Results
  import opened Machine
  import opened Encoding
  import opened Decoding
  import opened CoreStore
  import RegisterFile

  datatype StateError = UnknownRegister(name: string) | RegisterWidthOverflow(name: string) | Bus(error: StoreError)

  class CoreState {
    const layout: map<string, RegisterFile.Layout>
    const endianness: Endianness
    const bytes: array<Byte>

    /** `CoreState::new`: whole words of zeroed memory. */
    constructor (layout: map<string, RegisterFile.Layout>, endianness: Endianness, words: nat)
      ensures this.layout == layout && this.endianness == endianness
      ensures fresh(bytes) && bytes.Length == 8 * words && forall k | 0 <= k < bytes.Length :: bytes[k] == 0
    {
      this.layout := layout;
      this.endianness := endianness;
      bytes := new Byte[8 * words](_ => 0);
    }

    /** The layout of a register whose width the data handle can express. */
    function Find(name: string): Result<RegisterFile.Layout, StateError> {
      if name !in layout then Err(UnknownRegister(name))
      else if layout[name].width > 65535 then Err(RegisterWidthOverflow(name))
      else Ok(layout[name])
    }

    method ReadRegister(name: string) returns (r: Result<nat, StateError>)
      ensures var l := Find(name);
        if l.Err? then r == Err(l.error)
        else
          var read := ReadBitsAt(bytes[..], endianness, l.value.offset, l.value.width);
          r == if read.Ok? then Ok(read.value) else Err(Bus(read.error))
    {
      var l := Find(name);
      if l.Err? { return Err(l.error); }
      var read := ReadBitsAt(bytes[..], endianness, l.value.offset, l.value.width);
      r := if read.Ok? then Ok(read.value) else Err(Bus(read.error));
    }

    /** The chunk is read, changed and copied back byte by byte. */
    method WriteRegister(name: string, value: nat) returns (r: Result<(), StateError>)
      modifies bytes
      ensures var l := Find(name);
        if l.Err? then r == Err(l.error) && bytes[..] == old(bytes[..])
        else
          var written := WriteBitsAt(old(bytes[..]), endianness, l.value.offset, l.value.width, value);
          if written.Ok? then r == Ok(()) && bytes[..] == written.value
          else r == Err(Bus(written.error)) && bytes[..] == old(bytes[..])
    {
      var found := Find(name);
      if found.Err? { return Err(found.error); }
      var l := found.value;
      if l.offset / 8 >= bytes.Length { return Err(Bus(OutOfRange)); }
      if l.width == 0 { return Ok(()); }
      var located := Locate(bytes.Length, l.offset, l.width);
      if located.Err? { return Err(Bus(located.error)); }
      var c := located.value;
      var n := 8 * c.words;
      var updated := Replace(DecodeWord(bytes[c.base..c.base + n], endianness), 8 * n, c.intra, l.width, ValueBits(value, l.width, endianness));
      CopyIn(c.base, WordBytes(updated, n, endianness));
      assert old(bytes[..])[c.base..c.base + n] == old(bytes[c.base..c.base + n]);
      r := Ok(());
    }

    /** `BasicMemory::write` */
    method CopyIn(base: nat, data: seq<Byte>)
      requires base + |data| <= bytes.Length
      modifies bytes
      ensures bytes[..] == old(bytes[..base]) + data + old(bytes[base + |data|..])
    {
      var i := 0;
      while i < |data|
        invariant 0 <= i <= |data|
        invariant forall k | 0 <= k < i :: bytes[base + k] == data[k]
        invariant forall k | 0 <= k < base || base + i <= k < bytes.Length :: bytes[k] == old(bytes[k])
      {
        bytes[base + i] := data[i];
        i := i + 1;
      }
    }

    /** `zeroize` */
    method Zeroize()
      modifies bytes
      ensures forall k | 0 <= k < bytes.Length :: bytes[k] == 0
    {
      CopyIn(0, seq(bytes.Length, i => 0));
      assert forall k | 0 <= k < bytes.Length :: bytes[k] == bytes[..][k];
    }
  }
}
