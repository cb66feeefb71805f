/** The cursor over the device bus and its cached range (`obsolete/dotnet/sysbus/AddressBus.cs`). */
module BusAccess {
  import opened Words
  import opened Results
  import opened DeviceBus

  /** The fields of `BasicBusAccess`; the range is the one the last lookup found. */
  datatype Access = Access(range: Option<Range>, deviceOffset: U64, deviceOffsetEnd: U64, jumpDeviceOffset: U64, jumpRegister: U64)

  const FRESH := Access(None, 0, 0, 0, 0)

  datatype Jumped = Jumped(access: Access, found: bool)

  /** `Jump`: the cached range is asked first, and its end counts as inside. */
  function Jump(bus: Bus, a: Access, address: U64): Jumped {
    if a.range.Some? && Resolves(a.range.value, address).Some? then
      Jumped(a.(deviceOffset := Resolves(a.range.value, address).value), true)
    else
      var range := Lookup(bus, address);
      if range.None? || Resolves(range.value, address).None? then
        Jumped(a.(range := None, deviceOffset := if a.range.Some? then 0 else a.deviceOffset, deviceOffsetEnd := 0), false)
      else
        var offset := Resolves(range.value, address).value;
        Jumped(Access(range, offset, range.value.device.size, offset, address), true)
  }

  /** `BusAddress` */
  function BusAddress(a: Access): U64 {
    WrapAdd(a.jumpRegister, WrapSub(a.deviceOffset, a.jumpDeviceOffset))
  }

  function WrapSub(a: U64, b: U64): U64 {
    if a >= b then a - b else a + WORD - b
  }

  /** `JumpRelative`, from the device offset of the last jump that was looked up. */
  function JumpRelative(a: Access, offset: I64): Jumped {
    var destination := WrapI64(ToI64(a.jumpDeviceOffset) + offset);
    if destination < 0 || destination >= a.deviceOffsetEnd then Jumped(a, false)
    else Jumped(a.(deviceOffset := destination), true)
  }

  /** The cached range is on the bus, and the last looked-up jump went into it. */
  ghost predicate Consistent(bus: Bus, a: Access) {
    a.range.Some? ==>
      && OnBus(bus, a.range.value) && Contains(a.range.value, a.jumpRegister)
      && a.jumpDeviceOffset == a.range.value.offset + (a.jumpRegister - a.range.value.start)
      && a.deviceOffsetEnd == a.range.value.device.size
  }

  /** What the cursor reaches. */
  function Reached(j: Jumped): Option<(Device, U64)> {
    if j.found && j.access.range.Some? then Some((j.access.range.value.device, j.access.deviceOffset)) else None
  }

  lemma JumpKeepsConsistent(bus: Bus, a: Access, address: U64)
    requires Sound(bus) && Consistent(bus, a)
    ensures Consistent(bus, Jump(bus, a, address).access)
  {
    if Lookup(bus, address).Some? {
      var r := Lookup(bus, address).value;
      LookupIsScan(bus, address, r);
      assert Inside(r);
    }
  }

  /** A range on the bus goes on where the cached one ends, in the same device without a break. */
  ghost predicate GoesOn(bus: Bus, r: Range) {
    exists next :: OnBus(bus, next) && next.start == BusEnd(r) && next.device == r.device && next.offset == r.offset + r.size
  }

  /** The range found at the end of another one starts there. */
  lemma FoundAtEnd(bus: Bus, r: Range)
    requires Sound(bus) && OnBus(bus, r) && Lookup(bus, BusEnd(r)).Some?
    ensures Lookup(bus, BusEnd(r)).value.start == BusEnd(r)
  {
    var next := Lookup(bus, BusEnd(r)).value;
    LookupIsScan(bus, BusEnd(r), next);
    assert Inside(r) && Inside(next);
    ProperOnBus(bus, r);
    if next.start < BusEnd(r) {
      LookupIsScan(bus, BusEnd(r) - 1, r);
      LookupIsScan(bus, BusEnd(r) - 1, next);
    }
  }

  lemma ReachAtEndIff(bus: Bus, r: Range)
    requires Sound(bus) && OnBus(bus, r)
    ensures Reach(bus, BusEnd(r)) == Some((r.device, WrapAdd(r.offset, r.size))) <==> GoesOn(bus, r)
  {
    assert Inside(r);
    if GoesOn(bus, r) {
      var next :| OnBus(bus, next) && next.start == BusEnd(r) && next.device == r.device && next.offset == r.offset + r.size;
      assert Inside(next);
      ProperOnBus(bus, next);
      ReachOf(bus, next, BusEnd(r));
    }
    if Lookup(bus, BusEnd(r)).Some? {
      var next := Lookup(bus, BusEnd(r)).value;
      FoundAtEnd(bus, r);
      LookupIsScan(bus, BusEnd(r), next);
      ReachOf(bus, next, BusEnd(r));
    }
  }

  /** A jump reaches what a fresh lookup reaches, except at the end of the cached range: there it does exactly
      when a range starts there that goes on in the same device without a break. */
  lemma JumpAgreesIff(bus: Bus, a: Access, address: U64)
    requires Sound(bus) && Consistent(bus, a)
    ensures Reached(Jump(bus, a, address)) == Reach(bus, address) <==>
            (a.range.Some? && address == BusEnd(a.range.value) ==> GoesOn(bus, a.range.value))
  {
    if a.range.Some? {
      var r := a.range.value;
      assert Inside(r);
      ProperOnBus(bus, r);
      ReachAtEndIff(bus, r);
      if Contains(r, address) { ReachOf(bus, r, address); }
    }
    if Lookup(bus, address).Some? { ReachInside(bus, address); }
  }

  /** After a jump that was found, the bus address is the address jumped to. */
  lemma JumpAddress(bus: Bus, a: Access, address: U64)
    requires Sound(bus) && Consistent(bus, a) && Jump(bus, a, address).found
    ensures BusAddress(Jump(bus, a, address).access) == address
  {
    if a.range.Some? { assert Inside(a.range.value); }
  }

  /** After a jump that was found, a relative jump by nothing is found when the base is a signed number, and then stays
      at the address jumped to exactly when the jump was looked up anew, or went to the address last looked up: a jump
      inside the cached range does not move the base of relative jumps. */
  lemma RelativeBaseIff(bus: Bus, a: Access, address: U64)
    requires Sound(bus) && Consistent(bus, a) && Jump(bus, a, address).found
    ensures var jumped := Jump(bus, a, address).access;
      var back := JumpRelative(jumped, 0);
      && (back.found <==> jumped.jumpDeviceOffset < WORD / 2)
      && (back.found ==>
            (BusAddress(back.access) == address <==>
               a.range.None? || Resolves(a.range.value, address).None? || address == a.jumpRegister))
  {
    var jumped := Jump(bus, a, address).access;
    JumpKeepsConsistent(bus, a, address);
    assert Inside(jumped.range.value);
    WrapI64Small(ToI64(jumped.jumpDeviceOffset));
  }

  /** After a jump that was looked up, a relative jump is found when it stays in the device; while it also stays in the
      range, it goes where the bus has the address that many bytes on. */
  lemma RelativeJumpMeans(bus: Bus, a: Access, address: U64, distance: I64)
    requires Sound(bus) && Jump(bus, a, address).found && a.range.None?
    requires Jump(bus, a, address).access.deviceOffset < WORD / 2
    requires Jump(bus, a, address).access.deviceOffset + distance < WORD / 2
    ensures var jumped := Jump(bus, a, address).access;
      var r, moved := jumped.range.value, JumpRelative(jumped, distance);
      && OnBus(bus, r) && Contains(r, address) && jumped.deviceOffset == r.offset + (address - r.start)
      && (moved.found <==> 0 <= jumped.deviceOffset + distance < r.device.size)
      && (!moved.found ==> moved.access == jumped)
      && (r.start <= address + distance < BusEnd(r) ==>
            moved.found && Reached(moved) == Reach(bus, address + distance) && BusAddress(moved.access) == address + distance)
  {
    var jumped := Jump(bus, a, address).access;
    var r := jumped.range.value;
    assert jumped.range == Lookup(bus, address);
    LookupIsScan(bus, address, r);
    assert Inside(r);
    ProperOnBus(bus, r);
    WrapI64Small(jumped.deviceOffset + distance);
    if r.start <= address + distance < BusEnd(r) { ReachOf(bus, r, address + distance); }
  }

  /** A mapping never moves under a cursor: what a cached range reaches stays right while the bus only grows. */
  lemma GrowthKeepsConsistent(bus: Bus, after: Bus, a: Access)
    requires Consistent(bus, a) && forall r :: OnBus(bus, r) ==> OnBus(after, r)
    ensures Consistent(after, a)
  {}

  // ---- Inputs ----

  /** Two devices side by side. */
  function SideBySide(): Bus {
    Register(OneDevice(0), OTHER, 0x20).bus
  }

  lemma SideBySideIs()
    ensures Register(EmptyBus(0x1000), SMALL, 0) == Outcome(OneDevice(0), None) && Register(OneDevice(0), OTHER, 0x20).error.None?
    ensures SideBySide().bucket == 0x1000
    ensures SideBySide().ranges == map[0 := [Range(SMALL, 0, 0x20, 0), Range(OTHER, 0x20, 0x20, 0)]]
  {
    OneDeviceRegistered(0);
    LowHash(0);
    LowHash(0x20);
    LowHash(0x40);
    var device, next := Range(SMALL, 0, 0x20, 0), Range(OTHER, 0x20, 0x20, 0);
    assert Position([device], 0x20) == 1 by { assert [device][1..] == []; }
    assert [device][..1] + [next] + [device][1..] == [device, next];
    assert InsertSorted([device], next) == Ok([device, next]);
    assert FirstEndingAfter([device], 0x20) == None by { assert FirstEndingAfter([device][1..], 0x20) == None; }
    assert Lookup(OneDevice(0), 0x20) == None;
  }

  /** After a jump to the first byte of a device, a jump to the first byte of the next one stays in the first device, one
      byte behind its end. */
  lemma JumpPastTheEnd()
    ensures var bus := SideBySide();
      var cursor := Jump(bus, FRESH, 0).access;
      && Reached(Jump(bus, cursor, 0x20)) == Some((SMALL, 0x20)) && Reach(bus, 0x20) == Some((OTHER, 0))
  {
    SideBySideIs();
    LowHash(0);
    LowHash(0x20);
    var ranges := SideBySide().ranges[0];
    assert ranges[1..] == [Range(OTHER, 0x20, 0x20, 0)];
    assert Lookup(SideBySide(), 0) == Some(Range(SMALL, 0, 0x20, 0));
    assert FirstEndingAfter(ranges[1..], 0x20) == Some(Range(OTHER, 0x20, 0x20, 0));
    assert FirstEndingAfter(ranges, 0x20) == FirstEndingAfter(ranges[1..], 0x20);
    assert Lookup(SideBySide(), 0x20) == Some(Range(OTHER, 0x20, 0x20, 0));
  }

  /** A jump inside the device last looked up, then a relative jump by nothing, goes back. */
  lemma RelativeJumpGoesBack()
    ensures var bus := OneDevice(0);
      var jumped := Jump(bus, Jump(bus, FRESH, 0).access, 8);
      && jumped.found && BusAddress(jumped.access) == 8
      && BusAddress(JumpRelative(jumped.access, 0).access) == 0
  {
    LowHash(0);
    WrapI64Small(0);
  }
}
