/** The bus and its cursor as they run: dictionaries of bucket lists changed by shifting, and a cursor
    updated in place (`obsolete/dotnet/sysbus/{DeviceBus,AddressBus}.cs`). */
module BusRun {
  import opened Words
  import opened Results
  import opened Seqs
  import opened DeviceBus
  import opened BusAccess

  class HashedDeviceBus {
    const bucket: Positive
    var ranges: Buckets
    var registrations: map<string, Registration>
    var list: seq<Registration>

    constructor (bucket: Positive)
      ensures Contents() == EmptyBus(bucket)
    {
      this.bucket := bucket;
      ranges := map[];
      registrations := map[];
      list := [];
    }

    function Contents(): Bus
      reads this
    {
      Bus(bucket, ranges, registrations, list)
    }

    method ResolvesToRange(address: U64) returns (found: Option<Range>)
      ensures found == Lookup(Contents(), address)
    {
      var hash := Hash(bucket, address);
      if hash !in ranges { return None; }
      var bucketList := ranges[hash];
      var idx := 0;
      DropWhole(bucketList);
      while idx < |bucketList| && BusEnd(bucketList[idx]) <= address
        invariant 0 <= idx <= |bucketList|
        invariant FirstEndingAfter(bucketList[idx..], address) == FirstEndingAfter(bucketList, address)
      {
        DropDrop(bucketList, idx, 1);
        idx := idx + 1;
      }
      found := if idx < |bucketList| && bucketList[idx].start <= address then Some(bucketList[idx]) else None;
    }

    /** `InsertRange`: the ranges after the new one are shifted up by one. */
    method InsertRange(r: Range) returns (error: Option<BusError>)
      modifies this`ranges
      ensures var inserted := Insert(old(Contents()), r);
        if inserted.Ok? then error == None && ranges == inserted.value
        else error == Some(inserted.error) && ranges == old(ranges)
    {
      var hash := Hash(bucket, r.start);
      if hash != Hash(bucket, BusEnd(r)) { return Some(SpansBuckets); }
      if hash !in ranges {
        ranges := ranges[hash := [r]];
        return None;
      }
      var shifted, bad := ShiftIn(ranges[hash], r);
      if bad { return Some(Overlaps); }
      ranges := ranges[hash := shifted];
      error := None;
    }

    method RegisterDevice(device: Device, address: U64) returns (error: Option<BusError>)
      modifies this
      ensures Outcome(Contents(), error) == Register(old(Contents()), device, address)
    {
      var taken := ResolvesToRange(address);
      if taken.Some? { return Some(AlreadyMapped); }
      if device.size == 0 { return Some(ZeroSize); }
      if device.name in registrations { return Some(DuplicateName); }
      var registration := Registration(device, address);
      registrations := registrations[device.name := registration];
      list := list + [registration];
      error := InsertRange(Range(device, address, device.size, 0));
    }

    method Redirect(source: U64, size: U64, target: U64) returns (error: Option<BusError>)
      modifies this`ranges
      ensures Outcome(Contents(), error) == DeviceBus.Redirect(old(Contents()), source, size, target)
    {
      var range := ResolvesToRange(target);
      if range.None? { return Some(TargetUnmapped); }
      if size == 0 { return Some(ZeroSize); }
      var offset := Resolves(range.value, target);
      if offset.None? || WrapAdd(offset.value, size) > range.value.size { return Some(NotEncapsulated); }
      error := InsertRange(Range(range.value.device, source, size, offset.value));
    }
  }

  /** The insertion loop: everybody from place n on moves up by one. */
  method ShiftUp(before: seq<Range>, n: nat, r: Range) returns (ranges: seq<Range>)
    requires n <= |before|
    ensures ranges == before[..n] + [r] + before[n..]
  {
    ranges := before;
    var i, current := n, r;
    while i < |ranges|
      invariant n <= i <= |ranges| == |before|
      invariant current == if i == n then r else before[i - 1]
      invariant forall k | 0 <= k < n :: ranges[k] == before[k]
      invariant forall k | n < k < i :: ranges[k] == before[k - 1]
      invariant i > n ==> ranges[n] == r
      invariant forall k | i <= k < |before| :: ranges[k] == before[k]
    {
      var next := ranges[i];
      ranges := ranges[i := current];
      i := i + 1;
      current := next;
    }
    ranges := ranges + [current];
  }

  /** The place of the new range, unless it reaches into the next. */
  method ShiftIn(before: seq<Range>, r: Range) returns (ranges: seq<Range>, overlaps: bool)
    ensures overlaps <==> InsertSorted(before, r).Err?
    ensures !overlaps ==> ranges == InsertSorted(before, r).value
  {
    ranges, overlaps := before, true;
    var n := 0;
    DropWhole(before);
    while n < |before| && before[n].start < r.start
      invariant 0 <= n <= |before|
      invariant Position(before, r.start) == n + Position(before[n..], r.start)
    {
      DropDrop(before, n, 1);
      n := n + 1;
    }
    if n == |before| || before[n].start >= BusEnd(r) {
      ranges := ShiftUp(before, n, r);
      overlaps := false;
    }
  }

  class BusCursor {
    const bus: HashedDeviceBus
    var access: Access

    constructor (bus: HashedDeviceBus)
      ensures this.bus == bus && access == FRESH
    {
      this.bus := bus;
      access := FRESH;
    }

    /** `Jump` */
    method JumpTo(address: U64) returns (found: bool)
      modifies this
      ensures Jumped(access, found) == Jump(bus.Contents(), old(access), address)
    {
      if access.range.Some? {
        var offset := Resolves(access.range.value, address);
        access := access.(deviceOffset := if offset.Some? then offset.value else 0);
        if offset.Some? { return true; }
      }
      access := access.(deviceOffsetEnd := 0);
      var range := bus.ResolvesToRange(address);
      if range.None? || Resolves(range.value, address).None? {
        access := access.(range := None);
        return false;
      }
      var offset := Resolves(range.value, address).value;
      access := Access(range, offset, range.value.device.size, offset, address);
      found := true;
    }
  }
}
